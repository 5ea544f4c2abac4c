/** The string operations the engine applies: decimal rendering and parsing of
    numbers, and the `String.prototype.replace` forms used to fill in custom
    messages. */
module Text {
  import opened Values

  predicate IsDigit(c: char)
  {
    '0' <= c <= '9'
  }

  predicate IsDigits(s: string)
  {
    forall i :: 0 <= i < |s| ==> IsDigit(s[i])
  }

  function DigitChar(d: nat): char
    requires d < 10
  {
    ('0' as int + d) as char
  }

  function DigitValue(c: char): (d: nat)
    requires IsDigit(c)
    ensures d < 10 && DigitChar(d) == c
  {
    (c as int - '0' as int) as nat
  }

  /** `n.toString()` for a non-negative integer. */
  function NatToString(n: nat): (s: string)
    ensures |s| > 0 && IsDigits(s)
  {
    if n < 10 then [DigitChar(n)] else NatToString(n / 10) + [DigitChar(n % 10)]
  }

  /** `n.toString()` for any integer. */
  function IntToString(n: int): string
  {
    if n < 0 then "-" + NatToString(-n) else NatToString(n)
  }

  /** `Number(s)` for a string of decimal digits; the empty string is 0. */
  function DecimalValue(s: string): nat
    requires IsDigits(s)
  {
    if s == [] then 0 else 10 * DecimalValue(s[..|s| - 1]) + DigitValue(s[|s| - 1])
  }

  /** Reading back the decimal rendering of a number gives the number. */
  lemma {:induction false} DecimalRoundTrip(n: nat)
    ensures DecimalValue(NatToString(n)) == n
  {
    var s := NatToString(n);
    if n >= 10 {
      var head := NatToString(n / 10);
      DecimalRoundTrip(n / 10);
      assert s == head + [DigitChar(n % 10)];
      assert s[..|s| - 1] == head;
      assert DigitValue(s[|s| - 1]) == n % 10;
    }
  }

  /** An occurrence of `p` in `s` starts at position `k`. */
  predicate MatchAt(s: string, p: string, k: int)
  {
    0 <= k && k + |p| <= |s| && s[k..k + |p|] == p
  }

  /** No occurrence of `p` in `s` starts before position `k`. */
  predicate NoMatchBefore(s: string, p: string, k: int)
  {
    forall i :: 0 <= i < k ==> !MatchAt(s, p, i)
  }

  lemma MatchShift(s: string, p: string, j: int)
    requires |s| > 0 && 0 <= j
    ensures MatchAt(s, p, j + 1) <==> MatchAt(s[1..], p, j)
  {
    if j + 1 + |p| <= |s| {
      var u, v := s[j + 1..j + 1 + |p|], s[1..][j..j + |p|];
      assert forall q :: 0 <= q < |p| ==> u[q] == v[q];
      assert u == v;
    }
  }

  /** The position of the first occurrence of `p` in `s`, scanning left to right. */
  function IndexOf(s: string, p: string): (r: Option<nat>)
    requires |p| > 0
    ensures r.Some? ==> MatchAt(s, p, r.value) && NoMatchBefore(s, p, r.value)
    ensures r.None? ==> NoMatchBefore(s, p, |s|)
    decreases |s|
  {
    if |s| < |p| then None
    else if s[..|p|] == p then Some(0)
    else
      match IndexOf(s[1..], p)
      case None =>
        assert NoMatchBefore(s, p, |s|) by {
          forall j | 0 <= j < |s| ensures !MatchAt(s, p, j) {
            if j > 0 { MatchShift(s, p, j - 1); }
          }
        }
        None
      case Some(i) =>
        assert MatchAt(s, p, i + 1) && NoMatchBefore(s, p, i + 1) by {
          MatchShift(s, p, i);
          forall j | 0 <= j < i + 1 ensures !MatchAt(s, p, j) {
            if j > 0 { MatchShift(s, p, j - 1); }
          }
        }
        Some(i + 1)
  }

  /** `s.replace(p, r)` with a non-global pattern: only the first occurrence is replaced. */
  function ReplaceFirst(s: string, p: string, r: string): string
    requires |p| > 0
  {
    match IndexOf(s, p)
    case None => s
    case Some(k) => s[..k] + r + s[k + |p|..]
  }

  /** `s.replace(/p/g, r)`: every occurrence, found left to right without overlap, is replaced. */
  function ReplaceAll(s: string, p: string, r: string): string
    requires |p| > 0
    decreases |s|
  {
    match IndexOf(s, p)
    case None => s
    case Some(k) => s[..k] + r + ReplaceAll(s[k + |p|..], p, r)
  }

  /** Replacing the first occurrence splits the string there and keeps everything after it,
      later occurrences included. */
  lemma ReplaceFirstSplits(a: string, p: string, b: string, r: string)
    requires |p| > 0 && NoMatchBefore(a + p + b, p, |a|)
    ensures ReplaceFirst(a + p + b, p, r) == a + r + b
  {
    var s := a + p + b;
    assert MatchAt(s, p, |a|) by { assert s[|a|..|a| + |p|] == p; }
    assert s[..|a|] == a && s[|a| + |p|..] == b;
  }

  /** Replacing every occurrence splits at the first one and carries on with the rest. */
  lemma ReplaceAllSplits(a: string, p: string, b: string, r: string)
    requires |p| > 0 && NoMatchBefore(a + p + b, p, |a|)
    ensures ReplaceAll(a + p + b, p, r) == a + r + ReplaceAll(b, p, r)
  {
    var s := a + p + b;
    assert MatchAt(s, p, |a|) by { assert s[|a|..|a| + |p|] == p; }
    assert s[..|a|] == a && s[|a| + |p|..] == b;
  }

  /** A string without the pattern passes through unchanged. */
  lemma ReplaceAllWithoutMatch(s: string, p: string, r: string)
    requires |p| > 0 && NoMatchBefore(s, p, |s|)
    ensures ReplaceAll(s, p, r) == s && ReplaceFirst(s, p, r) == s
  {
  }
}
