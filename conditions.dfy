/** Implication conditions and the rule that decides whether one holds for a
    parsed argument set (`keyExists`, lib/validation.ts:281-298). */
module Conditions {
  import opened Values
  import opened Text

  /** What `implies` stores: a key name or a number. */
  datatype KeyOrPos = Name(s: string) | Pos(n: int)

  /** How a stored token is read at check time. */
  datatype Condition =
    | AtLeast(n: int)       // a number: at least this many positional tokens
    | Negated(key: string)  // `--no-<key>`: the key is falsy
    | Present(key: string)  // anything else: the key is truthy

  predicate IsLineTerminator(c: char)
  {
    c == '\n' || c == '\r' || c == '\U{2028}' || c == '\U{2029}'
  }

  predicate OnOneLine(s: string)
  {
    forall i :: 0 <= i < |s| ==> !IsLineTerminator(s[i])
  }

  /** What the regular-expression group `(.+)` captures: the longest prefix
      without a line terminator. */
  function TakeLine(s: string): (r: string)
    ensures |r| <= |s| && r == s[..|r|] && OnOneLine(r)
    ensures |r| == |s| || IsLineTerminator(s[|r|])
  {
    if s == [] || IsLineTerminator(s[0]) then [] else [s[0]] + TakeLine(s[1..])
  }

  /** The token matches `/^--no-.+/`. */
  predicate HasNoPrefix(s: string)
  {
    |s| > 5 && s[..5] == "--no-" && !IsLineTerminator(s[5])
  }

  /** The runtime sniffing of a token: number-like first (only decimal digit
      strings, the empty string included, are read as numbers here), then the
      `--no-` form, then a plain key. */
  function Classify(t: KeyOrPos): (c: Condition)
    ensures t.Pos? ==> c == AtLeast(t.n)
    ensures t.Name? ==> (c.AtLeast? <==> IsDigits(t.s))
    ensures t.Name? && c.Negated? ==>
      c.key != [] && OnOneLine(c.key) && "--no-" + c.key <= t.s
    ensures t.Name? && c.Negated? ==> |t.s| > 5 && c.key == TakeLine(t.s[5..])
    ensures t.Name? && c.Negated? && OnOneLine(t.s) ==> t.s == "--no-" + c.key
    ensures t.Name? && c.Present? ==> c.key == t.s && !IsDigits(t.s) && !HasNoPrefix(t.s)
  {
    match t
    case Pos(n) => AtLeast(n)
    case Name(s) =>
      if IsDigits(s) then AtLeast(DecimalValue(s))
      else if HasNoPrefix(s) then Negated(TakeLine(s[5..]))
      else Present(s)
  }

  /** Whether a token holds for `argv`. */
  function KeyExists(argv: Dict<Value>, t: KeyOrPos): (r: bool)
    ensures t.Pos? ==> (r <==> |Positional(argv)| >= t.n)
    ensures t.Name? && IsDigits(t.s) ==> (r <==> |Positional(argv)| >= DecimalValue(t.s))
    ensures t.Name? && !IsDigits(t.s) && !HasNoPrefix(t.s) ==> (r <==> Truthy(Get(argv, t.s)))
    ensures t.Name? && !IsDigits(t.s) && HasNoPrefix(t.s) ==>
      (r <==> !Truthy(Get(argv, TakeLine(t.s[5..]))))
    ensures t.Name? && !IsDigits(t.s) && HasNoPrefix(t.s) && OnOneLine(t.s) ==>
      (r <==> !Truthy(Get(argv, t.s[5..])))
  {
    match Classify(t)
    case AtLeast(n) => |Positional(argv)| >= n
    case Negated(k) => !Truthy(Get(argv, k))
    case Present(k) => Truthy(Get(argv, k))
  }

  lemma {:induction false} TakeLineWhole(s: string)
    requires OnOneLine(s)
    ensures TakeLine(s) == s
  {
    if s != [] {
      TakeLineWhole(s[1..]);
    }
  }

  /** `--no-<key>` holds exactly when `<key>` is falsy. */
  lemma NegatedHoldsIffFalsy(argv: Dict<Value>, key: string)
    requires key != [] && OnOneLine(key)
    ensures KeyExists(argv, Name("--no-" + key)) == !Truthy(Get(argv, key))
  {
    var s := "--no-" + key;
    assert !IsDigit(s[0]);
    assert s[5..] == key && s[5] == key[0];
    TakeLineWhole(key);
  }

  /** For a plain key, `--no-<key>` is its negation. */
  lemma NegationFlips(argv: Dict<Value>, key: string)
    requires key != [] && OnOneLine(key) && Classify(Name(key)) == Present(key)
    ensures KeyExists(argv, Name("--no-" + key)) == !KeyExists(argv, Name(key))
  {
    NegatedHoldsIffFalsy(argv, key);
  }

  /** A number and its decimal string are the same positional-count threshold. */
  lemma DecimalNameIsThreshold(argv: Dict<Value>, n: nat)
    ensures KeyExists(argv, Name(NatToString(n))) == KeyExists(argv, Pos(n))
    ensures KeyExists(argv, Pos(n)) <==> |Positional(argv)| >= n
  {
    DecimalRoundTrip(n);
  }
}
