/** The count evaluators: `nonOptionCount`, `positionalCount` and
    `requiredArguments` (lib/validation.ts:18-114). */
module Counts {
  import opened Values
  import opened Text
  import opened Reports

  /** A custom message given to `demandCommand`: not given, `null`, or a text. */
  datatype CustomMsg = Unset | NullMsg | Text(s: string)

  /** The demanded range of positional tokens for the current command depth;
      `max == None` is an unbounded maximum. */
  datatype Demand = Demand(min: int, max: Option<int>, minMsg: CustomMsg, maxMsg: CustomMsg)

  /** Positional tokens left once the command path is discounted. */
  function Observed(argv: Dict<Value>, depth: nat): int
  {
    |Positional(argv)| - depth
  }

  predicate AboveMax(d: Demand, observed: int)
  {
    d.max.Some? && observed > d.max.value
  }

  /** Fills a custom message: every `$0` becomes the observed count, then the
      first `$1` the bound. A message without `$` is used as it is. */
  function Fill(template: string, observed: int, bound: int): (r: string)
    ensures NoDollar(template) ==> r == template
  {
    var filled := ReplaceAll(template, "$0", IntToString(observed));
    VerbatimWithoutDollar(template, "$0", IntToString(observed));
    VerbatimWithoutDollar(template, "$1", IntToString(bound));
    ReplaceFirst(filled, "$1", IntToString(bound))
  }

  /** The failure for a violated bound: the default one, or the custom message
      (an empty one is reported as `null`). */
  function CountFailure(msg: CustomMsg, default: Failure, observed: int, bound: int): (r: Failure)
    ensures msg.Unset? ==> r == default
    ensures !msg.Unset? ==> r.CustomCount? && (r.text.None? <==> msg.NullMsg? || msg == Text(""))
    ensures msg.Text? && msg.s != "" ==> r == CustomCount(Some(Fill(msg.s, observed, bound)))
  {
    match msg
    case Unset => default
    case NullMsg => CustomCount(None)
    case Text(s) => if s == "" then CustomCount(None) else CustomCount(Some(Fill(s, observed, bound)))
  }

  /** `nonOptionCount`: at most one failure, exactly when a range is demanded
      and the observed count falls outside it; falling below the minimum is
      reported in preference to exceeding the maximum. */
  function NonOptionCount(argv: Dict<Value>, depth: nat, demanded: Option<Demand>): (fails: seq<Failure>)
    ensures |fails| <= 1
    ensures fails != [] <==>
      demanded.Some? && (Observed(argv, depth) < demanded.value.min || AboveMax(demanded.value, Observed(argv, depth)))
    ensures demanded.Some? && Observed(argv, depth) < demanded.value.min ==>
      fails == [CountFailure(demanded.value.minMsg,
                             TooFewNonOptions(Observed(argv, depth), demanded.value.min),
                             Observed(argv, depth), demanded.value.min)]
    ensures demanded.Some? && Observed(argv, depth) >= demanded.value.min
            && AboveMax(demanded.value, Observed(argv, depth)) ==>
      fails == [CountFailure(demanded.value.maxMsg,
                             TooManyNonOptions(Observed(argv, depth), demanded.value.max.value),
                             Observed(argv, depth), demanded.value.max.value)]
  {
    var n := Observed(argv, depth);
    match demanded
    case None => []
    case Some(d) =>
      if n < d.min then [CountFailure(d.minMsg, TooFewNonOptions(n, d.min), n, d.min)]
      else if AboveMax(d, n) then [CountFailure(d.maxMsg, TooManyNonOptions(n, d.max.value), n, d.max.value)]
      else []
  }

  /** `positionalCount`: one failure exactly when fewer tokens were observed than required. */
  function PositionalCount(required: int, observed: int): (fails: seq<Failure>)
    ensures |fails| <= 1
    ensures fails != [] <==> observed < required
    ensures forall f :: f in fails ==> f == TooFewNonOptions(observed, required)
  {
    if observed < required then [TooFewNonOptions(observed, required)] else []
  }

  predicate NoDollar(s: string)
  {
    forall i :: 0 <= i < |s| ==> s[i] != '$'
  }

  lemma NoDollarNoMatch(a: string, rest: string, p: string)
    requires |p| > 0 && p[0] == '$' && NoDollar(a)
    ensures NoMatchBefore(a + rest, p, |a|)
  {
    var s := a + rest;
    forall i | 0 <= i < |a| ensures !MatchAt(s, p, i) {
      assert s[i] == a[i];
      if i + |p| <= |s| {
        assert s[i..i + |p|][0] == s[i];
      }
    }
  }

  /** A pattern led by `$` does not occur in text without `$`. */
  lemma VerbatimWithoutDollar(s: string, p: string, r: string)
    requires |p| > 0 && p[0] == '$'
    ensures NoDollar(s) ==> ReplaceAll(s, p, r) == s && ReplaceFirst(s, p, r) == s
  {
    if NoDollar(s) {
      NoDollarNoMatch(s, "", p);
      assert s + "" == s;
      ReplaceAllWithoutMatch(s, p, r);
    }
  }

  lemma NumberHasNoDollar(n: int)
    ensures NoDollar(IntToString(n))
  {
    var d := if n < 0 then NatToString(-n) else NatToString(n);
    assert forall i :: 0 <= i < |d| ==> IsDigit(d[i]);
  }

  /** The non-global replace fills only the first `$1`. */
  lemma FirstOneSlotFilled(x: string, y: string, n: string)
    requires NoDollar(x)
    ensures ReplaceFirst(x + "$1" + y, "$1", n) == x + n + y
  {
    NoDollarNoMatch(x, "$1" + y, "$1");
    ReplaceFirstSplits(x, "$1", y, n);
  }

  /** No segment holds a `$`. */
  predicate NoDollarSegs(segs: seq<string>)
  {
    segs == [] || (NoDollar(segs[0]) && NoDollarSegs(segs[1..]))
  }

  /** No `$0` occurs in `s`. */
  predicate NoZeroSlot(s: string)
  {
    NoMatchBefore(s, "$0", |s|)
  }

  /** The segments joined by `slot`, then `last`: `segs[0] slot segs[1] slot ... slot last`. */
  function Slotted(segs: seq<string>, slot: string, last: string): string
  {
    if segs == [] then last else segs[0] + slot + Slotted(segs[1..], slot, last)
  }

  lemma {:induction false} SlottedAppend(segs: seq<string>, slot: string, a: string, b: string)
    ensures Slotted(segs, slot, a + b) == Slotted(segs, slot, a) + b
  {
    if segs != [] {
      var tail, tail' := Slotted(segs[1..], slot, a + b), Slotted(segs[1..], slot, a);
      SlottedAppend(segs[1..], slot, a, b);
      assert tail == tail' + b;
      assert segs[0] + slot + tail == (segs[0] + slot + tail') + b;
    }
  }

  /** Cutting at the first `$0` leaves a segment holding none before it. */
  lemma CutAtFirstSlot(s: string, k: nat)
    requires MatchAt(s, "$0", k) && NoMatchBefore(s, "$0", k)
    ensures NoZeroSlot(s[..k]) && s[..k] + "$0" + s[k + 2..] == s
  {
    forall i | 0 <= i < k ensures !MatchAt(s[..k], "$0", i) {
      if i + 2 <= k {
        assert s[..k][i..i + 2] == s[i..i + 2];
        assert !MatchAt(s, "$0", i);
      }
    }
    assert s[k..k + 2] == "$0";
  }

  /** Every message splits at its `$0` slots into segments holding none. */
  function SplitSlots(s: string): (r: (seq<string>, string))
    ensures Slotted(r.0, "$0", r.1) == s
    ensures forall i :: 0 <= i < |r.0| ==> NoZeroSlot(r.0[i])
    ensures NoZeroSlot(r.1)
    decreases |s|
  {
    match IndexOf(s, "$0")
    case None => ([], s)
    case Some(k) =>
      var rest := SplitSlots(s[k + 2..]);
      CutAtFirstSlot(s, k);
      var segs := [s[..k]] + rest.0;
      assert segs[1..] == rest.0;
      assert forall i :: 0 < i < |segs| ==> segs[i] == rest.0[i - 1];
      (segs, rest.1)
  }

  /** A `$0` right after a segment holding none is the first `$0`. */
  lemma SlotIsFirst(a: string, rest: string)
    requires NoZeroSlot(a)
    ensures NoMatchBefore(a + "$0" + rest, "$0", |a|)
  {
    var t := a + "$0" + rest;
    forall i | 0 <= i < |a| ensures !MatchAt(t, "$0", i) {
      if i + 2 <= |a| {
        assert t[i..i + 2] == a[i..i + 2];
        assert !MatchAt(a, "$0", i);
      } else {
        assert t[i..i + 2][1] == t[i + 1] == '$';
      }
    }
  }

  /** A `$1` after text without `$`, followed by text holding no `$0`, holds no `$0`. */
  lemma OneSlotHoldsNoZero(x: string, y: string)
    requires NoDollar(x) && NoZeroSlot(y)
    ensures NoZeroSlot(x + "$1" + y)
  {
    var t := x + "$1" + y;
    forall i | 0 <= i < |t| ensures !MatchAt(t, "$0", i) {
      if i + 2 <= |t| {
        assert t[i..i + 2][0] == t[i] && t[i..i + 2][1] == t[i + 1];
        if i < |x| {
          assert t[i] == x[i];
        } else if i == |x| {
          assert t[i + 1] == '1';
        } else if i == |x| + 1 {
          assert t[i] == '1';
        } else {
          assert t[i..i + 2] == y[i - |x| - 2..i - |x|];
          assert !MatchAt(y, "$0", i - |x| - 2);
        }
      }
    }
  }

  /** The global replace fills every `$0` slot, however many there are. */
  lemma {:induction false} ZeroSlotsFilled(segs: seq<string>, last: string, o: string)
    requires forall i :: 0 <= i < |segs| ==> NoZeroSlot(segs[i])
    requires NoZeroSlot(last)
    ensures ReplaceAll(Slotted(segs, "$0", last), "$0", o) == Slotted(segs, o, last)
  {
    if segs == [] {
      ReplaceAllWithoutMatch(last, "$0", o);
    } else {
      var rest := Slotted(segs[1..], "$0", last);
      assert forall i :: 0 <= i < |segs| - 1 ==> segs[1..][i] == segs[i + 1];
      ZeroSlotsFilled(segs[1..], last, o);
      SlotIsFirst(segs[0], rest);
      ReplaceAllSplits(segs[0], "$0", rest, o);
    }
  }

  lemma {:induction false} NoDollarSlotted(segs: seq<string>, o: string, last: string)
    requires NoDollarSegs(segs)
    requires NoDollar(o) && NoDollar(last)
    ensures NoDollar(Slotted(segs, o, last))
  {
    if segs != [] {
      NoDollarSlotted(segs[1..], o, last);
    }
  }

  lemma NoDollarNoZero(s: string)
    requires NoDollar(s)
    ensures NoZeroSlot(s)
  {
    NoDollarNoMatch(s, "", "$0");
    assert s + "" == s;
  }

  /** With `$`-free segments, every `$0` slot is filled and the `$1` after them stays. */
  lemma {:induction false} NoDollarSegsNoZero(segs: seq<string>)
    requires NoDollarSegs(segs)
    ensures forall i :: 0 <= i < |segs| ==> NoZeroSlot(segs[i])
  {
    if segs != [] {
      NoDollarNoZero(segs[0]);
      NoDollarSegsNoZero(segs[1..]);
      assert forall i :: 0 < i < |segs| ==> segs[i] == segs[1..][i - 1];
    }
  }

  lemma ZeroSlotsBeforeOne(segs: seq<string>, x: string, y: string, o: string)
    requires NoDollarSegs(segs)
    requires NoDollar(x) && NoDollar(o) && NoZeroSlot(y)
    ensures NoDollar(Slotted(segs, o, x))
    ensures ReplaceAll(Slotted(segs, "$0", x + "$1" + y), "$0", o) == Slotted(segs, o, x) + "$1" + y
  {
    NoDollarSegsNoZero(segs);
    OneSlotHoldsNoZero(x, y);
    ZeroSlotsFilled(segs, x + "$1" + y, o);
    NoDollarSlotted(segs, o, x);
    SlottedAppend(segs, o, x, "$1" + y);
    assert x + ("$1" + y) == x + "$1" + y;
    assert Slotted(segs, o, x) + ("$1" + y) == Slotted(segs, o, x) + "$1" + y;
  }

  /** A `$1` after all `$0` slots, with no other `$` before it, becomes the
      bound, and every slot the observed count (`got $0, at most $1`). */
  lemma FillOneAfterSlots(segs: seq<string>, x: string, y: string, observed: int, bound: int)
    requires NoDollarSegs(segs)
    requires NoDollar(x) && NoZeroSlot(y)
    ensures Fill(Slotted(segs, "$0", x + "$1" + y), observed, bound)
         == Slotted(segs, IntToString(observed), x + IntToString(bound) + y)
  {
    var o, n := IntToString(observed), IntToString(bound);
    NumberHasNoDollar(observed);
    ZeroSlotsBeforeOne(segs, x, y, o);
    FirstOneSlotFilled(Slotted(segs, o, x), y, n);
    SlottedAppendThree(segs, o, x, n, y);
  }

  /** Text appended after the last segment can be read as part of it. */
  lemma SlottedAppendThree(segs: seq<string>, slot: string, x: string, n: string, y: string)
    ensures Slotted(segs, slot, x) + n + y == Slotted(segs, slot, x + n + y)
  {
    SlottedAppend(segs, slot, x, n + y);
    assert x + (n + y) == x + n + y;
    assert Slotted(segs, slot, x) + (n + y) == Slotted(segs, slot, x) + n + y;
  }

  lemma ZeroSlotsAfterOne(x: string, y: string, segs: seq<string>, last: string, o: string)
    requires NoDollar(x) && NoZeroSlot(y) && NoZeroSlot(last)
    requires forall i :: 0 <= i < |segs| ==> NoZeroSlot(segs[i])
    ensures ReplaceAll(Slotted([x + "$1" + y] + segs, "$0", last), "$0", o) == x + "$1" + (y + o + Slotted(segs, o, last))
  {
    var all := [x + "$1" + y] + segs;
    OneSlotHoldsNoZero(x, y);
    assert forall i :: 0 < i < |all| ==> all[i] == segs[i - 1];
    ZeroSlotsFilled(all, last, o);
    assert all[1..] == segs;
  }

  /** A `$1` before every `$0` slot, with no `$` before it, becomes the bound,
      and every slot the observed count (`need $1, got $0`). */
  lemma FillOneBeforeSlots(x: string, y: string, segs: seq<string>, last: string, observed: int, bound: int)
    requires NoDollar(x) && NoZeroSlot(y) && NoZeroSlot(last)
    requires forall i :: 0 <= i < |segs| ==> NoZeroSlot(segs[i])
    ensures Fill(Slotted([x + "$1" + y] + segs, "$0", last), observed, bound)
         == x + IntToString(bound) + y + IntToString(observed) + Slotted(segs, IntToString(observed), last)
  {
    var o, n := IntToString(observed), IntToString(bound);
    var rest := y + o + Slotted(segs, o, last);
    ZeroSlotsAfterOne(x, y, segs, last, o);
    FirstOneSlotFilled(x, rest, n);
    assert x + n + rest == x + n + y + o + Slotted(segs, o, last);
  }

  /** Any template: every `$0` slot becomes the observed count, and then the
      first `$1` left becomes the bound. */
  lemma FillEverySlot(template: string, observed: int, bound: int)
    ensures var sp := SplitSlots(template);
      Fill(template, observed, bound) == ReplaceFirst(Slotted(sp.0, IntToString(observed), sp.1), "$1", IntToString(bound))
  {
    var sp := SplitSlots(template);
    ZeroSlotsFilled(sp.0, sp.1, IntToString(observed));
  }

  // ---- requiredArguments ----

  /** A demanded key is missing when it is not an own property or holds `undefined`. */
  predicate IsMissing(argv: Dict<Value>, key: string)
  {
    Get(argv, key) == Undefined
  }

  /** The missing keys among `keys`, in their order. */
  function MissingKeys(argv: Dict<Value>, keys: seq<string>): seq<string>
  {
    if keys == [] then []
    else
      var k := keys[|keys| - 1];
      MissingKeys(argv, keys[..|keys| - 1]) + (if IsMissing(argv, k) then [k] else [])
  }

  function MessageOf(demanded: Dict<Option<string>>, key: string): Option<string>
  {
    if key in demanded.vals then demanded.vals[key] else None
  }

  /** The distinct non-empty custom messages of `missing`, in order of first appearance. */
  function Guidance(missing: seq<string>, demanded: Dict<Option<string>>): seq<string>
  {
    if missing == [] then []
    else
      var g := Guidance(missing[..|missing| - 1], demanded);
      match MessageOf(demanded, missing[|missing| - 1])
      case Some(m) => if m != "" && m !in g then g + [m] else g
      case None => g
  }

  lemma {:induction false} MissingKeysMembers(argv: Dict<Value>, keys: seq<string>)
    ensures forall k :: k in MissingKeys(argv, keys) <==> k in keys && IsMissing(argv, k)
    ensures Distinct(keys) ==> Distinct(MissingKeys(argv, keys))
  {
    if keys != [] {
      var init := keys[..|keys| - 1];
      MissingKeysMembers(argv, init);
      assert keys == init + [keys[|keys| - 1]];
    }
  }

  /** The guidance lists each non-empty message of a missing key exactly once. */
  lemma {:induction false} GuidanceMembers(missing: seq<string>, demanded: Dict<Option<string>>)
    ensures Distinct(Guidance(missing, demanded))
    ensures forall m :: m in Guidance(missing, demanded) <==>
      m != "" && exists k :: k in missing && MessageOf(demanded, k) == Some(m)
  {
    if missing != [] {
      var init := missing[..|missing| - 1];
      var last := missing[|missing| - 1];
      GuidanceMembers(init, demanded);
      assert missing == init + [last];
      forall m | m != "" && (exists k :: k in missing && MessageOf(demanded, k) == Some(m))
        ensures m in Guidance(missing, demanded)
      {
        var k :| k in missing && MessageOf(demanded, k) == Some(m);
        if k != last { assert k in init; }
      }
    }
  }

  lemma MissingIffSomeMissing(argv: Dict<Value>, keys: seq<string>)
    ensures MissingKeys(argv, keys) != [] <==> exists k :: k in keys && IsMissing(argv, k)
  {
    MissingKeysMembers(argv, keys);
    var m := MissingKeys(argv, keys);
    if m != [] {
      assert m[0] in m;
    }
  }

  /** `requiredArguments`: at most one failure, exactly when some demanded key
      is missing; it names every missing key in demand order and carries the
      distinct custom messages of those keys. */
  method RequiredArguments(argv: Dict<Value>, demanded: Dict<Option<string>>) returns (fails: seq<Failure>)
    ensures |fails| <= 1
    ensures fails != [] <==> exists k :: k in demanded.keys && IsMissing(argv, k)
    ensures fails != [] ==>
      var missing := MissingKeys(argv, demanded.keys);
      fails == [MissingRequired(missing, Guidance(missing, demanded))]
  {
    var missing := CollectMissing(argv, demanded.keys);
    MissingIffSomeMissing(argv, demanded.keys);
    fails := [];
    if missing != [] {
      var customMsgs := CollectGuidance(missing, demanded);
      fails := [MissingRequired(missing, customMsgs)];
    }
  }

  method CollectMissing(argv: Dict<Value>, keys: seq<string>) returns (missing: seq<string>)
    ensures missing == MissingKeys(argv, keys)
  {
    missing := [];
    var i := 0;
    while i < |keys|
      invariant 0 <= i <= |keys|
      invariant missing == MissingKeys(argv, keys[..i])
    {
      assert keys[..i + 1][..i] == keys[..i];
      var key := keys[i];
      if key !in argv.vals || argv.vals[key] == Undefined {
        missing := missing + [key];
      }
      i := i + 1;
    }
    assert keys[..i] == keys;
  }

  method CollectGuidance(missing: seq<string>, demanded: Dict<Option<string>>) returns (customMsgs: seq<string>)
    ensures customMsgs == Guidance(missing, demanded)
  {
    customMsgs := [];
    var j := 0;
    while j < |missing|
      invariant 0 <= j <= |missing|
      invariant customMsgs == Guidance(missing[..j], demanded)
    {
      assert missing[..j + 1][..j] == missing[..j];
      var msg := MessageOf(demanded, missing[j]);
      if msg.Some? && msg.value != "" && msg.value !in customMsgs {
        customMsgs := customMsgs + [msg.value];
      }
      j := j + 1;
    }
    assert missing[..j] == missing;
  }
}
