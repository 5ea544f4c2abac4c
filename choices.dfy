/** The choice evaluator `limitedChoices` (lib/validation.ts:191-225). */
module Choices {
  import opened Values
  import opened Reports

  /** `choices.indexOf(v) !== -1`. */
  predicate Among(v: Value, choices: seq<Value>)
  {
    exists i :: 0 <= i < |choices| && StrictEquals(choices[i], v)
  }

  /** A value outside its key's choices; `undefined` is exempt. */
  predicate Offends(v: Value, choices: seq<Value>)
  {
    !Among(v, choices) && v != Undefined
  }

  predicate SomeOffends(values: seq<Value>, choices: seq<Value>)
  {
    exists v :: v in values && Offends(v, choices)
  }

  /** What accumulates in `invalid[key]`: each offending value, concatenated
      (so an offending array contributes its elements). */
  function Offending(values: seq<Value>, choices: seq<Value>): seq<Value>
  {
    if values == [] then []
    else
      var v := values[|values| - 1];
      Offending(values[..|values| - 1], choices) + (if Offends(v, choices) then Spread(v) else [])
  }

  /** A key the evaluator inspects: not reserved, and restricted to choices. */
  predicate IsChoiceKey(key: string, choices: map<string, seq<Value>>)
  {
    !IsSpecialKey(key) && key in choices
  }

  /** The entries of the aggregated failure, one per inspected key with an offending value, in key order. */
  function InvalidEntries(keys: seq<string>, argv: Dict<Value>, choices: map<string, seq<Value>>): seq<InvalidEntry>
  {
    if keys == [] then []
    else
      var k := keys[|keys| - 1];
      InvalidEntries(keys[..|keys| - 1], argv, choices)
        + (if IsChoiceKey(k, choices) && SomeOffends(Spread(Get(argv, k)), choices[k])
           then [InvalidEntry(k, Offending(Spread(Get(argv, k)), choices[k]), choices[k])]
           else [])
  }

  /** Each entry belongs to an inspected key with an offending value, carries
      that key's offending values and its choices; every such key has one. */
  lemma {:induction false} InvalidEntriesMembers(keys: seq<string>, argv: Dict<Value>, choices: map<string, seq<Value>>)
    ensures forall e :: e in InvalidEntries(keys, argv, choices) ==>
      && e.key in keys && IsChoiceKey(e.key, choices)
      && SomeOffends(Spread(Get(argv, e.key)), choices[e.key])
      && e.given == Offending(Spread(Get(argv, e.key)), choices[e.key])
      && e.choices == choices[e.key]
    ensures forall k :: k in keys && IsChoiceKey(k, choices) && SomeOffends(Spread(Get(argv, k)), choices[k]) ==>
      InvalidEntry(k, Offending(Spread(Get(argv, k)), choices[k]), choices[k]) in InvalidEntries(keys, argv, choices)
  {
    if keys != [] {
      InvalidEntriesMembers(keys[..|keys| - 1], argv, choices);
      assert keys == keys[..|keys| - 1] + [keys[|keys| - 1]];
    }
  }

  /** When no value is itself an array, the listed values are exactly the offending ones, in order. */
  lemma {:induction false} OffendingListsOnlyOffenders(values: seq<Value>, choices: seq<Value>)
    requires forall v :: v in values ==> !v.Arr?
    ensures forall x :: x in Offending(values, choices) <==> x in values && Offends(x, choices)
    ensures |Offending(values, choices)| <= |values|
  {
    if values != [] {
      var init := values[..|values| - 1];
      assert values == init + [values[|values| - 1]];
      OffendingListsOnlyOffenders(init, choices);
    }
  }

  method OffendingOf(values: seq<Value>, choices: seq<Value>) returns (bad: seq<Value>, seen: bool)
    ensures bad == Offending(values, choices)
    ensures seen == SomeOffends(values, choices)
  {
    bad, seen := [], false;
    var j := 0;
    while j < |values|
      invariant 0 <= j <= |values|
      invariant bad == Offending(values[..j], choices)
      invariant seen == SomeOffends(values[..j], choices)
    {
      assert values[..j + 1] == values[..j] + [values[j]];
      var value := values[j];
      var found := exists i :: 0 <= i < |choices| && StrictEquals(choices[i], value);
      if !found && value != Undefined {
        bad := bad + Spread(value);
        seen := true;
      }
      j := j + 1;
    }
    assert values[..j] == values;
  }

  /** `limitedChoices`: nothing is reported when no choices are declared or
      every non-`undefined` value of every inspected key is among its choices;
      otherwise one failure lists, per offending key in key order, only the
      offending values and the key's choices. */
  method LimitedChoices(argv: Dict<Value>, choices: map<string, seq<Value>>) returns (fails: seq<Failure>)
    ensures |fails| <= 1
    ensures fails == [] <==>
      |choices| == 0
      || forall k :: k in argv.keys && IsChoiceKey(k, choices) ==> !SomeOffends(Spread(Get(argv, k)), choices[k])
    ensures fails != [] ==> fails == [InvalidValues(InvalidEntries(argv.keys, argv, choices))]
  {
    if |choices| == 0 {
      return [];
    }
    var keys := argv.keys;
    var entries: seq<InvalidEntry> := [];
    var i := 0;
    while i < |keys|
      invariant 0 <= i <= |keys|
      invariant entries == InvalidEntries(keys[..i], argv, choices)
    {
      assert keys[..i + 1][..i] == keys[..i];
      var key := keys[i];
      if !IsSpecialKey(key) && key in choices {
        var bad, seen := OffendingOf(Spread(Get(argv, key)), choices[key]);
        if seen {
          entries := entries + [InvalidEntry(key, bad, choices[key])];
        }
      }
      i := i + 1;
    }
    assert keys[..i] == keys;
    InvalidEntriesMembers(keys, argv, choices);
    if |entries| == 0 {
      forall k | k in keys && IsChoiceKey(k, choices) ensures !SomeOffends(Spread(Get(argv, k)), choices[k]) {
        assert InvalidEntry(k, Offending(Spread(Get(argv, k)), choices[k]), choices[k]) !in entries;
      }
      return [];
    }
    assert entries[0] in entries;
    fails := [InvalidValues(entries)];
  }
}
