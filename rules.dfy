/** What the registry evaluators `implications`, `conflicting` and
    `customChecks` report, as functions of what the registries hold
    (lib/validation.ts:236-362), and how `implies`/`conflicts` flatten their
    arguments (lib/validation.ts:257-276, 329-347). */
module Rules {
  import opened Values
  import opened Conditions
  import opened Reports
  import opened Views

  // ---- arguments of implies / conflicts ----

  /** An argument of `implies` or `conflicts`: one target, `undefined`, or an
      array of arguments, each handled as if passed on its own. */
  datatype Arg<T> = Given(value: T) | Absent | List(elems: seq<Arg<T>>)

  /** The targets named by an argument, in order, `undefined` skipped. */
  function Leaves<T>(arg: Arg<T>): seq<T>
  {
    match arg
    case Given(v) => [v]
    case Absent => []
    case List(elems) => LeavesAll(elems)
  }

  function LeavesAll<T>(elems: seq<Arg<T>>): seq<T>
  {
    if elems == [] then [] else Leaves(elems[0]) + LeavesAll(elems[1..])
  }

  predicate HasAbsent<T>(arg: Arg<T>)
  {
    match arg
    case Given(_) => false
    case Absent => true
    case List(elems) => HasAbsentAll(elems)
  }

  predicate HasAbsentAll<T>(elems: seq<Arg<T>>)
  {
    elems != [] && (HasAbsent(elems[0]) || HasAbsentAll(elems[1..]))
  }

  /** What one `implies(key, value)` appends, and whether it ran to the end. */
  datatype Pushes = Pushes(items: seq<KeyOrPos>, complete: bool)

  /** `implies` appends each target in turn; an `undefined` one fails the
      assertion and stops it, after the targets before it were appended. */
  function ImpliedPushes(arg: Arg<KeyOrPos>): Pushes
  {
    match arg
    case Given(v) => Pushes([v], true)
    case Absent => Pushes([], false)
    case List(elems) => ImpliedPushesAll(elems)
  }

  function ImpliedPushesAll(elems: seq<Arg<KeyOrPos>>): Pushes
  {
    if elems == [] then Pushes([], true)
    else
      var p := ImpliedPushes(elems[0]);
      if !p.complete then p
      else
        var q := ImpliedPushesAll(elems[1..]);
        Pushes(p.items + q.items, q.complete)
  }

  /** `implies` runs to the end exactly when no target is `undefined`, and then
      appends every target in order; otherwise it appends a prefix of them. */
  lemma {:induction false} ImpliedPushesSpec(arg: Arg<KeyOrPos>)
    ensures ImpliedPushes(arg).complete <==> !HasAbsent(arg)
    ensures ImpliedPushes(arg).complete ==> ImpliedPushes(arg).items == Leaves(arg)
    ensures ImpliedPushes(arg).items <= Leaves(arg)
  {
    match arg
    case Given(_) =>
    case Absent =>
    case List(elems) => ImpliedPushesAllSpec(elems);
  }

  lemma {:induction false} ImpliedPushesAllSpec(elems: seq<Arg<KeyOrPos>>)
    ensures ImpliedPushesAll(elems).complete <==> !HasAbsentAll(elems)
    ensures ImpliedPushesAll(elems).complete ==> ImpliedPushesAll(elems).items == LeavesAll(elems)
    ensures ImpliedPushesAll(elems).items <= LeavesAll(elems)
  {
    if elems != [] {
      ImpliedPushesSpec(elems[0]);
      ImpliedPushesAllSpec(elems[1..]);
      var p, q := ImpliedPushes(elems[0]), ImpliedPushesAll(elems[1..]);
      if p.complete {
        assert p.items == Leaves(elems[0]);
      }
    }
  }

  /** `conflicts` appends each target in turn; `undefined` is appended as is. */
  function ConflictPushes(arg: Arg<string>): seq<Option<string>>
  {
    match arg
    case Given(s) => [Some(s)]
    case Absent => [None]
    case List(elems) => ConflictPushesAll(elems)
  }

  function ConflictPushesAll(elems: seq<Arg<string>>): seq<Option<string>>
  {
    if elems == [] then [] else ConflictPushes(elems[0]) + ConflictPushesAll(elems[1..])
  }

  /** The named entries of a pushed list, in order, `undefined` skipped. */
  function Somes(pushes: seq<Option<string>>): seq<string>
  {
    if pushes == [] then []
    else (if pushes[0].Some? then [pushes[0].value] else []) + Somes(pushes[1..])
  }

  lemma {:induction false} SomesAppend(a: seq<Option<string>>, b: seq<Option<string>>)
    ensures Somes(a + b) == Somes(a) + Somes(b)
  {
    if a != [] {
      SomesAppend(a[1..], b);
      assert (a + b)[1..] == a[1..] + b;
    } else {
      assert a + b == b;
    }
  }

  /** Every named target is appended once, in order, and `undefined` appears
      exactly when some target is `undefined`. */
  lemma {:induction false} ConflictPushesSpec(arg: Arg<string>)
    ensures Somes(ConflictPushes(arg)) == Leaves(arg)
    ensures forall s :: Some(s) in ConflictPushes(arg) <==> s in Leaves(arg)
    ensures None in ConflictPushes(arg) <==> HasAbsent(arg)
  {
    match arg
    case Given(v) =>
      assert Somes([Some(v)]) == [v] + Somes([]);
    case Absent =>
      assert Somes([None]) == Somes([]);
    case List(elems) => ConflictPushesAllSpec(elems);
  }

  lemma {:induction false} ConflictPushesAllSpec(elems: seq<Arg<string>>)
    ensures Somes(ConflictPushesAll(elems)) == LeavesAll(elems)
    ensures forall s :: Some(s) in ConflictPushesAll(elems) <==> s in LeavesAll(elems)
    ensures None in ConflictPushesAll(elems) <==> HasAbsentAll(elems)
  {
    if elems != [] {
      ConflictPushesSpec(elems[0]);
      ConflictPushesAllSpec(elems[1..]);
      SomesAppend(ConflictPushes(elems[0]), ConflictPushesAll(elems[1..]));
    }
  }

  // ---- implications ----

  /** An edge `key -> target` is violated when its source holds and its target does not. */
  predicate Violates(argv: Dict<Value>, key: string, target: KeyOrPos)
  {
    KeyExists(argv, Name(key)) && !KeyExists(argv, target)
  }

  /** The violated edges out of `key`, in registration order. */
  function ViolatedOf(argv: Dict<Value>, key: string, targets: seq<KeyOrPos>): seq<(string, KeyOrPos)>
  {
    if targets == [] then []
    else
      var t := targets[|targets| - 1];
      ViolatedOf(argv, key, targets[..|targets| - 1]) + (if Violates(argv, key, t) then [(key, t)] else [])
  }

  /** The violated edges of the whole registry, key by key. */
  function ViolatedEdges(argv: Dict<Value>, view: View<KeyOrPos>): seq<(string, KeyOrPos)>
  {
    if view == [] then []
    else
      var last := view[|view| - 1];
      ViolatedEdges(argv, view[..|view| - 1]) + ViolatedOf(argv, last.0, last.1)
  }

  lemma {:induction false} ViolatedOfMembers(argv: Dict<Value>, key: string, targets: seq<KeyOrPos>)
    ensures forall e :: e in ViolatedOf(argv, key, targets) <==> e.0 == key && e.1 in targets && Violates(argv, key, e.1)
  {
    if targets != [] {
      ViolatedOfMembers(argv, key, targets[..|targets| - 1]);
      assert targets == targets[..|targets| - 1] + [targets[|targets| - 1]];
    }
  }

  /** `target` is registered under `key`. */
  predicate Registered(view: View<KeyOrPos>, key: string, target: KeyOrPos)
  {
    exists i :: 0 <= i < |view| && view[i].0 == key && target in view[i].1
  }

  lemma RegisteredSnoc(view: View<KeyOrPos>, key: string, target: KeyOrPos)
    requires view != []
    ensures Registered(view, key, target) <==>
      Registered(view[..|view| - 1], key, target) || (view[|view| - 1].0 == key && target in view[|view| - 1].1)
  {
    var init := view[..|view| - 1];
    if Registered(view, key, target) {
      var i :| 0 <= i < |view| && view[i].0 == key && target in view[i].1;
      if i < |init| {
        assert init[i] == view[i];
      }
    }
    if Registered(init, key, target) {
      var i :| 0 <= i < |init| && init[i].0 == key && target in init[i].1;
      assert view[i] == init[i];
    }
  }

  /** An edge is listed exactly when it is registered and violated. */
  lemma {:induction false} ViolatedEdgesMembers(argv: Dict<Value>, view: View<KeyOrPos>)
    ensures forall e :: e in ViolatedEdges(argv, view) <==> Registered(view, e.0, e.1) && Violates(argv, e.0, e.1)
  {
    if view != [] {
      var init, last := view[..|view| - 1], view[|view| - 1];
      ViolatedEdgesMembers(argv, init);
      ViolatedOfMembers(argv, last.0, last.1);
      forall e ensures e in ViolatedEdges(argv, view) <==> Registered(view, e.0, e.1) && Violates(argv, e.0, e.1) {
        RegisteredSnoc(view, e.0, e.1);
      }
    }
  }

  // ---- conflicting ----

  /** `key` and its registered conflict `other` clash: `other` is a non-empty
      name and both are defined in the argument set. */
  predicate Clashes(argv: Dict<Value>, key: string, other: Option<string>)
  {
    other.Some? && other.value != "" && Get(argv, key) != Undefined && Get(argv, other.value) != Undefined
  }

  /** One failure per clashing registered conflict of `key`, in registration order. */
  function ClashesOf(argv: Dict<Value>, key: string, others: seq<Option<string>>): seq<Failure>
  {
    if others == [] then []
    else
      var o := others[|others| - 1];
      ClashesOf(argv, key, others[..|others| - 1])
        + (if Clashes(argv, key, o) then [MutuallyExclusive(key, o.value)] else [])
  }

  /** The failures of `conflicting`: argument keys in order, each with its clashes. */
  function ConflictFailures(argv: Dict<Value>, keys: seq<string>, view: View<Option<string>>): seq<Failure>
  {
    if keys == [] then []
    else
      var k := keys[|keys| - 1];
      ConflictFailures(argv, keys[..|keys| - 1], view) + ClashesOf(argv, k, ListOf(view, k))
  }

  lemma {:induction false} ClashesOfMembers(argv: Dict<Value>, key: string, others: seq<Option<string>>)
    ensures forall f :: f in ClashesOf(argv, key, others) <==>
      f.MutuallyExclusive? && f.key == key && Some(f.other) in others && Clashes(argv, key, Some(f.other))
    ensures |ClashesOf(argv, key, others)| <= |others|
  {
    if others != [] {
      ClashesOfMembers(argv, key, others[..|others| - 1]);
      assert others == others[..|others| - 1] + [others[|others| - 1]];
    }
  }

  /** A failure is reported exactly for an argument key and a registered,
      non-empty conflict of it when both are defined; so a key whose value is
      `undefined` never triggers. */
  lemma {:induction false} ConflictFailuresMembers(argv: Dict<Value>, keys: seq<string>, view: View<Option<string>>)
    ensures forall f :: f in ConflictFailures(argv, keys, view) <==>
      f.MutuallyExclusive? && f.key in keys && Some(f.other) in ListOf(view, f.key)
      && Clashes(argv, f.key, Some(f.other))
  {
    if keys != [] {
      var init, k := keys[..|keys| - 1], keys[|keys| - 1];
      ConflictFailuresMembers(argv, init, view);
      ClashesOfMembers(argv, k, ListOf(view, k));
      assert keys == init + [k];
    }
  }

  // ---- customChecks ----

  /** What a user check did, as far as the engine can tell. */
  datatype CheckOutcome =
    | Returned(result: Value)                 // returned a value; a string is a message
    | ReturnedError(shown: string)            // returned an Error, shown by its `toString()`
    | Threw(message: string, shown: string)   // threw a value; its `message`, and the value itself as text
    | ThrewNothing                            // threw `undefined` or `null`, which has no `message` to read

  /** A registered check: the predicate, its source text (`func.toString()`) and whether it is global. */
  datatype CustomCheck = CustomCheck(
    func: (Dict<Value>, map<string, seq<string>>) -> CheckOutcome,
    source: string,
    global: bool)

  /** A check passes when it returns a truthy value that is not a string. */
  predicate Passes(c: CustomCheck, argv: Dict<Value>, aliases: map<string, seq<string>>)
  {
    var outcome := c.func(argv, aliases);
    outcome.Returned? && Truthy(outcome.result) && !outcome.result.Str?
  }

  /** A check that throws `undefined` or `null` makes the handler's read of
      `err.message` throw in turn, so `customChecks` itself stops there. */
  predicate Aborts(c: CustomCheck, argv: Dict<Value>, aliases: map<string, seq<string>>)
  {
    c.func(argv, aliases).ThrewNothing?
  }

  /** No check before index `n` aborts, so the check at `n` runs. */
  predicate Reached(checks: seq<CustomCheck>, n: int, argv: Dict<Value>, aliases: map<string, seq<string>>)
  {
    forall j :: 0 <= j < n && j < |checks| ==> !Aborts(checks[j], argv, aliases)
  }

  /** The failure one check causes: none when it passes or aborts, otherwise exactly one. */
  function OutcomeFailures(c: CustomCheck, argv: Dict<Value>, aliases: map<string, seq<string>>): (fails: seq<Failure>)
    ensures |fails| == if Passes(c, argv, aliases) || Aborts(c, argv, aliases) then 0 else 1
  {
    match c.func(argv, aliases)
    case Returned(v) =>
      if !Truthy(v) then [CheckFailed(c.source)]
      else if v.Str? then [CheckMessage(v.s)]
      else []
    case ReturnedError(shown) => [CheckMessage(shown)]
    case Threw(message, shown) => [CheckMessage(if message != "" then message else shown)]
    case ThrewNothing => []
  }

  /** The failures of the checks that run, in registration order: every check
      up to and including the first one that aborts. */
  function CheckFailures(checks: seq<CustomCheck>, argv: Dict<Value>, aliases: map<string, seq<string>>): seq<Failure>
  {
    if checks == [] then []
    else
      var init := checks[..|checks| - 1];
      if Reached(init, |init|, argv, aliases)
      then CheckFailures(init, argv, aliases) + OutcomeFailures(checks[|checks| - 1], argv, aliases)
      else CheckFailures(init, argv, aliases)
  }

  /** One more check: it runs, and adds its failure, exactly when no earlier check aborted. */
  lemma CheckFailuresStep(checks: seq<CustomCheck>, i: nat, argv: Dict<Value>, aliases: map<string, seq<string>>)
    requires i < |checks|
    ensures CheckFailures(checks[..i + 1], argv, aliases) == CheckFailures(checks[..i], argv, aliases)
      + (if Reached(checks[..i], i, argv, aliases) then OutcomeFailures(checks[i], argv, aliases) else [])
    ensures Reached(checks[..i + 1], i + 1, argv, aliases)
      <==> Reached(checks[..i], i, argv, aliases) && !Aborts(checks[i], argv, aliases)
  {
    assert checks[..i + 1][..i] == checks[..i];
    assert checks[..i + 1][i] == checks[i];
  }

  /** Reaching the end of `a + b` is reaching the end of `a` and then of `b`. */
  lemma ReachedSplit(a: seq<CustomCheck>, b: seq<CustomCheck>, argv: Dict<Value>, aliases: map<string, seq<string>>)
    ensures Reached(a + b, |a + b|, argv, aliases) <==> Reached(a, |a|, argv, aliases) && Reached(b, |b|, argv, aliases)
  {
    if Reached(a, |a|, argv, aliases) && Reached(b, |b|, argv, aliases) {
      forall j | 0 <= j < |a + b| ensures !Aborts((a + b)[j], argv, aliases) {
        if j >= |a| {
          assert (a + b)[j] == b[j - |a|];
        }
      }
    }
    if Reached(a + b, |a + b|, argv, aliases) {
      forall j | 0 <= j < |a| ensures !Aborts(a[j], argv, aliases) {
        assert (a + b)[j] == a[j];
      }
      forall j | 0 <= j < |b| ensures !Aborts(b[j], argv, aliases) {
        assert (a + b)[|a| + j] == b[j];
      }
    }
  }

  /** A failing check never stops the later ones, an aborting one stops them
      all: the failures of two runs of checks are those of the first run, then,
      unless it aborted, those of the second. */
  lemma {:induction false} CheckFailuresSplit(a: seq<CustomCheck>, b: seq<CustomCheck>,
                                              argv: Dict<Value>, aliases: map<string, seq<string>>)
    ensures CheckFailures(a + b, argv, aliases) == CheckFailures(a, argv, aliases)
      + (if Reached(a, |a|, argv, aliases) then CheckFailures(b, argv, aliases) else [])
  {
    if b == [] {
      assert a + b == a;
    } else {
      var init, last := b[..|b| - 1], b[|b| - 1];
      CheckFailuresSplit(a, init, argv, aliases);
      assert (a + b)[..|a + b| - 1] == a + init;
      assert (a + b)[|a + b| - 1] == last;
      ReachedSplit(a, init, argv, aliases);
    }
  }

  /** Nothing is reported exactly when every check that runs passes or aborts,
      and each check reports at most once. */
  lemma {:induction false} CheckFailuresNone(checks: seq<CustomCheck>, argv: Dict<Value>, aliases: map<string, seq<string>>)
    ensures CheckFailures(checks, argv, aliases) == [] <==>
      forall i :: 0 <= i < |checks| && Reached(checks, i, argv, aliases) ==>
        Passes(checks[i], argv, aliases) || Aborts(checks[i], argv, aliases)
    ensures |CheckFailures(checks, argv, aliases)| <= |checks|
  {
    if checks != [] {
      CheckFailuresNone(checks[..|checks| - 1], argv, aliases);
      RanCleanSnoc(checks, argv, aliases);
    }
  }

  /** Every check that ran in `checks` passed or aborted exactly when that holds
      of all but the last, and of the last if it ran. */
  lemma RanCleanSnoc(checks: seq<CustomCheck>, argv: Dict<Value>, aliases: map<string, seq<string>>)
    requires checks != []
    ensures var init, last := checks[..|checks| - 1], checks[|checks| - 1];
      (forall i :: 0 <= i < |checks| && Reached(checks, i, argv, aliases) ==>
        Passes(checks[i], argv, aliases) || Aborts(checks[i], argv, aliases))
      <==>
      (forall i :: 0 <= i < |init| && Reached(init, i, argv, aliases) ==>
        Passes(init[i], argv, aliases) || Aborts(init[i], argv, aliases))
      && (Reached(init, |init|, argv, aliases) ==> Passes(last, argv, aliases) || Aborts(last, argv, aliases))
  {
    var init := checks[..|checks| - 1];
    forall i | 0 <= i <= |init| ensures Reached(init, i, argv, aliases) == Reached(checks, i, argv, aliases) {
      assert forall j :: 0 <= j < i ==> init[j] == checks[j];
    }
    assert forall i :: 0 <= i < |init| ==> init[i] == checks[i];
  }
}
