/** The rule registries of the validation engine (lib/validation.ts:227-403):
    the dictionaries `implied` and `conflicting`, the list `checks`, and the
    stack `frozens` of snapshots. They are heap objects, as in the source: a
    snapshot holds references, registrations append to the lists in place, and
    `reset` builds new containers that share the lists of the keys it keeps. */
module Registries {
  import opened Values
  import opened Conditions
  import opened Views
  import opened Reports
  import opened Rules

  /** A list held by a dictionary registry; several dictionaries may hold the same one. */
  class Bucket<T> {
    var items: seq<T>

    constructor (items: seq<T>)
      ensures this.items == items
    {
      this.items := items;
    }
  }

  datatype Entry<T> = Entry(key: string, bucket: Bucket<T>)

  function BucketsOf<T>(entries: seq<Entry<T>>): set<Bucket<T>>
  {
    set e | e in entries :: e.bucket
  }

  /** What the entries hold in the current heap. */
  function ViewOf<T>(entries: seq<Entry<T>>): (view: View<T>)
    reads BucketsOf(entries)
    ensures |view| == |entries|
    ensures forall i :: 0 <= i < |entries| ==> view[i] == (entries[i].key, entries[i].bucket.items)
  {
    seq(|entries|, i requires 0 <= i < |entries| reads BucketsOf(entries) => (entries[i].key, entries[i].bucket.items))
  }

  /** Keys are distinct, as in a JavaScript object, and no two keys share a list. */
  predicate WellFormed<T>(entries: seq<Entry<T>>)
  {
    forall i, j :: 0 <= i < j < |entries| ==> entries[i].key != entries[j].key && entries[i].bucket != entries[j].bucket
  }

  /** `objFilter` on the entries: the same entries, and so the same lists, minus the local keys. */
  function KeepEntries<T>(entries: seq<Entry<T>>, local: set<string>): seq<Entry<T>>
  {
    if entries == [] then []
    else (if entries[0].key in local then [] else [entries[0]]) + KeepEntries(entries[1..], local)
  }

  /** The filter keeps entries of the original, none with a local key, and every entry with a non-local key. */
  lemma {:induction false} KeepEntriesMembers<T>(entries: seq<Entry<T>>, local: set<string>)
    ensures forall i :: 0 <= i < |KeepEntries(entries, local)| ==>
      KeepEntries(entries, local)[i] in entries && KeepEntries(entries, local)[i].key !in local
    ensures forall i :: 0 <= i < |entries| && entries[i].key !in local ==> entries[i] in KeepEntries(entries, local)
  {
    if entries != [] {
      var tail := KeepEntries(entries[1..], local);
      KeepEntriesMembers(entries[1..], local);
      var r := KeepEntries(entries, local);
      if entries[0].key !in local {
        assert r == [entries[0]] + tail;
        forall i | 0 <= i < |r| ensures r[i] in entries && r[i].key !in local {
          if i > 0 {
            assert r[i] == tail[i - 1];
            assert tail[i - 1] in entries[1..];
          }
        }
        forall i | 0 <= i < |entries| && entries[i].key !in local ensures entries[i] in r {
          if i > 0 {
            assert entries[i] == entries[1..][i - 1];
          }
        }
      } else {
        assert r == tail;
        forall i | 0 <= i < |r| ensures r[i] in entries && r[i].key !in local {
          assert r[i] in entries[1..];
        }
        forall i | 0 <= i < |entries| && entries[i].key !in local ensures entries[i] in r {
          assert entries[i] == entries[1..][i - 1];
        }
      }
    }
  }

  /** The filter keeps keys distinct and lists unshared. */
  lemma {:induction false} KeepEntriesWellFormed<T>(entries: seq<Entry<T>>, local: set<string>)
    requires WellFormed(entries)
    ensures WellFormed(KeepEntries(entries, local))
  {
    if entries != [] {
      var tail := KeepEntries(entries[1..], local);
      KeepEntriesWellFormed(entries[1..], local);
      KeepEntriesMembers(entries[1..], local);
      var r := KeepEntries(entries, local);
      if entries[0].key !in local {
        assert r == [entries[0]] + tail;
        forall i, j | 0 <= i < j < |r| ensures r[i].key != r[j].key && r[i].bucket != r[j].bucket {
          assert r[j] == tail[j - 1];
          var k :| 0 <= k < |entries[1..]| && entries[1..][k] == r[j];
          assert r[j] == entries[k + 1];
          if i > 0 {
            assert r[i] == tail[i - 1];
          }
        }
      } else {
        assert r == tail;
      }
    }
  }

  lemma ViewOfCons<T>(e: Entry<T>, rest: seq<Entry<T>>)
    ensures ViewOf([e] + rest) == [(e.key, e.bucket.items)] + ViewOf(rest)
  {
    var l, r := ViewOf([e] + rest), [(e.key, e.bucket.items)] + ViewOf(rest);
    forall i | 0 <= i < |l| ensures l[i] == r[i] {
      if i > 0 {
        assert ([e] + rest)[i] == rest[i - 1];
      }
    }
  }

  /** The view of the kept entries is the kept part of the view. */
  lemma {:induction false} KeepEntriesView<T>(entries: seq<Entry<T>>, local: set<string>)
    ensures ViewOf(KeepEntries(entries, local)) == Keep(ViewOf(entries), local)
  {
    if entries != [] {
      var e, tail := entries[0], entries[1..];
      KeepEntriesView(tail, local);
      ViewOfCons(e, tail);
      assert [e] + tail == entries;
      var vw := ViewOf(entries);
      assert vw[1..] == ViewOf(tail);
      if e.key !in local {
        ViewOfCons(e, KeepEntries(tail, local));
      } else {
        assert KeepEntries(entries, local) == KeepEntries(tail, local);
      }
    }
  }

  /** A dictionary registry: a JavaScript object from keys to lists. */
  class Table<T> {
    var entries: seq<Entry<T>>

    constructor ()
      ensures entries == []
    {
      entries := [];
    }

    constructor From(entries: seq<Entry<T>>)
      ensures this.entries == entries
    {
      this.entries := entries;
    }

    ghost function Buckets(): set<Bucket<T>>
      reads this
    {
      BucketsOf(entries)
    }

    ghost predicate Valid()
      reads this
    {
      WellFormed(entries)
    }

    function View(): View<T>
      reads this, Buckets()
    {
      ViewOf(entries)
    }

    /** One registration: the list under `key` is created at the end when
        absent, then `items` are appended to it in place. */
    method Append(key: string, items: seq<T>)
      requires Valid()
      modifies this, Buckets()
      ensures Valid()
      ensures View() == Register(old(View()), key, items)
      ensures key in KeysOf(old(View())) ==> entries == old(entries)
      ensures key !in KeysOf(old(View())) ==>
        && |entries| == |old(entries)| + 1 && entries[..|old(entries)|] == old(entries)
        && entries[|old(entries)|].key == key && fresh(entries[|old(entries)|].bucket)
      ensures forall i :: 0 <= i < |old(entries)| ==>
        old(entries)[i].bucket.items == old(entries[i].bucket.items) + (if old(entries)[i].key == key then items else [])
      ensures forall b :: b in Buckets() ==> b in old(Buckets()) || fresh(b)
    {
      ghost var before := View();
      KeysOfAt(before);
      var i := FindKey(entries, key);
      if i < |entries| {
        var b := entries[i].bucket;
        b.items := b.items + items;
        RegisterPresent(before, key, items, i);
        assert key in KeysOf(before);
        forall j | 0 <= j < |entries| ensures entries[j].bucket.items == old(entries[j].bucket.items) + (if entries[j].key == key then items else []) {
        }
      } else {
        var b := new Bucket(items);
        entries := entries + [Entry(key, b)];
        RegisterAbsent(before, key, items);
        assert View() == before + [(key, items)];
      }
    }
  }

  /** The position of `key` among the entries, or their length when it is absent. */
  method FindKey<T>(entries: seq<Entry<T>>, key: string) returns (i: nat)
    ensures i <= |entries|
    ensures forall j :: 0 <= j < i ==> entries[j].key != key
    ensures i < |entries| ==> entries[i].key == key
  {
    i := 0;
    while i < |entries| && entries[i].key != key
      invariant 0 <= i <= |entries|
      invariant forall j :: 0 <= j < i ==> entries[j].key != key
    {
      i := i + 1;
    }
  }

  /** The list of custom checks. */
  class CheckList {
    var items: seq<CustomCheck>

    constructor (items: seq<CustomCheck>)
      ensures this.items == items
    {
      this.items := items;
    }
  }

  /** `checks.filter(c => c.global)`. */
  function Globals(checks: seq<CustomCheck>): seq<CustomCheck>
  {
    if checks == [] then []
    else Globals(checks[..|checks| - 1]) + (if checks[|checks| - 1].global then [checks[|checks| - 1]] else [])
  }

  /** The filter keeps exactly the global checks: all of them when every check
      is global, none when none is. */
  lemma GlobalsSpec(checks: seq<CustomCheck>)
    ensures forall i :: 0 <= i < |Globals(checks)| ==> Globals(checks)[i].global
    ensures |Globals(checks)| <= |checks|
    ensures (forall i :: 0 <= i < |checks| ==> checks[i].global) ==> Globals(checks) == checks
    ensures (forall i :: 0 <= i < |checks| ==> !checks[i].global) ==> Globals(checks) == []
    ensures forall c :: c in Globals(checks) <==> c in checks && c.global
  {
    GlobalsShape(checks);
    GlobalsMembers(checks);
  }

  lemma {:induction false} GlobalsShape(checks: seq<CustomCheck>)
    ensures forall i :: 0 <= i < |Globals(checks)| ==> Globals(checks)[i].global
    ensures |Globals(checks)| <= |checks|
    ensures (forall i :: 0 <= i < |checks| ==> checks[i].global) ==> Globals(checks) == checks
    ensures (forall i :: 0 <= i < |checks| ==> !checks[i].global) ==> Globals(checks) == []
  {
    if checks != [] {
      var init := checks[..|checks| - 1];
      GlobalsShape(init);
      assert forall i :: 0 <= i < |init| ==> init[i] == checks[i];
      assert checks == init + [checks[|checks| - 1]];
    }
  }

  lemma {:induction false} GlobalsMembers(checks: seq<CustomCheck>)
    ensures forall c :: c in Globals(checks) <==> c in checks && c.global
  {
    if checks != [] {
      var init, last := checks[..|checks| - 1], checks[|checks| - 1];
      GlobalsMembers(init);
      assert checks == init + [last];
    }
  }

  /** The filter keeps the order: filtering a concatenation concatenates the filtered parts. */
  lemma {:induction false} GlobalsSplit(a: seq<CustomCheck>, b: seq<CustomCheck>)
    ensures Globals(a + b) == Globals(a) + Globals(b)
    decreases |b|
  {
    if b == [] {
      assert a + b == a;
    } else {
      var binit := b[..|b| - 1];
      GlobalsSplit(a, binit);
      assert (a + b)[..|a + b| - 1] == a + binit;
      assert (a + b)[|a + b| - 1] == b[|b| - 1];
    }
  }

  /** A snapshot: references to the three registries at `freeze` time. */
  datatype Frozen = Frozen(implied: Table<KeyOrPos>, checks: CheckList, conflicting: Table<Option<string>>)

  /** The state of the `validation` factory: the registries and the snapshot stack. */
  class Validation {
    var implied: Table<KeyOrPos>
    var conflicting: Table<Option<string>>
    var checks: CheckList
    var frozens: seq<Frozen>

    ghost predicate Valid()
      reads this, implied, conflicting, set i | 0 <= i < |frozens| :: frozens[i].implied,
            set i | 0 <= i < |frozens| :: frozens[i].conflicting
    {
      && implied.Valid() && conflicting.Valid()
      && forall i :: 0 <= i < |frozens| ==> frozens[i].implied.Valid() && frozens[i].conflicting.Valid()
    }

    constructor ()
      ensures Valid()
      ensures fresh(implied) && fresh(conflicting) && fresh(checks)
      ensures implied.entries == [] && conflicting.entries == [] && checks.items == [] && frozens == []
    {
      implied := new Table();
      conflicting := new Table();
      checks := new CheckList([]);
      frozens := [];
    }

    /** `check(f, global)`: appends the check to the current list, in place. */
    method Check(func: (Dict<Value>, map<string, seq<string>>) -> CheckOutcome, source: string, global: bool)
      modifies checks
      ensures checks.items == old(checks.items) + [CustomCheck(func, source, global)]
    {
      checks.items := checks.items + [CustomCheck(func, source, global)];
    }

    /** `implies(key, value)`: the key's list is created if absent, then the
        targets are appended to it in place; an `undefined` target fails the
        assertion (`ok` is false) after the targets before it. */
    method Implies(key: string, value: Arg<KeyOrPos>) returns (ok: bool)
      requires Valid()
      modifies implied, implied.Buckets()
      ensures Valid()
      ensures ok == ImpliedPushes(value).complete
      ensures implied.View() == Register(old(implied.View()), key, ImpliedPushes(value).items)
      ensures key in KeysOf(old(implied.View())) ==> implied.entries == old(implied.entries)
      ensures key !in KeysOf(old(implied.View())) ==> fresh(implied.entries[|implied.entries| - 1].bucket)
      ensures forall i :: 0 <= i < |old(implied.entries)| ==>
        old(implied.entries)[i].bucket.items
        == old(implied.entries[i].bucket.items) + (if old(implied.entries)[i].key == key then ImpliedPushes(value).items else [])
      ensures forall b :: b in implied.Buckets() ==> b in old(implied.Buckets()) || fresh(b)
    {
      var p := ImpliedPushes(value);
      implied.Append(key, p.items);
      ok := p.complete;
    }

    /** `implies({k1: v1, ...})`: one `implies` per key, in key order, until an assertion fails. */
    method ImpliesEach(pairs: seq<(string, Arg<KeyOrPos>)>) returns (ok: bool)
      requires Valid()
      modifies implied, implied.Buckets()
      ensures Valid()
      ensures (implied.View(), ok) == RegisterEach(old(implied.View()), pairs)
    {
      ok := true;
      var i := 0;
      while i < |pairs|
        invariant 0 <= i <= |pairs|
        invariant Valid()
        invariant implied == old(implied)
        invariant forall b :: b in implied.Buckets() ==> b in old(implied.Buckets()) || fresh(b)
        invariant RegisterEach(implied.View(), pairs[i..]) == RegisterEach(old(implied.View()), pairs)
      {
        assert pairs[i..][1..] == pairs[i + 1..];
        ok := Implies(pairs[i].0, pairs[i].1);
        if !ok {
          return;
        }
        i := i + 1;
      }
    }

    /** `conflicts(key, value)`: the key's list is created if absent, then the
        targets, `undefined` included, are appended to it in place. */
    method Conflicts(key: string, value: Arg<string>)
      requires Valid()
      modifies conflicting, conflicting.Buckets()
      ensures Valid()
      ensures conflicting.View() == Register(old(conflicting.View()), key, ConflictPushes(value))
      ensures forall i :: 0 <= i < |old(conflicting.entries)| ==>
        old(conflicting.entries)[i].bucket.items
        == old(conflicting.entries[i].bucket.items) + (if old(conflicting.entries)[i].key == key then ConflictPushes(value) else [])
      ensures forall b :: b in conflicting.Buckets() ==> b in old(conflicting.Buckets()) || fresh(b)
    {
      conflicting.Append(key, ConflictPushes(value));
    }

    /** `conflicts({k1: v1, ...})`: one `conflicts` per key, in key order. */
    method ConflictsEach(pairs: seq<(string, Arg<string>)>)
      requires Valid()
      modifies conflicting, conflicting.Buckets()
      ensures Valid()
      ensures conflicting.View() == ConflictEach(old(conflicting.View()), pairs)
    {
      var i := 0;
      while i < |pairs|
        invariant 0 <= i <= |pairs|
        invariant Valid()
        invariant conflicting == old(conflicting)
        invariant forall b :: b in conflicting.Buckets() ==> b in old(conflicting.Buckets()) || fresh(b)
        invariant ConflictEach(conflicting.View(), pairs[i..]) == ConflictEach(old(conflicting.View()), pairs)
      {
        assert pairs[i..][1..] == pairs[i + 1..];
        Conflicts(pairs[i].0, pairs[i].1);
        i := i + 1;
      }
    }

    /** `getImplied()`: the live registry, not a copy. */
    method GetImplied() returns (t: Table<KeyOrPos>)
      ensures t == implied && t.View() == implied.View()
    {
      t := implied;
    }

    /** `getConflicting()`: the live registry, not a copy. */
    method GetConflicting() returns (t: Table<Option<string>>)
      ensures t == conflicting && t.View() == conflicting.View()
    {
      t := conflicting;
    }

    /** `reset(localLookup)`: new dictionaries without the local keys (sharing
        the lists of the keys kept) and a new list of the global checks; the
        snapshots are untouched. */
    method Reset(local: set<string>)
      requires Valid()
      modifies this
      ensures Valid()
      ensures fresh(implied) && fresh(conflicting) && fresh(checks) && frozens == old(frozens)
      ensures implied.entries == KeepEntries(old(implied.entries), local)
      ensures conflicting.entries == KeepEntries(old(conflicting.entries), local)
      ensures implied.View() == Keep(old(implied.View()), local)
      ensures conflicting.View() == Keep(old(conflicting.View()), local)
      ensures checks.items == Globals(old(checks.items))
    {
      KeepEntriesWellFormed(implied.entries, local);
      KeepEntriesWellFormed(conflicting.entries, local);
      KeepEntriesMembers(implied.entries, local);
      KeepEntriesMembers(conflicting.entries, local);
      KeepEntriesView(implied.entries, local);
      KeepEntriesView(conflicting.entries, local);
      implied := new Table.From(KeepEntries(implied.entries, local));
      conflicting := new Table.From(KeepEntries(conflicting.entries, local));
      checks := new CheckList(Globals(checks.items));
    }

    /** `freeze()`: pushes references to the three current registries. */
    method Freeze()
      requires Valid()
      modifies this
      ensures Valid()
      ensures frozens == old(frozens) + [Frozen(implied, checks, conflicting)]
      ensures implied == old(implied) && checks == old(checks) && conflicting == old(conflicting)
    {
      frozens := frozens + [Frozen(implied, checks, conflicting)];
    }

    /** `unfreeze()`: pops the latest snapshot and makes its registries current;
        on an empty stack the assertion fails (`ok` is false) and nothing changes. */
    method Unfreeze() returns (ok: bool)
      requires Valid()
      modifies this
      ensures Valid()
      ensures ok <==> old(frozens) != []
      ensures !ok ==> implied == old(implied) && checks == old(checks) && conflicting == old(conflicting)
                      && frozens == old(frozens)
      ensures ok ==>
        var top := old(frozens[|frozens| - 1]);
        && frozens == old(frozens[..|frozens| - 1])
        && implied == top.implied && checks == top.checks && conflicting == top.conflicting
    {
      if |frozens| == 0 {
        return false;
      }
      var top := frozens[|frozens| - 1];
      frozens := frozens[..|frozens| - 1];
      implied, checks, conflicting := top.implied, top.checks, top.conflicting;
      ok := true;
    }

    /** `customChecks(argv, aliases)`: the checks run in registration order,
        each one that neither passes nor aborts reports exactly one failure, and
        the first that throws `undefined` or `null` stops the run, `aborted`
        standing for the error `customChecks` then throws itself. */
    method CustomChecks(argv: Dict<Value>, aliases: map<string, seq<string>>) returns (fails: seq<Failure>, aborted: bool)
      ensures fails == CheckFailures(checks.items, argv, aliases)
      ensures aborted <==> exists i :: 0 <= i < |checks.items| && Aborts(checks.items[i], argv, aliases)
      ensures fails == [] <==>
        forall i :: 0 <= i < |checks.items| && Reached(checks.items, i, argv, aliases) ==>
          Passes(checks.items[i], argv, aliases) || Aborts(checks.items[i], argv, aliases)
      ensures |fails| <= |checks.items|
    {
      var list := checks.items;
      fails, aborted := RunChecks(list, argv, aliases);
      CheckFailuresNone(list, argv, aliases);
    }

    /** `implications(argv)`: at most one failure, exactly when some registered
        edge has a source that holds and a target that does not; it lists every
        violated edge, key by key in registration order. */
    method Implications(argv: Dict<Value>) returns (fails: seq<Failure>)
      ensures |fails| <= 1
      ensures fails != [] <==> exists i, t :: 0 <= i < |implied.View()| && t in implied.View()[i].1
                                               && Violates(argv, implied.View()[i].0, t)
      ensures fails != [] ==> fails == [ImplicationsFailed(ViolatedEdges(argv, implied.View()))]
    {
      var view := implied.View();
      var edges := CollectViolated(argv, view);
      assert view == implied.View();
      ViolatedEdgesMembers(argv, view);
      if |edges| > 0 {
        assert edges[0] in edges;
        ghost var i :| 0 <= i < |view| && view[i].0 == edges[0].0 && edges[0].1 in view[i].1;
        fails := [ImplicationsFailed(edges)];
      } else {
        fails := [];
        forall i, t | 0 <= i < |view| && t in view[i].1 ensures !Violates(argv, view[i].0, t) {
          assert Registered(view, view[i].0, t);
          assert (view[i].0, t) !in edges;
        }
      }
    }

    /** `conflicting(argv)`: one failure per argument key and registered,
        non-empty conflict of it when both are defined, in argument-key order. */
    method Conflicting(argv: Dict<Value>) returns (fails: seq<Failure>)
      ensures fails == ConflictFailures(argv, argv.keys, conflicting.View())
      ensures forall f :: f in fails <==>
        f.MutuallyExclusive? && f.key in argv.keys && Some(f.other) in ListOf(conflicting.View(), f.key)
        && Clashes(argv, f.key, Some(f.other))
    {
      var view := conflicting.View();
      fails := CollectConflicts(argv, argv.keys, view);
      assert view == conflicting.View();
      ConflictFailuresMembers(argv, argv.keys, view);
    }
  }

  /** The loop of `customChecks`: each check in order, its outcome turned into
      at most one failure, until one aborts. */
  method RunChecks(list: seq<CustomCheck>, argv: Dict<Value>, aliases: map<string, seq<string>>)
    returns (fails: seq<Failure>, aborted: bool)
    ensures fails == CheckFailures(list, argv, aliases)
    ensures aborted <==> !Reached(list, |list|, argv, aliases)
  {
    fails, aborted := [], false;
    var i := 0;
    while i < |list| && !aborted
      invariant 0 <= i <= |list|
      invariant fails == CheckFailures(list[..i], argv, aliases)
      invariant aborted <==> !Reached(list[..i], i, argv, aliases)
    {
      CheckFailuresStep(list, i, argv, aliases);
      var c := list[i];
      match c.func(argv, aliases) {
        case Threw(message, shown) =>
          fails := fails + [CheckMessage(if message != "" then message else shown)];
        case ThrewNothing =>
          aborted := true;
        case Returned(result) =>
          if !Truthy(result) {
            fails := fails + [CheckFailed(c.source)];
          } else if result.Str? {
            fails := fails + [CheckMessage(result.s)];
          }
        case ReturnedError(shown) =>
          fails := fails + [CheckMessage(shown)];
      }
      i := i + 1;
    }
    if aborted {
      CheckFailuresSplit(list[..i], list[i..], argv, aliases);
      ReachedSplit(list[..i], list[i..], argv, aliases);
      assert list[..i] + list[i..] == list;
    } else {
      assert list[..i] == list;
    }
  }

  /** The outer loop of `implications`, over the registered keys in order. */
  method CollectViolated(argv: Dict<Value>, view: View<KeyOrPos>) returns (edges: seq<(string, KeyOrPos)>)
    ensures edges == ViolatedEdges(argv, view)
  {
    edges := [];
    var i := 0;
    while i < |view|
      invariant 0 <= i <= |view|
      invariant edges == ViolatedEdges(argv, view[..i])
    {
      assert view[..i + 1][..i] == view[..i];
      var more := CollectViolatedOf(argv, view[i].0, view[i].1);
      edges := edges + more;
      i := i + 1;
    }
    assert view[..i] == view;
  }

  /** The inner loop of `implications`: the violated targets of one key. */
  method CollectViolatedOf(argv: Dict<Value>, key: string, targets: seq<KeyOrPos>) returns (edges: seq<(string, KeyOrPos)>)
    ensures edges == ViolatedOf(argv, key, targets)
  {
    edges := [];
    var j := 0;
    while j < |targets|
      invariant 0 <= j <= |targets|
      invariant edges == ViolatedOf(argv, key, targets[..j])
    {
      assert targets[..j + 1][..j] == targets[..j];
      if KeyExists(argv, Name(key)) && !KeyExists(argv, targets[j]) {
        edges := edges + [(key, targets[j])];
      }
      j := j + 1;
    }
    assert targets[..j] == targets;
  }

  /** The outer loop of `conflicting`, over the argument keys. */
  method CollectConflicts(argv: Dict<Value>, keys: seq<string>, view: View<Option<string>>) returns (fails: seq<Failure>)
    ensures fails == ConflictFailures(argv, keys, view)
  {
    fails := [];
    var i := 0;
    while i < |keys|
      invariant 0 <= i <= |keys|
      invariant fails == ConflictFailures(argv, keys[..i], view)
    {
      assert keys[..i + 1][..i] == keys[..i];
      var key := keys[i];
      var clashes := CollectClashes(argv, key, ListOf(view, key));
      fails := fails + clashes;
      i := i + 1;
    }
    assert keys[..i] == keys;
  }

  /** The inner loop of `conflicting`: the clashes of one argument key. */
  method CollectClashes(argv: Dict<Value>, key: string, others: seq<Option<string>>) returns (clashes: seq<Failure>)
    ensures clashes == ClashesOf(argv, key, others)
  {
    clashes := [];
    var j := 0;
    while j < |others|
      invariant 0 <= j <= |others|
      invariant clashes == ClashesOf(argv, key, others[..j])
    {
      assert others[..j + 1][..j] == others[..j];
      var other := others[j];
      if other.Some? && other.value != "" && Get(argv, key) != Undefined && Get(argv, other.value) != Undefined {
        clashes := clashes + [MutuallyExclusive(key, other.value)];
      }
      j := j + 1;
    }
    assert others[..j] == others;
  }

  /** The dictionary after `implies` with each pair in turn, and whether all ran to the end. */
  function RegisterEach(view: View<KeyOrPos>, pairs: seq<(string, Arg<KeyOrPos>)>): (View<KeyOrPos>, bool)
    decreases pairs
  {
    if pairs == [] then (view, true)
    else
      var p := ImpliedPushes(pairs[0].1);
      var next := Register(view, pairs[0].0, p.items);
      if !p.complete then (next, false) else RegisterEach(next, pairs[1..])
  }

  /** The dictionary after `conflicts` with each pair in turn. */
  function ConflictEach(view: View<Option<string>>, pairs: seq<(string, Arg<string>)>): View<Option<string>>
    decreases pairs
  {
    if pairs == [] then view else ConflictEach(Register(view, pairs[0].0, ConflictPushes(pairs[0].1)), pairs[1..])
  }

  // ---- scopes: what unfreeze does and does not undo ----

  /** Without a `reset` in between, a registration made after `freeze` lands in
      the very dictionary the snapshot refers to, so `unfreeze` does not undo it. */
  method FreezeImpliesUnfreeze(v: Validation, key: string, target: KeyOrPos)
    requires v.Valid()
    modifies v, v.implied, v.implied.Buckets()
    ensures v.Valid()
    ensures v.frozens == old(v.frozens) && v.implied == old(v.implied)
    ensures v.implied.View() == Register(old(v.implied.View()), key, [target])
  {
    v.Freeze();
    var ok := v.Implies(key, Given(target));
    ok := v.Unfreeze();
  }

  /** The lists a filtered dictionary holds are lists of the original, and the
      list of a dropped key is not among them. */
  lemma KeptBuckets<T>(entries: seq<Entry<T>>, local: set<string>)
    requires WellFormed(entries)
    ensures BucketsOf(KeepEntries(entries, local)) <= BucketsOf(entries)
    ensures forall j :: 0 <= j < |entries| && entries[j].key in local ==>
      entries[j].bucket !in BucketsOf(KeepEntries(entries, local))
    ensures forall j :: 0 <= j < |entries| && entries[j].key !in local ==>
      entries[j].bucket in BucketsOf(KeepEntries(entries, local))
  {
    var kept := KeepEntries(entries, local);
    KeepEntriesMembers(entries, local);
    forall j | 0 <= j < |entries| && entries[j].key in local ensures entries[j].bucket !in BucketsOf(kept) {
      forall k | 0 <= k < |kept| ensures kept[k].bucket != entries[j].bucket {
        var m :| 0 <= m < |entries| && entries[m] == kept[k];
        assert m != j;
      }
    }
  }

  /** Appending `items` to the list of `key` alone, when it is present, is one registration. */
  lemma SharedUpdate<T>(v0: View<T>, v1: View<T>, key: string, items: seq<T>, shared: bool)
    requires |v1| == |v0|
    requires forall i, j :: 0 <= i < j < |v0| ==> v0[i].0 != v0[j].0
    requires shared ==> key in KeysOf(v0)
    requires forall j :: 0 <= j < |v0| ==> v1[j] == (v0[j].0, v0[j].1 + (if shared && v0[j].0 == key then items else []))
    ensures v1 == if shared then Register(v0, key, items) else v0
  {
    KeysOfAt(v0);
    if shared {
      var i :| 0 <= i < |v0| && v0[i].0 == key;
      RegisterPresent(v0, key, items, i);
      forall j | 0 <= j < |v1| ensures v1[j] == v0[i := (key, v0[i].1 + items)][j] {
        if j < i {
          assert v0[j].0 != v0[i].0;
        } else if j > i {
          assert v0[i].0 != v0[j].0;
        }
        assert v0[j].1 + [] == v0[j].1;
      }
    } else {
      forall j | 0 <= j < |v1| ensures v1[j] == v0[j] {
        assert v0[j].1 + [] == v0[j].1;
      }
    }
  }

  /** Seen through the entries before a `reset`, a registration on the
      filtered dictionary grows the list of `key` when `key` was kept and
      present, and changes nothing otherwise. */
  lemma ThroughKept<T>(before: View<T>, after: View<T>, local: set<string>, key: string, items: seq<T>)
    requires |after| == |before|
    requires forall i, j :: 0 <= i < j < |before| ==> before[i].0 != before[j].0
    requires forall j :: 0 <= j < |before| ==> after[j].0 == before[j].0
    requires forall j :: 0 <= j < |before| && before[j].0 !in local ==>
      after[j].1 == before[j].1 + (if before[j].0 == key then items else [])
    requires forall j :: 0 <= j < |before| && before[j].0 in local ==> after[j].1 == before[j].1
    ensures after == if key !in local && key in KeysOf(before) then Register(before, key, items) else before
  {
    var shared := key !in local && key in KeysOf(before);
    KeysOfAt(before);
    forall j | 0 <= j < |before|
      ensures after[j] == (before[j].0, before[j].1 + (if shared && before[j].0 == key then items else []))
    {
      assert before[j].1 + [] == before[j].1;
    }
    SharedUpdate(before, after, key, items, shared);
  }

  /** A registration of `items` under `key` on the dictionary that `reset`
      filtered from `origin`, dropping the keys in `local`. */
  datatype Registration<T> = Registration(origin: seq<Entry<T>>, local: set<string>, key: string, items: seq<T>)
  {
    function Kept(): seq<Entry<T>>
    {
      KeepEntries(origin, local)
    }
  }

  /** Across a step that appends the items to the kept list of the key and
      leaves every other list of the origin alone, the origin sees one
      registration when the key was kept and present, and no change otherwise. */
  twostate lemma AppendThroughKept<T>(r: Registration<T>)
    requires WellFormed(r.origin)
    requires forall i :: 0 <= i < |r.Kept()| ==>
      old(allocated(r.Kept()[i])) ==>
        r.Kept()[i].bucket.items == old(r.Kept()[i].bucket.items) + (if r.Kept()[i].key == r.key then r.items else [])
    requires forall j :: 0 <= j < |r.origin| && r.origin[j].bucket !in BucketsOf(r.Kept()) ==>
      r.origin[j].bucket.items == old(r.origin[j].bucket.items)
    ensures ViewOf(r.origin) ==
      if r.key !in r.local && r.key in KeysOf(old(ViewOf(r.origin)))
      then Register(old(ViewOf(r.origin)), r.key, r.items)
      else old(ViewOf(r.origin))
  {
    var e0, kept := r.origin, r.Kept();
    KeptBuckets(e0, r.local);
    KeepEntriesMembers(e0, r.local);
    var before, after := old(ViewOf(e0)), ViewOf(e0);
    forall j | 0 <= j < |e0| && e0[j].key !in r.local
      ensures after[j].1 == before[j].1 + (if e0[j].key == r.key then r.items else [])
    {
      var i :| 0 <= i < |kept| && kept[i] == e0[j];
    }
    forall j | 0 <= j < |e0| && e0[j].key in r.local
      ensures after[j].1 == before[j].1
    {
    }
    ThroughKept(before, after, r.local, r.key, r.items);
  }

  /** `implies(key, target)` on a dictionary that `reset` filtered from the
      entries `e0`: seen through `e0`, the registration shows only when the key
      was kept and already had a list. */
  method ImpliesOnKept(v: Validation, ghost e0: seq<Entry<KeyOrPos>>, local: set<string>, key: string, target: KeyOrPos)
    requires v.Valid() && WellFormed(e0) && v.implied.entries == KeepEntries(e0, local)
    modifies v.implied, v.implied.Buckets()
    ensures v.Valid()
    ensures ViewOf(e0) ==
      if key !in local && key in KeysOf(old(ViewOf(e0)))
      then Register(old(ViewOf(e0)), key, [target])
      else old(ViewOf(e0))
  {
    ghost var r := Registration(e0, local, key, [target]);
    assert v.implied.entries == r.Kept();
    var ok := v.Implies(key, Given(target));
    AppendThroughKept(r);
  }

  /** A command scope as the framework runs it: `freeze`, `reset`, a
      registration, `unfreeze`. The snapshot's dictionary comes back unchanged,
      except when the key was kept by `reset` and already had a list: that list
      is shared with the dictionary `reset` built, so the target is appended to it. */
  method ScopedImplies(v: Validation, local: set<string>, key: string, target: KeyOrPos)
    requires v.Valid()
    modifies v, v.implied.Buckets()
    ensures v.Valid()
    ensures v.frozens == old(v.frozens) && v.implied == old(v.implied)
    ensures v.implied.View() ==
      if key !in local && key in KeysOf(old(v.implied.View()))
      then Register(old(v.implied.View()), key, [target])
      else old(v.implied.View())
  {
    ghost var t0 := v.implied;
    ghost var e0 := t0.entries;
    ghost var v0 := ViewOf(e0);
    assert v0 == t0.View();
    KeptBuckets(e0, local);
    v.Freeze();
    v.Reset(local);
    assert v.implied.Buckets() <= t0.Buckets();
    assert ViewOf(e0) == v0;
    ImpliesOnKept(v, e0, local, key, target);
    var ok := v.Unfreeze();
    assert v.implied == t0 && t0.entries == e0;
  }

  /** The check list behaves the same way: a check added between `freeze` and
      `unfreeze` survives the `unfreeze` unless a `reset` replaced the list first. */
  method ScopedCheck(v: Validation, resetFirst: bool, local: set<string>,
                     func: (Dict<Value>, map<string, seq<string>>) -> CheckOutcome, source: string, global: bool)
    requires v.Valid()
    modifies v, v.checks
    ensures v.Valid()
    ensures v.frozens == old(v.frozens) && v.checks == old(v.checks)
    ensures v.checks.items == if resetFirst then old(v.checks.items) else old(v.checks.items) + [CustomCheck(func, source, global)]
  {
    v.Freeze();
    if resetFirst {
      v.Reset(local);
    }
    v.Check(func, source, global);
    var ok := v.Unfreeze();
  }
}
