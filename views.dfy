/** The dictionary registries `implied` and `conflicting` seen as values: their
    keys in insertion order, each with its list. The registries themselves are
    heap objects (module Registries); these functions say what they hold. */
module Views {
  import opened Values

  type View<T> = seq<(string, seq<T>)>

  /** `Object.keys(dict)`. */
  function KeysOf<T>(view: View<T>): (keys: seq<string>)
    ensures |keys| == |view|
  {
    if view == [] then [] else [view[0].0] + KeysOf(view[1..])
  }

  /** No key is listed twice, as in a JavaScript object. */
  predicate DistinctKeys<T>(view: View<T>)
  {
    view == [] || (view[0].0 !in KeysOf(view[1..]) && DistinctKeys(view[1..]))
  }

  /** `dict[key]`: the list of the first entry with that key. */
  function Lookup<T>(view: View<T>, key: string): (r: Option<seq<T>>)
    ensures r.Some? <==> key in KeysOf(view)
    ensures r.Some? ==> (key, r.value) in view
  {
    if view == [] then None
    else if view[0].0 == key then Some(view[0].1)
    else Lookup(view[1..], key)
  }

  /** `dict[key] || []`. */
  function ListOf<T>(view: View<T>, key: string): seq<T>
  {
    match Lookup(view, key)
    case Some(items) => items
    case None => []
  }

  /** One registration under `key`: its list is created at the end when absent,
      then `items` are appended to it. */
  function Register<T>(view: View<T>, key: string, items: seq<T>): View<T>
  {
    if view == [] then [(key, items)]
    else if view[0].0 == key then [(key, view[0].1 + items)] + view[1..]
    else [view[0]] + Register(view[1..], key, items)
  }

  /** A registration extends the list under `key`, adds `key` last only when it
      was absent, and leaves every other key's list as it was. */
  lemma {:induction false} RegisterSpec<T>(view: View<T>, key: string, items: seq<T>)
    ensures forall k :: (Lookup(Register(view, key, items), k)
      == if k == key then Some(ListOf(view, key) + items) else Lookup(view, k))
    ensures KeysOf(Register(view, key, items))
      == (if key in KeysOf(view) then KeysOf(view) else KeysOf(view) + [key])
    ensures DistinctKeys(view) ==> DistinctKeys(Register(view, key, items))
  {
    if view == [] {
      var r := Register(view, key, items);
      assert r[1..] == [];
      forall k ensures Lookup(r, k) == if k == key then Some(ListOf(view, key) + items) else Lookup(view, k) {
        if k != key {
          assert Lookup(r, k) == Lookup(r[1..], k);
        } else {
          assert ListOf(view, key) + items == items;
        }
      }
    } else if view[0].0 != key {
      var r := Register(view, key, items);
      RegisterSpec(view[1..], key, items);
      assert r[1..] == Register(view[1..], key, items);
      forall k ensures Lookup(r, k) == if k == key then Some(ListOf(view, key) + items) else Lookup(view, k) {
        if k != view[0].0 {
          assert Lookup(r, k) == Lookup(r[1..], k);
          assert Lookup(view, k) == Lookup(view[1..], k);
        }
      }
    } else {
      var r := Register(view, key, items);
      assert r[1..] == view[1..];
      forall k ensures Lookup(r, k) == if k == key then Some(ListOf(view, key) + items) else Lookup(view, k) {
        if k != key {
          assert Lookup(r, k) == Lookup(r[1..], k);
        } else {
          assert Lookup(view, key) == Some(view[0].1);
        }
      }
    }
  }

  /** A registration under a key already present updates that key's list in place. */
  lemma {:induction false} RegisterPresent<T>(view: View<T>, key: string, items: seq<T>, i: nat)
    requires i < |view| && view[i].0 == key
    requires forall j :: 0 <= j < i ==> view[j].0 != key
    ensures Register(view, key, items) == view[i := (key, view[i].1 + items)]
  {
    if i > 0 {
      RegisterPresent(view[1..], key, items, i - 1);
      assert [view[0]] + view[1..][i - 1 := (key, view[i].1 + items)] == view[i := (key, view[i].1 + items)];
    }
  }

  /** A registration under a new key adds it last. */
  lemma {:induction false} RegisterAbsent<T>(view: View<T>, key: string, items: seq<T>)
    requires key !in KeysOf(view)
    ensures Register(view, key, items) == view + [(key, items)]
  {
    if view != [] {
      RegisterAbsent(view[1..], key, items);
      assert [view[0]] + (view[1..] + [(key, items)]) == view + [(key, items)];
    }
  }

  lemma {:induction false} KeysOfAt<T>(view: View<T>)
    ensures forall i :: 0 <= i < |view| ==> KeysOf(view)[i] == view[i].0
  {
    if view != [] {
      KeysOfAt(view[1..]);
    }
  }

  /** `objFilter(dict, k => !localLookup[k])`: the entries whose key is not local, in order. */
  function Keep<T>(view: View<T>, local: set<string>): View<T>
  {
    if view == [] then []
    else (if view[0].0 in local then [] else [view[0]]) + Keep(view[1..], local)
  }

  /** The filter drops exactly the local keys and keeps every other key's list. */
  lemma {:induction false} KeepLookup<T>(view: View<T>, local: set<string>)
    ensures forall k :: Lookup(Keep(view, local), k) == if k in local then None else Lookup(view, k)
  {
    if view != [] {
      var tail := Keep(view[1..], local);
      KeepLookup(view[1..], local);
      if view[0].0 !in local {
        var r := Keep(view, local);
        assert r == [view[0]] + tail;
        assert r[1..] == tail;
        forall k ensures Lookup(r, k) == if k in local then None else Lookup(view, k) {
          if k != view[0].0 {
            assert Lookup(r, k) == Lookup(tail, k);
            assert Lookup(view, k) == Lookup(view[1..], k);
          }
        }
      } else {
        assert Keep(view, local) == tail;
        forall k ensures Lookup(tail, k) == if k in local then None else Lookup(view, k) {
          if k != view[0].0 {
            assert Lookup(view, k) == Lookup(view[1..], k);
          }
        }
      }
    }
  }

  /** The filter keeps exactly the non-local entries, and their keys stay distinct. */
  lemma {:induction false} KeepMembers<T>(view: View<T>, local: set<string>)
    ensures forall e :: e in Keep(view, local) <==> e in view && e.0 !in local
    ensures forall k :: k in KeysOf(Keep(view, local)) <==> k in KeysOf(view) && k !in local
    ensures DistinctKeys(view) ==> DistinctKeys(Keep(view, local))
  {
    if view != [] {
      var tail := Keep(view[1..], local);
      KeepMembers(view[1..], local);
      assert KeysOf(view) == [view[0].0] + KeysOf(view[1..]);
      assert forall e :: e in view <==> e == view[0] || e in view[1..];
      if view[0].0 !in local {
        var r := Keep(view, local);
        assert r == [view[0]] + tail;
        assert r[1..] == tail;
        assert KeysOf(r) == [view[0].0] + KeysOf(tail);
      } else {
        assert Keep(view, local) == tail;
      }
    }
  }
}
