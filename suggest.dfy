/** The suggestion rule `recommendCommands` (lib/validation.ts:364-378): the
    candidates are sorted longest first, in place, and the first candidate with
    the least edit distance, if that distance is at most three, is suggested. */
module Suggestions {
  import opened Values
  import opened Reports

  /** More than this many edits and a candidate is not worth suggesting. */
  const Threshold: nat := 3

  predicate LongestFirst(s: seq<string>)
  {
    forall i, j :: 0 <= i < j < |s| ==> |s[i]| >= |s[j]|
  }

  /** Places `x` after every element at least as long, before the first shorter one. */
  function Insert(x: string, s: seq<string>): seq<string>
  {
    if s == [] then [x]
    else if |s[0]| < |x| then [x] + s
    else [s[0]] + Insert(x, s[1..])
  }

  /** A stable sort by descending length, which is what `sort((a, b) => b.length - a.length)` does. */
  function SortByLength(s: seq<string>): seq<string>
  {
    if s == [] then [] else Insert(s[|s| - 1], SortByLength(s[..|s| - 1]))
  }

  /** The elements of `s` of length `n`, in order. */
  function OfLength(s: seq<string>, n: nat): seq<string>
  {
    if s == [] then [] else (if |s[0]| == n then [s[0]] else []) + OfLength(s[1..], n)
  }

  lemma {:induction false} OfLengthAppend(s: seq<string>, x: string, n: nat)
    ensures OfLength(s + [x], n) == OfLength(s, n) + (if |x| == n then [x] else [])
  {
    if s != [] {
      assert (s + [x])[1..] == s[1..] + [x];
      OfLengthAppend(s[1..], x, n);
    }
  }

  lemma {:induction false} OfLengthOfShorter(s: seq<string>, n: nat)
    requires forall i :: 0 <= i < |s| ==> |s[i]| < n
    ensures OfLength(s, n) == []
  {
    if s != [] {
      OfLengthOfShorter(s[1..], n);
    }
  }

  lemma {:induction false} InsertPermutes(x: string, s: seq<string>)
    ensures multiset(Insert(x, s)) == multiset(s) + multiset{x}
  {
    if s != [] && |s[0]| >= |x| {
      InsertPermutes(x, s[1..]);
      assert s == [s[0]] + s[1..];
    }
  }

  lemma {:induction false} InsertBounded(x: string, s: seq<string>, b: nat)
    requires |x| <= b && forall i :: 0 <= i < |s| ==> |s[i]| <= b
    ensures forall i :: 0 <= i < |Insert(x, s)| ==> |Insert(x, s)[i]| <= b
  {
    if s != [] && |s[0]| >= |x| {
      InsertBounded(x, s[1..], b);
    }
  }

  lemma {:induction false} InsertSorted(x: string, s: seq<string>)
    requires LongestFirst(s)
    ensures LongestFirst(Insert(x, s))
  {
    if s == [] {
    } else if |s[0]| < |x| {
      var r := [x] + s;
      assert Insert(x, s) == r;
      forall i, j | 0 <= i < j < |r| ensures |r[i]| >= |r[j]| {
        assert |s[0]| >= |s[j - 1]|;
      }
    } else {
      var t := s[1..];
      InsertSorted(x, t);
      InsertBounded(x, t, |s[0]|);
      var r := Insert(x, t);
      var u := [s[0]] + r;
      assert Insert(x, s) == u;
      forall i, j | 0 <= i < j < |u| ensures |u[i]| >= |u[j]| {
        if i > 0 {
          assert u[i] == r[i - 1] && u[j] == r[j - 1];
        } else {
          assert u[j] == r[j - 1];
        }
      }
    }
  }

  lemma {:induction false} InsertStable(x: string, s: seq<string>, n: nat)
    requires LongestFirst(s)
    ensures OfLength(Insert(x, s), n) == OfLength(s, n) + (if |x| == n then [x] else [])
  {
    if s == [] {
    } else if |s[0]| < |x| {
      assert Insert(x, s)[1..] == s;
      if |x| == n {
        OfLengthOfShorter(s, n);
      }
    } else {
      InsertStable(x, s[1..], n);
      assert ([s[0]] + Insert(x, s[1..]))[1..] == Insert(x, s[1..]);
    }
  }

  /** The sort yields a permutation, longest first, and keeps the order of
      equally long candidates. */
  lemma {:induction false} SortByLengthSpec(s: seq<string>)
    ensures LongestFirst(SortByLength(s))
    ensures multiset(SortByLength(s)) == multiset(s)
    ensures forall n: nat :: OfLength(SortByLength(s), n) == OfLength(s, n)
  {
    if s != [] {
      var init := s[..|s| - 1];
      var x := s[|s| - 1];
      SortByLengthSpec(init);
      InsertSorted(x, SortByLength(init));
      InsertPermutes(x, SortByLength(init));
      assert s == init + [x];
      forall n: nat ensures OfLength(SortByLength(s), n) == OfLength(s, n) {
        InsertStable(x, SortByLength(init), n);
        OfLengthAppend(init, x, n);
      }
    }
  }

  /** Candidate `i` is the one the scan settles on: within the threshold, no
      farther than any other, and strictly closer than every earlier one. */
  predicate IsClosest(cmd: string, candidates: seq<string>, distance: (string, string) -> nat, i: nat)
  {
    && i < |candidates|
    && distance(cmd, candidates[i]) <= Threshold
    && (forall j :: 0 <= j < |candidates| ==> distance(cmd, candidates[i]) <= distance(cmd, candidates[j]))
    && (forall j :: 0 <= j < i ==> distance(cmd, candidates[j]) > distance(cmd, candidates[i]))
  }

  /** At most one candidate is the closest. */
  lemma ClosestIsUnique(cmd: string, candidates: seq<string>, distance: (string, string) -> nat, i: nat, k: nat)
    requires IsClosest(cmd, candidates, distance, i) && IsClosest(cmd, candidates, distance, k)
    ensures i == k
  {
  }

  /** The running-best scan: strict improvement, within the threshold. */
  method ClosestCandidate(cmd: string, candidates: seq<string>, distance: (string, string) -> nat)
    returns (best: Option<nat>)
    ensures best.None? <==> forall j :: 0 <= j < |candidates| ==> distance(cmd, candidates[j]) > Threshold
    ensures best.Some? ==> IsClosest(cmd, candidates, distance, best.value)
  {
    best := None;
    var bestDistance: nat := Threshold + 1;  // stands for `Infinity`: only distances within the threshold compete
    var i := 0;
    while i < |candidates|
      invariant 0 <= i <= |candidates|
      invariant best.None? ==> bestDistance == Threshold + 1
      invariant best.None? <==> forall j :: 0 <= j < i ==> distance(cmd, candidates[j]) > Threshold
      invariant best.Some? ==> best.value < i && bestDistance == distance(cmd, candidates[best.value]) <= Threshold
      invariant forall j :: 0 <= j < i ==> bestDistance <= distance(cmd, candidates[j])
      invariant best.Some? ==> forall j :: 0 <= j < best.value ==> distance(cmd, candidates[j]) > bestDistance
    {
      var d := distance(cmd, candidates[i]);
      if d <= Threshold && d < bestDistance {
        bestDistance := d;
        best := Some(i);
      }
      i := i + 1;
    }
  }

  /** `recommendCommands`: sorts the caller's candidates in place, longest
      first; suggests the closest candidate, unless that is the empty string,
      which is falsy; and reports nothing when every candidate is more than
      three edits away. */
  method RecommendCommands(cmd: string, potential: array<string>, distance: (string, string) -> nat)
    returns (fails: seq<Failure>)
    modifies potential
    ensures potential[..] == SortByLength(old(potential[..]))
    ensures |fails| <= 1
    ensures fails != [] <==> exists i: nat :: IsClosest(cmd, potential[..], distance, i) && potential[i] != ""
    ensures forall i: nat :: IsClosest(cmd, potential[..], distance, i) && potential[i] != "" ==>
      fails == [DidYouMean(potential[i])]
    ensures (forall j :: 0 <= j < potential.Length ==> distance(cmd, potential[j]) > Threshold) ==> fails == []
  {
    var sorted := SortByLength(potential[..]);
    SortByLengthSpec(potential[..]);
    assert |sorted| == potential.Length by {
      assert |multiset(sorted)| == |multiset(potential[..])|;
    }
    forall i | 0 <= i < potential.Length {
      potential[i] := sorted[i];
    }
    assert potential[..] == sorted;
    var best := ClosestCandidate(cmd, potential[..], distance);
    fails := [];
    if best.Some? && potential[best.value] != "" {
      fails := [DidYouMean(potential[best.value])];
    }
    forall i: nat | IsClosest(cmd, potential[..], distance, i) ensures best == Some(i) {
      if best.Some? {
        ClosestIsUnique(cmd, potential[..], distance, i, best.value);
      }
    }
  }

  /** Among equally distant candidates the longer wins: `servee` is one edit
      from both `serve` and `server`, and `server` is suggested. */
  lemma LongerOfTwoEquidistantWins(distance: (string, string) -> nat)
    requires distance("servee", "serve") == 1 && distance("servee", "server") == 1
    requires distance("servee", "build") > Threshold
    ensures SortByLength(["serve", "server", "build"]) == ["server", "serve", "build"]
    ensures IsClosest("servee", ["server", "serve", "build"], distance, 0)
  {
    assert ["serve", "server", "build"][..2] == ["serve", "server"];
    assert ["serve", "server"][..1] == ["serve"];
    assert SortByLength(["serve"]) == Insert("serve", []) == ["serve"];
    assert SortByLength(["serve", "server"]) == Insert("server", ["serve"]) == ["server", "serve"];
    assert ["server", "serve"][1..] == ["serve"];
    assert Insert("build", ["serve"]) == ["serve", "build"];
    assert Insert("build", ["server", "serve"]) == ["server", "serve", "build"];
  }
}
