/** Stable sorting by a rank, as `Array.prototype.sort` does it, and merging of sorted lists. */
module Sorting {
  import opened Seqs

  ghost predicate Sorted<T>(s: seq<T>, rank: T -> int) {
    forall i, j | 0 <= i < j < |s| :: rank(s[i]) <= rank(s[j])
  }

  function Insert<T>(x: T, s: seq<T>, rank: T -> int): seq<T> {
    if s == [] then [x]
    else if rank(x) <= rank(s[0]) then [x] + s
    else [s[0]] + Insert(x, s[1..], rank)
  }

  function Sort<T>(s: seq<T>, rank: T -> int): seq<T> {
    if s == [] then [] else Insert(s[0], Sort(s[1..], rank), rank)
  }

  function OfRank<T>(s: seq<T>, rank: T -> int, r: int): seq<T> {
    if s == [] then [] else (if rank(s[0]) == r then [s[0]] else []) + OfRank(s[1..], rank, r)
  }

  lemma {:induction false} InsertMembers<T>(x: T, s: seq<T>, rank: T -> int)
    ensures |Insert(x, s, rank)| == |s| + 1
    ensures forall i | 0 <= i < |Insert(x, s, rank)| :: Insert(x, s, rank)[i] in [x] + s
    ensures forall y | y in [x] + s :: y in Insert(x, s, rank)
  {
    if s != [] && rank(s[0]) < rank(x) {
      InsertMembers(x, s[1..], rank);
      assert s == [s[0]] + s[1..];
    }
  }

  lemma {:induction false} InsertSorts<T>(x: T, s: seq<T>, rank: T -> int)
    requires Sorted(s, rank)
    ensures Sorted(Insert(x, s, rank), rank)
  {
    if s != [] && rank(s[0]) < rank(x) {
      InsertSorts(x, s[1..], rank);
      InsertMembers(x, s[1..], rank);
      var t := Insert(x, s[1..], rank);
      forall i | 0 <= i < |t| ensures rank(s[0]) <= rank(t[i]) {
        if t[i] != x {
          var j :| 0 <= j < |[x] + s[1..]| && ([x] + s[1..])[j] == t[i];
          assert s[j] == t[i];
        }
      }
    }
  }

  lemma {:induction false} InsertKeepsRanks<T>(x: T, s: seq<T>, rank: T -> int, r: int)
    ensures OfRank(Insert(x, s, rank), rank, r) == OfRank([x] + s, rank, r)
  {
    assert ([x] + s)[1..] == s;
    if s != [] && rank(s[0]) < rank(x) {
      InsertKeepsRanks(x, s[1..], rank, r);
      assert ([x] + s[1..])[1..] == s[1..];
      var t := [s[0]] + Insert(x, s[1..], rank);
      assert t[1..] == Insert(x, s[1..], rank);
    }
  }

  /** The result is in order, and elements of equal rank keep the order they had. */
  lemma {:induction false} SortIsStable<T>(s: seq<T>, rank: T -> int)
    ensures Sorted(Sort(s, rank), rank) && |Sort(s, rank)| == |s|
    ensures forall x :: x in s <==> x in Sort(s, rank)
    ensures forall r :: OfRank(Sort(s, rank), rank, r) == OfRank(s, rank, r)
  {
    if s != [] {
      var rest := Sort(s[1..], rank);
      SortIsStable(s[1..], rank);
      InsertSorts(s[0], rest, rank);
      InsertMembers(s[0], rest, rank);
      assert s == [s[0]] + s[1..];
      forall r ensures OfRank(Sort(s, rank), rank, r) == OfRank(s, rank, r) {
        InsertKeepsRanks(s[0], rest, rank, r);
        assert ([s[0]] + rest)[1..] == rest;
      }
    }
  }

  lemma {:induction false} InsertKeepsAll<T>(x: T, s: seq<T>, rank: T -> int)
    ensures multiset(Insert(x, s, rank)) == multiset(s) + multiset{x}
  {
    if s != [] && rank(s[0]) < rank(x) {
      InsertKeepsAll(x, s[1..], rank);
      assert s == [s[0]] + s[1..];
    }
  }

  lemma {:induction false} SortKeepsAll<T>(s: seq<T>, rank: T -> int)
    ensures multiset(Sort(s, rank)) == multiset(s)
  {
    if s != [] {
      SortKeepsAll(s[1..], rank);
      InsertKeepsAll(s[0], Sort(s[1..], rank), rank);
      assert s == [s[0]] + s[1..];
    }
  }

  lemma {:induction false} OfRankEmpty<T>(s: seq<T>, rank: T -> int, r: int)
    requires forall i | 0 <= i < |s| :: rank(s[i]) != r
    ensures OfRank(s, rank, r) == []
  {
    if s != [] { OfRankEmpty(s[1..], rank, r); }
  }

  lemma FirstOfRank<T>(s: seq<T>, t: seq<T>, rank: T -> int)
    requires s != [] && Sorted(s, rank) && Sorted(t, rank)
    requires forall r :: OfRank(s, rank, r) == OfRank(t, rank, r)
    ensures t != [] && rank(t[0]) <= rank(s[0])
  {
    var r := rank(s[0]);
    assert OfRank(s, rank, r) != [];
    if forall i | 0 <= i < |t| :: rank(t[i]) != r {
      OfRankEmpty(t, rank, r);
    }
  }

  /** There is only one stable ordering, so `Sort` is any stable sort. */
  lemma {:induction false} StableOrderIsUnique<T>(s: seq<T>, t: seq<T>, rank: T -> int)
    requires Sorted(s, rank) && Sorted(t, rank)
    requires forall r :: OfRank(s, rank, r) == OfRank(t, rank, r)
    ensures s == t
  {
    if s == [] {
      if t != [] { FirstOfRank(t, s, rank); }
    } else {
      FirstOfRank(s, t, rank);
      FirstOfRank(t, s, rank);
      var r := rank(s[0]);
      assert OfRank(s, rank, r)[0] == s[0] && OfRank(t, rank, r)[0] == t[0];
      forall q ensures OfRank(s[1..], rank, q) == OfRank(t[1..], rank, q) {
        if q == r {
          assert OfRank(s, rank, q)[1..] == OfRank(s[1..], rank, q);
          assert OfRank(t, rank, q)[1..] == OfRank(t[1..], rank, q);
        } else {
          assert OfRank(s, rank, q) == OfRank(s[1..], rank, q);
          assert OfRank(t, rank, q) == OfRank(t[1..], rank, q);
        }
      }
      StableOrderIsUnique(s[1..], t[1..], rank);
      assert s == [s[0]] + s[1..] && t == [t[0]] + t[1..];
    }
  }

  // ----- Merging -----

  function Merge<T>(a: seq<T>, b: seq<T>, rank: T -> int): seq<T>
    decreases |a| + |b|
  {
    if a == [] then b
    else if b == [] then a
    else if rank(a[0]) <= rank(b[0]) then [a[0]] + Merge(a[1..], b, rank)
    else [b[0]] + Merge(a, b[1..], rank)
  }

  lemma {:induction false} InsertIntoMerge<T>(x: T, a: seq<T>, b: seq<T>, rank: T -> int)
    requires Sorted([x] + a, rank) && Sorted(b, rank)
    ensures Insert(x, Merge(a, b, rank), rank) == Merge([x] + a, b, rank)
    decreases |b|
  {
    var xa := [x] + a;
    assert xa[1..] == a;
    forall i | 0 <= i < |a| ensures rank(x) <= rank(a[i]) {
      assert xa[0] == x && xa[i + 1] == a[i];
    }
    if b != [] && rank(b[0]) < rank(x) {
      InsertIntoMerge(x, a, b[1..], rank);
      if a == [] {
        assert Merge(a, b[1..], rank) == b[1..];
      } else {
        assert rank(x) <= rank(a[0]);
        var m := Merge(a, b, rank);
        assert m == [b[0]] + Merge(a, b[1..], rank) && m[1..] == Merge(a, b[1..], rank);
      }
    } else if b == [] {
      if a != [] { assert rank(x) <= rank(a[0]); }
    }
  }

  lemma {:induction false} SortOfSorted<T>(s: seq<T>, rank: T -> int)
    requires Sorted(s, rank)
    ensures Sort(s, rank) == s
  {
    if s != [] {
      SortOfSorted(s[1..], rank);
      assert s == [s[0]] + s[1..];
    }
  }

  /** Sorting one sorted list after another is merging them. */
  lemma {:induction false} SortOfTwoSorted<T>(a: seq<T>, b: seq<T>, rank: T -> int)
    requires Sorted(a, rank) && Sorted(b, rank)
    ensures Sort(a + b, rank) == Merge(a, b, rank)
  {
    if a == [] {
      assert a + b == b;
      SortOfSorted(b, rank);
    } else {
      assert (a + b)[1..] == a[1..] + b;
      assert a == [a[0]] + a[1..];
      SortOfTwoSorted(a[1..], b, rank);
      InsertIntoMerge(a[0], a[1..], b, rank);
    }
  }

  function Take<T>(s: seq<T>, count: nat): seq<T> {
    s[..if count < |s| then count else |s|]
  }

  /** `s.slice(from, to)` with non-negative bounds. */
  function Slice<T>(s: seq<T>, from: nat, to: nat): seq<T> {
    var hi := if to < |s| then to else |s|;
    s[(if from < hi then from else hi)..hi]
  }

  lemma MergeLength<T>(a: seq<T>, b: seq<T>, rank: T -> int)
    ensures |Merge(a, b, rank)| == |a| + |b|
    decreases |a| + |b|
  {
  }

  lemma {:induction false} MergeMembers<T>(a: seq<T>, b: seq<T>, rank: T -> int, i: nat)
    requires i < |a| + |b|
    ensures |Merge(a, b, rank)| == |a| + |b|
    ensures
      var x := Merge(a, b, rank)[i];
      (x in a || x in Take(b, i + 1)) && (x in b || x in Take(a, i + 1))
    decreases |a| + |b|
  {
    MergeLength(a, b, rank);
    if a != [] && b != [] && 0 < i {
      if rank(a[0]) <= rank(b[0]) {
        MergeMembers(a[1..], b, rank, i - 1);
      } else {
        MergeMembers(a, b[1..], rank, i - 1);
      }
    }
  }

  // ----- Merging lists of which only the beginnings are known -----

  /** How far a merge runs before it wants an element past the first `ka` of `a` or `kb` of `b`. */
  function Cut<T>(a: seq<T>, b: seq<T>, ka: nat, kb: nat, rank: T -> int): nat
    decreases |a| + |b|
  {
    if a == [] && b == [] then 0
    else if b == [] || (a != [] && rank(a[0]) <= rank(b[0])) then
      if ka == 0 then 0 else 1 + Cut(a[1..], b, ka - 1, kb, rank)
    else
      if kb == 0 then 0 else 1 + Cut(a, b[1..], ka, kb - 1, rank)
  }

  lemma {:induction false} CutBounds<T>(a: seq<T>, b: seq<T>, ka: nat, kb: nat, rank: T -> int)
    ensures Cut(a, b, ka, kb, rank) <= |a| + |b|
    ensures |a| <= ka && |b| <= kb ==> Cut(a, b, ka, kb, rank) == |a| + |b|
    ensures Cut(a, b, ka, kb, rank) < |a| + |b| ==> (if ka < kb then ka else kb) <= Cut(a, b, ka, kb, rank)
    decreases |a| + |b|
  {
    if a == [] && b == [] {
    } else if b == [] || (a != [] && rank(a[0]) <= rank(b[0])) {
      if ka != 0 { CutBounds(a[1..], b, ka - 1, kb, rank); }
    } else {
      if kb != 0 { CutBounds(a, b[1..], ka, kb - 1, rank); }
    }
  }

  /** How many elements come before a given rank. */
  function CountBelow<T>(s: seq<T>, rank: T -> int, bound: int): nat {
    if s == [] then 0 else (if rank(s[0]) < bound then 1 else 0) + CountBelow(s[1..], rank, bound)
  }

  /**
   Where the first element of `a` past `ka` stands in the merge: behind the `ka` before it
   and the elements of `b` of smaller rank; and likewise for `b`, whose elements also
   stand behind those of `a` of equal rank.
   */
  function PlaceOfLeft<T>(a: seq<T>, b: seq<T>, ka: nat, rank: T -> int): nat {
    if ka < |a| then ka + CountBelow(b, rank, rank(a[ka])) else |a| + |b|
  }

  function PlaceOfRight<T>(a: seq<T>, b: seq<T>, kb: nat, rank: T -> int): nat {
    if kb < |b| then kb + CountBelow(a, rank, rank(b[kb]) + 1) else |a| + |b|
  }

  lemma {:induction false} CountBelowNone<T>(s: seq<T>, rank: T -> int, bound: int)
    requires Sorted(s, rank) && (s == [] || bound <= rank(s[0]))
    ensures CountBelow(s, rank, bound) == 0
  {
    if s != [] { CountBelowNone(s[1..], rank, bound); }
  }

  lemma PlacesFromLeft<T>(a: seq<T>, b: seq<T>, ka: nat, kb: nat, rank: T -> int)
    requires Sorted(a, rank) && Sorted(b, rank)
    requires a != [] && (b == [] || rank(a[0]) <= rank(b[0]))
    ensures PlaceOfRight(a, b, kb, rank) == 1 + PlaceOfRight(a[1..], b, kb, rank)
    ensures PlaceOfLeft(a, b, ka, rank) == if ka == 0 then 0 else 1 + PlaceOfLeft(a[1..], b, ka - 1, rank)
  {
    if kb < |b| {
      assert rank(b[0]) <= rank(b[kb]);
    }
    if ka == 0 {
      CountBelowNone(b, rank, rank(a[0]));
    }
  }

  lemma PlacesFromRight<T>(a: seq<T>, b: seq<T>, ka: nat, kb: nat, rank: T -> int)
    requires Sorted(a, rank) && Sorted(b, rank)
    requires b != [] && (a == [] || rank(b[0]) < rank(a[0]))
    ensures PlaceOfLeft(a, b, ka, rank) == 1 + PlaceOfLeft(a, b[1..], ka, rank)
    ensures PlaceOfRight(a, b, kb, rank) == if kb == 0 then 0 else 1 + PlaceOfRight(a, b[1..], kb - 1, rank)
  {
    if ka < |a| {
      assert rank(a[0]) <= rank(a[ka]);
    }
    if kb == 0 {
      CountBelowNone(a, rank, rank(b[0]) + 1);
    }
  }

  /** The cut without the merge: the lesser of the places of the two first elements left out. */
  lemma {:induction false} CutInClosedForm<T>(a: seq<T>, b: seq<T>, ka: nat, kb: nat, rank: T -> int)
    requires Sorted(a, rank) && Sorted(b, rank)
    ensures
      var left, right := PlaceOfLeft(a, b, ka, rank), PlaceOfRight(a, b, kb, rank);
      Cut(a, b, ka, kb, rank) == if left < right then left else right
    decreases |a| + |b|
  {
    hide PlaceOfLeft, PlaceOfRight;
    if a == [] && b == [] {
      NoPlaces(a, b, ka, kb, rank);
    } else if b == [] || (a != [] && rank(a[0]) <= rank(b[0])) {
      PlacesFromLeft(a, b, ka, kb, rank);
      if ka != 0 { CutInClosedForm(a[1..], b, ka - 1, kb, rank); }
    } else {
      PlacesFromRight(a, b, ka, kb, rank);
      if kb != 0 { CutInClosedForm(a, b[1..], ka, kb - 1, rank); }
    }
  }

  lemma NoPlaces<T>(a: seq<T>, b: seq<T>, ka: nat, kb: nat, rank: T -> int)
    requires a == [] && b == []
    ensures PlaceOfLeft(a, b, ka, rank) == 0 && PlaceOfRight(a, b, kb, rank) == 0
  {
  }

  /** What stands at the cut of the whole merge is an element that was left out. */
  lemma {:induction false} LeftOutAtCut<T>(a: seq<T>, b: seq<T>, ka: nat, kb: nat, rank: T -> int)
    requires Cut(a, b, ka, kb, rank) < |a| + |b|
    ensures |Merge(a, b, rank)| == |a| + |b|
    ensures
      var x := Merge(a, b, rank)[Cut(a, b, ka, kb, rank)];
      (ka < |a| && x == a[ka]) || (kb < |b| && x == b[kb])
    decreases |a| + |b|
  {
    MergeLength(a, b, rank);
    if b == [] || (a != [] && rank(a[0]) <= rank(b[0])) {
      if ka != 0 { LeftOutAtCut(a[1..], b, ka - 1, kb, rank); }
    } else {
      if kb != 0 { LeftOutAtCut(a, b[1..], ka, kb - 1, rank); }
    }
  }

  lemma TakeTail<T>(s: seq<T>, k: nat)
    requires s != [] && 0 < k
    ensures Take(s, k) != [] && Take(s, k)[0] == s[0] && Take(s, k)[1..] == Take(s[1..], k - 1)
  {
  }

  ghost predicate AgreeUpTo<T>(c: nat, full: seq<T>, part: seq<T>) {
    c <= |full| && c <= |part| && full[..c] == part[..c]
  }

  lemma AgreeCons<T>(h: T, c: nat, full: seq<T>, part: seq<T>)
    requires AgreeUpTo(c, full, part)
    ensures AgreeUpTo(1 + c, [h] + full, [h] + part)
  {
    assert ([h] + full)[..1 + c] == [h] + full[..c] && ([h] + part)[..1 + c] == [h] + part[..c];
  }

  /** Up to the cut, merging the beginnings gives what merging the whole lists gives. */
  lemma {:induction false} AgreeBeforeCut<T>(a: seq<T>, b: seq<T>, ka: nat, kb: nat, rank: T -> int)
    ensures AgreeUpTo(Cut(a, b, ka, kb, rank), Merge(a, b, rank), Merge(Take(a, ka), Take(b, kb), rank))
    decreases |a| + |b|
  {
    hide Merge, Take;
    if a == [] && b == [] {
    } else if b == [] || (a != [] && rank(a[0]) <= rank(b[0])) {
      if ka != 0 {
        AgreeBeforeCut(a[1..], b, ka - 1, kb, rank);
        MergeTakesLeft(a, b, ka, kb, rank);
        AgreeCons(a[0], Cut(a[1..], b, ka - 1, kb, rank), Merge(a[1..], b, rank),
                  Merge(Take(a[1..], ka - 1), Take(b, kb), rank));
      }
    } else {
      if kb != 0 {
        AgreeBeforeCut(a, b[1..], ka, kb - 1, rank);
        MergeTakesRight(a, b, ka, kb, rank);
        AgreeCons(b[0], Cut(a, b[1..], ka, kb - 1, rank), Merge(a, b[1..], rank),
                  Merge(Take(a, ka), Take(b[1..], kb - 1), rank));
      }
    }
  }

  lemma MergeTakesLeft<T>(a: seq<T>, b: seq<T>, ka: nat, kb: nat, rank: T -> int)
    requires a != [] && ka != 0 && (b == [] || rank(a[0]) <= rank(b[0]))
    ensures Merge(a, b, rank) == [a[0]] + Merge(a[1..], b, rank)
    ensures Merge(Take(a, ka), Take(b, kb), rank) == [a[0]] + Merge(Take(a[1..], ka - 1), Take(b, kb), rank)
  {
    TakeTail(a, ka);
    MergeHead(a, b, rank);
    MergeHead(Take(a, ka), Take(b, kb), rank);
    hide Merge;
  }

  lemma MergeTakesRight<T>(a: seq<T>, b: seq<T>, ka: nat, kb: nat, rank: T -> int)
    requires b != [] && kb != 0 && (a == [] || rank(b[0]) < rank(a[0]))
    ensures Merge(a, b, rank) == [b[0]] + Merge(a, b[1..], rank)
    ensures Merge(Take(a, ka), Take(b, kb), rank) == [b[0]] + Merge(Take(a, ka), Take(b[1..], kb - 1), rank)
  {
    TakeTail(b, kb);
    MergeHead(a, b, rank);
    MergeHead(Take(a, ka), Take(b, kb), rank);
    hide Merge;
  }

  lemma MergeHead<T>(a: seq<T>, b: seq<T>, rank: T -> int)
    requires a != [] || b != []
    ensures Merge(a, b, rank) ==
      if b == [] || (a != [] && rank(a[0]) <= rank(b[0])) then [a[0]] + Merge(a[1..], b, rank)
      else [b[0]] + Merge(a, b[1..], rank)
  {
    if b == [] { assert a == [a[0]] + a[1..]; }
    if a == [] { assert b == [b[0]] + b[1..]; }
  }

  /** A merge that begins with an element of `a` is, from there on, behind `b` at every place. */
  lemma BehindRight<T>(a: seq<T>, b: seq<T>, rank: T -> int, i: nat)
    requires NoDuplicates(a + b) && a != [] && (b == [] || rank(a[0]) <= rank(b[0]))
    requires i < |b|
    ensures |Merge(a, b, rank)| == |a| + |b| && Merge(a, b, rank)[i] != b[i]
  {
    MergeHead(a, b, rank);
    MergeLength(a, b, rank);
    if i == 0 {
      assert (a + b)[0] == a[0] && (a + b)[|a|] == b[0];
    } else {
      MergeMembers(a[1..], b, rank, i - 1);
      ElementsApart(a, b, i, Merge(a, b, rank)[i]);
    }
  }

  lemma BehindLeft<T>(a: seq<T>, b: seq<T>, rank: T -> int, i: nat)
    requires NoDuplicates(a + b) && b != [] && (a == [] || rank(b[0]) < rank(a[0]))
    requires i < |a|
    ensures |Merge(a, b, rank)| == |a| + |b| && Merge(a, b, rank)[i] != a[i]
  {
    MergeHead(a, b, rank);
    MergeLength(a, b, rank);
    if i == 0 {
      assert (a + b)[0] == a[0] && (a + b)[|a|] == b[0];
    } else {
      MergeMembers(a, b[1..], rank, i - 1);
      Swapped(a, b);
      ElementsApart(b, a, i, Merge(a, b, rank)[i]);
    }
  }

  /** From the cut on, when the elements are all different, the two merges differ at every place. */
  lemma {:induction false} DifferFromCut<T>(a: seq<T>, b: seq<T>, ka: nat, kb: nat, rank: T -> int, i: nat)
    requires NoDuplicates(a + b)
    requires Cut(a, b, ka, kb, rank) <= i < |a| + |b|
    ensures |Merge(a, b, rank)| == |a| + |b|
    ensures
      var full, part := Merge(a, b, rank), Merge(Take(a, ka), Take(b, kb), rank);
      i < |part| ==> full[i] != part[i]
    decreases |a| + |b|
  {
    hide Merge, NoDuplicates;
    MergeLength(a, b, rank);
    if b == [] || (a != [] && rank(a[0]) <= rank(b[0])) {
      WithoutFirst(a, b);
      if ka == 0 {
        MergeNothing(Take(b, kb), rank);
        if i < |Take(b, kb)| { BehindRight(a, b, rank, i); }
      } else {
        MergeTakesLeft(a, b, ka, kb, rank);
        DifferFromCut(a[1..], b, ka - 1, kb, rank, i - 1);
      }
    } else {
      WithoutMiddle(a, b);
      if kb == 0 {
        MergeNothing(Take(a, ka), rank);
        if i < |Take(a, ka)| { BehindLeft(a, b, rank, i); }
      } else {
        MergeTakesRight(a, b, ka, kb, rank);
        DifferFromCut(a, b[1..], ka, kb - 1, rank, i - 1);
      }
    }
  }

  lemma ElementsApart<T>(a: seq<T>, b: seq<T>, i: nat, x: T)
    requires NoDuplicates(a + b) && i < |b| && (x in a || x in Take(b, i))
    ensures x != b[i]
  {
    if x in a {
      var j :| 0 <= j < |a| && a[j] == x;
      assert (a + b)[j] == x && (a + b)[|a| + i] == b[i];
    } else {
      var j :| 0 <= j < i && b[j] == x;
      assert (a + b)[|a| + j] == x && (a + b)[|a| + i] == b[i];
    }
  }

  lemma MergeNothing<T>(s: seq<T>, rank: T -> int)
    ensures Merge([], s, rank) == s && Merge(s, [], rank) == s
  {
  }

  lemma WithoutFirst<T>(a: seq<T>, b: seq<T>)
    requires NoDuplicates(a + b) && a != []
    ensures NoDuplicates(a[1..] + b)
  {
    assert (a + b)[1..] == a[1..] + b;
  }

  lemma WithoutMiddle<T>(a: seq<T>, b: seq<T>)
    requires NoDuplicates(a + b) && b != []
    ensures NoDuplicates(a + b[1..])
  {
    var s, t := a + b[1..], a + b;
    forall i, j | 0 <= i < j < |s| ensures s[i] != s[j] {
      assert s[i] == t[if i < |a| then i else i + 1] && s[j] == t[if j < |a| then j else j + 1];
    }
  }

  lemma Swapped<T>(a: seq<T>, b: seq<T>)
    requires NoDuplicates(a + b)
    ensures NoDuplicates(b + a)
  {
    var s, t := b + a, a + b;
    forall i, j | 0 <= i < j < |s| ensures s[i] != s[j] {
      assert s[i] == t[if i < |b| then |a| + i else i - |b|] && s[j] == t[if j < |b| then |a| + j else j - |b|];
    }
  }
}
