/** Facts about finite sequences shared by the models. */
module Seqs {

  ghost predicate NoDuplicates<T>(s: seq<T>) {
    forall i, j | 0 <= i < j < |s| :: s[i] != s[j]
  }

  /** Where an element first occurs. */
  ghost function First<T>(s: seq<T>, x: T): (i: nat)
    requires x in s
    ensures i < |s| && s[i] == x && forall k | 0 <= k < i :: s[k] != x
  {
    if s[0] == x then 0
    else
      assert s == [s[0]] + s[1..];
      1 + First(s[1..], x)
  }

  lemma FirstIsUnique<T>(s: seq<T>, x: T, i: nat)
    requires i < |s| && s[i] == x && forall k | 0 <= k < i :: s[k] != x
    ensures First(s, x) == i
  {
  }

  /** The elements of one sequence come in the order of their first occurrences in another. */
  ghost predicate InOrderOf<T>(some: seq<T>, all: seq<T>) {
    && (forall i | 0 <= i < |some| :: some[i] in all)
    && forall i, j | 0 <= i < j < |some| :: First(all, some[i]) < First(all, some[j])
  }

  lemma FirstInMore<T>(all: seq<T>, x: T, last: T)
    requires x in all
    ensures First(all + [last], x) == First(all, x)
  {
    FirstIsUnique(all + [last], x, First(all, x));
  }

  lemma InOrderOfMore<T>(some: seq<T>, all: seq<T>, last: T)
    requires InOrderOf(some, all)
    ensures InOrderOf(some, all + [last])
  {
    forall i | 0 <= i < |some| ensures First(all + [last], some[i]) == First(all, some[i]) {
      FirstInMore(all, some[i], last);
    }
    hide First;
  }

  lemma InOrderWithNew<T>(some: seq<T>, all: seq<T>, last: T)
    requires InOrderOf(some, all) && last !in all
    ensures InOrderOf(some + [last], all + [last])
  {
    InOrderOfMore(some, all, last);
    FirstIsUnique(all + [last], last, |all|);
    forall i | 0 <= i < |some| ensures First(all + [last], some[i]) < |all| {
      FirstInMore(all, some[i], last);
    }
    hide First;
  }

  lemma AppendNew<T>(s: seq<T>, x: T)
    requires NoDuplicates(s) && x !in s
    ensures NoDuplicates(s + [x])
  {
  }

  /** Different elements of a sequence are no more than its length. */
  lemma {:induction false} NoMoreThan<T>(some: seq<T>, all: seq<T>)
    requires NoDuplicates(some) && forall x | x in some :: x in all
    ensures |some| <= |all|
  {
    if some != [] {
      var n := |some| - 1;
      assert some[n] in all;
      var i :| 0 <= i < |all| && all[i] == some[n];
      var rest := all[..i] + all[i + 1..];
      forall x | x in some[..n] ensures x in rest {
        var j :| 0 <= j < n && some[j] == x;
        assert some[j] in some && x in all;
        var k :| 0 <= k < |all| && all[k] == x;
        assert some[j] != some[n] && k != i;
        assert rest[if k < i then k else k - 1] == x;
      }
      NoMoreThan(some[..n], rest);
    }
  }

  // ----- Joining and cutting -----

  function Flatten<T>(parts: seq<seq<T>>): seq<T> {
    if parts == [] then [] else Flatten(parts[..|parts| - 1]) + parts[|parts| - 1]
  }

  lemma {:induction false} FlattenAppend<T>(a: seq<seq<T>>, b: seq<seq<T>>)
    ensures Flatten(a + b) == Flatten(a) + Flatten(b)
    decreases |b|
  {
    if b == [] {
      assert a + b == a;
    } else {
      var front, last := b[..|b| - 1], b[|b| - 1];
      FlattenAppend(a, front);
      FlattenOneMore(a + front, last);
      FlattenOneMore(front, last);
      hide Flatten;
      assert a + b == (a + front) + [last] && b == front + [last];
      assert (Flatten(a) + Flatten(front)) + last == Flatten(a) + (Flatten(front) + last);
    }
  }

  lemma FlattenOneMore<T>(parts: seq<seq<T>>, last: seq<T>)
    ensures Flatten(parts + [last]) == Flatten(parts) + last
  {
    assert (parts + [last])[..|parts|] == parts;
  }

  lemma FlattenCons<T>(first: seq<T>, rest: seq<seq<T>>)
    ensures Flatten([first] + rest) == first + Flatten(rest)
  {
    FlattenAppend([first], rest);
    assert [first][..0] == [];
  }

  ghost predicate AllOfLength<T>(parts: seq<seq<T>>, width: nat) {
    forall i | 0 <= i < |parts| :: |parts[i]| == width
  }

  lemma {:induction false} FlattenLength<T>(parts: seq<seq<T>>, width: nat)
    requires AllOfLength(parts, width)
    ensures |Flatten(parts)| == width * |parts|
  {
    if parts != [] {
      FlattenLength(parts[..|parts| - 1], width);
      assert width * |parts| == width * (|parts| - 1) + width;
    }
  }

  /** The whole pieces of `width` elements; what is left over is dropped. */
  function Chunks<T>(s: seq<T>, width: nat): (chunks: seq<seq<T>>)
    requires 1 <= width
    ensures forall i | 0 <= i < |chunks| :: |chunks[i]| == width
  {
    if |s| < width then [] else [s[..width]] + Chunks(s[width..], width)
  }

  lemma {:induction false} ChunkAt<T>(s: seq<T>, width: nat, i: nat)
    requires 1 <= width && i < |Chunks(s, width)|
    ensures width * i + width <= |s| && Chunks(s, width)[i] == s[width * i..width * i + width]
    decreases i
  {
    if i != 0 {
      ChunkAt(s[width..], width, i - 1);
      assert width * (i - 1) + width == width * i;
      assert s[width..][width * (i - 1)..width * i] == s[width * i..width * i + width];
    }
  }

  lemma {:induction false} FlattenOfChunks<T>(s: seq<T>, width: nat)
    requires 1 <= width
    ensures
      var n := |Flatten(Chunks(s, width))|;
      n <= |s| < n + width && Flatten(Chunks(s, width)) == s[..n]
    decreases |s|
  {
    if width <= |s| {
      var rest := Chunks(s[width..], width);
      FlattenOfChunks(s[width..], width);
      FlattenCons(s[..width], rest);
      assert s[..width] + s[width..][..|Flatten(rest)|] == s[..width + |Flatten(rest)|];
    }
  }

  lemma {:induction false} ChunksOfFlatten<T>(parts: seq<seq<T>>, width: nat, tail: seq<T>)
    requires 1 <= width && AllOfLength(parts, width) && |tail| < width
    ensures Chunks(Flatten(parts) + tail, width) == parts
    decreases |parts|
  {
    if parts != [] {
      assert parts == [parts[0]] + parts[1..];
      FlattenCons(parts[0], parts[1..]);
      ChunksOfFlatten(parts[1..], width, tail);
      var all := Flatten(parts) + tail;
      assert all[..width] == parts[0];
      assert all[width..] == Flatten(parts[1..]) + tail;
    }
  }
}
