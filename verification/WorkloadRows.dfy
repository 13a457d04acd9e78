/** What the rows of the workload and forecast tables count, in terms of the items and commitments themselves. */
module WorkloadRows {
  import opened Options
  import opened Seqs
  import opened Workload

  /** How often a person is among the owners of an item. */
  function Share(item: WorkItem, owner: string): nat {
    multiset(item.internalOwners)[owner]
  }

  /** The shares of a person in the items that meet a condition. */
  function InItems(items: seq<WorkItem>, owner: string, p: Detail -> bool): nat {
    if items == [] then 0
    else (if p(items[0].detail) then Share(items[0], owner) else 0) + InItems(items[1..], owner, p)
  }

  /** The commitments of a person that meet a condition. */
  function InCommitments(commitments: seq<Commitment>, owner: string, p: Detail -> bool): nat {
    if commitments == [] then 0
    else
      (if commitments[0].owner == owner && p(commitments[0].detail) then 1 else 0)
      + InCommitments(commitments[1..], owner, p)
  }

  predicate IsAny(d: Detail) { true }
  predicate IsUrgent(d: Detail) { d.attention }
  predicate IsUndated(d: Detail) { d.dueAt == None }

  function IsDueIn(from: int, to: int): Detail -> bool {
    (d: Detail) => d.dueAt.Some? && from <= d.dueAt.value < to
  }

  // ----- Counting assignments -----

  lemma {:induction false} CountAppend(a: seq<Assignment>, b: seq<Assignment>, owner: string, p: Assignment -> bool)
    ensures CountIf(a + b, owner, p) == CountIf(a, owner, p) + CountIf(b, owner, p)
    decreases |b|
  {
    if b == [] {
      assert a + b == a;
    } else {
      var front, last := b[..|b| - 1], b[|b| - 1];
      CountAppend(a, front, owner, p);
      OneMoreCounted(a + front, last, owner, p);
      OneMoreCounted(front, last, owner, p);
      hide CountIf;
      assert a + b == (a + front) + [last] && b == front + [last];
    }
  }

  lemma {:induction false} CountOfOwners(
    owners: seq<string>, detail: Detail, owner: string, p: Assignment -> bool, q: bool)
    requires forall x :: p(Assignment(x, false, detail)) == q
    ensures CountIf(OfItem(WorkItem(detail, owners)), owner, p) == if q then multiset(owners)[owner] else 0
  {
    var work := OfItem(WorkItem(detail, owners));
    if owners != [] {
      var front, last := owners[..|owners| - 1], owners[|owners| - 1];
      CountOfOwners(front, detail, owner, p, q);
      assert owners == front + [last];
      assert work == OfItem(WorkItem(detail, front)) + [Assignment(last, false, detail)];
      OneMoreCounted(OfItem(WorkItem(detail, front)), Assignment(last, false, detail), owner, p);
      hide CountIf, OfItem;
    }
  }

  lemma ItemsAppend(items: seq<WorkItem>, item: WorkItem)
    ensures OfItems(items + [item]) == OfItems(items) + OfItem(item)
  {
    assert (items + [item])[..|items|] == items;
  }

  lemma {:induction false} ItemsCons(item: WorkItem, items: seq<WorkItem>)
    ensures OfItems([item] + items) == OfItem(item) + OfItems(items)
    decreases |items|
  {
    hide OfItem;
    if items == [] {
      assert [item] + items == [] + [item];
      ItemsAppend([], item);
      assert OfItems([]) == [] && OfItem(item) + [] == OfItem(item) && [] + OfItem(item) == OfItem(item);
    } else {
      var front, last := items[..|items| - 1], items[|items| - 1];
      ItemsCons(item, front);
      ItemsAppend([item] + front, last);
      ItemsAppend(front, last);
      assert [item] + items == ([item] + front) + [last] && items == front + [last];
      hide OfItems;
      assert (OfItem(item) + OfItems(front)) + OfItem(last) == OfItem(item) + (OfItems(front) + OfItem(last));
    }
  }

  /** Operational assignments are counted by the items. */
  lemma {:induction false} CountOfItems(items: seq<WorkItem>, owner: string, p: Assignment -> bool, q: Detail -> bool)
    requires forall x, d :: p(Assignment(x, false, d)) == q(d)
    ensures CountIf(OfItems(items), owner, p) == InItems(items, owner, q)
  {
    hide CountIf, OfItem;
    if items == [] {
      NothingCounted(owner, p);
    } else {
      var item, rest := items[0], items[1..];
      assert items == [item] + rest;
      CountOfItems(rest, owner, p, q);
      ItemsCons(item, rest);
      CountAppend(OfItem(item), OfItems(rest), owner, p);
      CountOfOwners(item.internalOwners, item.detail, owner, p, q(item.detail));
    }
  }

  lemma NothingCounted(owner: string, p: Assignment -> bool)
    ensures CountIf([], owner, p) == 0 && OfItems([]) == []
  {
  }

  lemma CommitmentsCons(c: Commitment, rest: seq<Commitment>)
    ensures OfCommitments([c] + rest) == [Assignment(c.owner, true, c.detail.(updatedAt := 0))] + OfCommitments(rest)
  {
  }

  lemma OneCounted(a: Assignment, owner: string, p: Assignment -> bool)
    ensures CountIf([a], owner, p) == if a.owner == owner && p(a) then 1 else 0
  {
    assert [a][..0] == [];
  }

  lemma {:induction false} CountOfCommitments(
    commitments: seq<Commitment>, owner: string, p: Assignment -> bool, q: Detail -> bool)
    requires forall x, d: Detail :: p(Assignment(x, true, d.(updatedAt := 0))) == q(d)
    ensures CountIf(OfCommitments(commitments), owner, p) == InCommitments(commitments, owner, q)
  {
    hide CountIf;
    if commitments == [] {
      NothingCounted(owner, p);
      assert OfCommitments([]) == [];
    } else {
      var c, rest := commitments[0], commitments[1..];
      assert commitments == [c] + rest;
      CountOfCommitments(rest, owner, p, q);
      CommitmentsCons(c, rest);
      var a := Assignment(c.owner, true, c.detail.(updatedAt := 0));
      CountAppend([a], OfCommitments(rest), owner, p);
      OneCounted(a, owner, p);
      hide OfCommitments;
    }
  }

  lemma {:induction false} NoneInItems(items: seq<WorkItem>, owner: string)
    ensures InItems(items, owner, (d: Detail) => false) == 0
  {
    if items != [] { NoneInItems(items[1..], owner); }
  }

  lemma {:induction false} NoneInCommitments(commitments: seq<Commitment>, owner: string)
    ensures InCommitments(commitments, owner, (d: Detail) => false) == 0
  {
    if commitments != [] { NoneInCommitments(commitments[1..], owner); }
  }

  lemma Counted(items: seq<WorkItem>, commitments: seq<Commitment>, owner: string,
                p: Assignment -> bool, q: Detail -> bool, r: Detail -> bool)
    requires forall x, d :: p(Assignment(x, false, d)) == q(d)
    requires forall x, d: Detail :: p(Assignment(x, true, d.(updatedAt := 0))) == r(d)
    ensures CountIf(Assignments(items, commitments), owner, p)
      == InItems(items, owner, q) + InCommitments(commitments, owner, r)
  {
    hide CountIf, OfItems, OfCommitments, InItems, InCommitments;
    CountOfItems(items, owner, p, q);
    CountOfCommitments(commitments, owner, p, r);
    CountAppend(OfItems(items), OfCommitments(commitments), owner, p);
  }

  // ----- The details of a person -----

  function Copies(d: Detail, count: nat): seq<Detail> {
    seq(count, _ => d)
  }

  function ItemDetails(items: seq<WorkItem>, owner: string): seq<Detail> {
    if items == [] then [] else Copies(items[0].detail, Share(items[0], owner)) + ItemDetails(items[1..], owner)
  }

  /** A commitment is shown as updated at the epoch. */
  function CommitmentDetails(commitments: seq<Commitment>, owner: string): seq<Detail> {
    if commitments == [] then []
    else
      var c := commitments[0];
      (if c.owner == owner then [Detail(c.detail.id, c.detail.dueAt, 0, c.detail.attention)] else [])
      + CommitmentDetails(commitments[1..], owner)
  }

  lemma DetailsOneMore(work: seq<Assignment>, a: Assignment, owner: string)
    ensures DetailsOf(work + [a], owner) == DetailsOf(work, owner) + (if a.owner == owner then [a.detail] else [])
  {
    assert (work + [a])[..|work|] == work;
  }

  lemma {:induction false} DetailsAppend(a: seq<Assignment>, b: seq<Assignment>, owner: string)
    ensures DetailsOf(a + b, owner) == DetailsOf(a, owner) + DetailsOf(b, owner)
    decreases |b|
  {
    if b == [] {
      assert a + b == a && DetailsOf(a, owner) + [] == DetailsOf(a, owner);
    } else {
      var front, last := b[..|b| - 1], b[|b| - 1];
      DetailsAppend(a, front, owner);
      DetailsOneMore(a + front, last, owner);
      DetailsOneMore(front, last, owner);
      hide DetailsOf;
      assert a + b == (a + front) + [last] && b == front + [last];
      JoinedLast(DetailsOf(a, owner), DetailsOf(front, owner), if last.owner == owner then [last.detail] else []);
    }
  }

  lemma JoinedLast(a: seq<Detail>, b: seq<Detail>, c: seq<Detail>)
    ensures (a + b) + c == a + (b + c)
  {
  }

  lemma {:induction false} DetailsOfOwners(owners: seq<string>, detail: Detail, owner: string)
    ensures DetailsOf(OfItem(WorkItem(detail, owners)), owner) == Copies(detail, multiset(owners)[owner])
  {
    var work := OfItem(WorkItem(detail, owners));
    if owners != [] {
      var front, last := owners[..|owners| - 1], owners[|owners| - 1];
      DetailsOfOwners(front, detail, owner);
      assert owners == front + [last];
      assert work == OfItem(WorkItem(detail, front)) + [Assignment(last, false, detail)];
      DetailsOneMore(OfItem(WorkItem(detail, front)), Assignment(last, false, detail), owner);
      hide DetailsOf, OfItem;
    }
  }

  lemma {:induction false} DetailsOfItems(items: seq<WorkItem>, owner: string)
    ensures DetailsOf(OfItems(items), owner) == ItemDetails(items, owner)
  {
    hide DetailsOf, OfItem, Copies;
    if items == [] {
      NoDetails(owner);
    } else {
      var item, rest := items[0], items[1..];
      assert items == [item] + rest;
      DetailsOfItems(rest, owner);
      ItemsCons(item, rest);
      DetailsAppend(OfItem(item), OfItems(rest), owner);
      DetailsOfOwners(item.internalOwners, item.detail, owner);
    }
  }

  lemma NoDetails(owner: string)
    ensures DetailsOf([], owner) == [] && OfItems([]) == []
  {
  }

  lemma OneDetail(a: Assignment, owner: string)
    ensures DetailsOf([a], owner) == if a.owner == owner then [a.detail] else []
  {
    assert [a][..0] == [];
  }

  lemma {:induction false} DetailsOfCommitments(commitments: seq<Commitment>, owner: string)
    ensures DetailsOf(OfCommitments(commitments), owner) == CommitmentDetails(commitments, owner)
  {
    hide DetailsOf;
    if commitments == [] {
      NoDetails(owner);
      assert OfCommitments([]) == [];
    } else {
      var c, rest := commitments[0], commitments[1..];
      assert commitments == [c] + rest;
      DetailsOfCommitments(rest, owner);
      CommitmentsCons(c, rest);
      var a := Assignment(c.owner, true, c.detail.(updatedAt := 0));
      DetailsAppend([a], OfCommitments(rest), owner);
      OneDetail(a, owner);
      hide OfCommitments;
    }
  }

  // ----- The rows -----

  /**
   A person has a workload row exactly if some item or commitment is theirs, and the row counts their
   shares of the items, their commitments, and what needs attention of both, and lists the details of
   the items and then of the commitments, in order.
   */
  lemma LoadRowCounts(items: seq<WorkItem>, commitments: seq<Commitment>, owner: string)
    ensures
      var t := Loads(Assignments(items, commitments));
      var details := ItemDetails(items, owner) + CommitmentDetails(commitments, owner);
      && (owner in t.rows <==> details != [])
      && (owner in t.rows ==>
            var row := t.rows[owner];
            && row.operational == InItems(items, owner, IsAny)
            && row.commitments == InCommitments(commitments, owner, IsAny)
            && row.total == |details| && row.details == details
            && row.attention == InItems(items, owner, IsUrgent) + InCommitments(commitments, owner, IsUrgent))
  {
    hide CountIf, DetailsOf, Loads, OfItems, OfCommitments, InItems, InCommitments;
    var work, none := Assignments(items, commitments), (d: Detail) => false;
    LoadRows(work, owner);
    Counted(items, commitments, owner, IsOperational, IsAny, none);
    Counted(items, commitments, owner, IsCommitment, none, IsAny);
    Counted(items, commitments, owner, NeedsAttention, IsUrgent, IsUrgent);
    NoneInItems(items, owner);
    NoneInCommitments(commitments, owner);
    DetailsAppend(OfItems(items), OfCommitments(commitments), owner);
    DetailsOfItems(items, owner);
    DetailsOfCommitments(commitments, owner);
  }

  /** And a forecast row counts, week by week, what of both is due in it, and what has no date. */
  lemma PlanRowCounts(items: seq<WorkItem>, commitments: seq<Commitment>, bounds: seq<int>, owner: string, w: nat)
    requires AreWeeks(bounds) && w < 4
    ensures
      var t := Plans(Assignments(items, commitments), bounds);
      var due := IsDueIn(bounds[w], bounds[w + 1]);
      && (owner in t.rows <==> ItemDetails(items, owner) + CommitmentDetails(commitments, owner) != [])
      && (owner in t.rows ==>
            var row := t.rows[owner];
            && |row.weeks| == 4
            && row.weeks[w] == InItems(items, owner, due) + InCommitments(commitments, owner, due)
            && row.unscheduled == InItems(items, owner, IsUndated) + InCommitments(commitments, owner, IsUndated))
  {
    hide CountIf, DetailsOf, Plans, OfItems, OfCommitments, InItems, InCommitments;
    var work := Assignments(items, commitments);
    PlanRows(work, owner, bounds);
    Counted(items, commitments, owner, InWeek(bounds, w), IsDueIn(bounds[w], bounds[w + 1]),
            IsDueIn(bounds[w], bounds[w + 1]));
    Counted(items, commitments, owner, IsUnscheduled, IsUndated, IsUndated);
    DetailsAppend(OfItems(items), OfCommitments(commitments), owner);
    DetailsOfItems(items, owner);
    DetailsOfCommitments(commitments, owner);
  }
}
