/**
 The workload and forecast tables of the operations overview: two aggregations of the
 same work, by owner, that must agree.
 */
module Workload {
  import opened Options
  import opened Seqs
  import opened Sorting

  datatype Detail = Detail(id: string, dueAt: Option<int>, updatedAt: int, attention: bool)

  datatype WorkItem = WorkItem(detail: Detail, internalOwners: seq<string>)

  datatype Commitment = Commitment(owner: string, detail: Detail)

  /** One piece of work in one person's hands. */
  datatype Assignment = Assignment(owner: string, commitment: bool, detail: Detail)

  function OfItem(item: WorkItem): seq<Assignment> {
    seq(|item.internalOwners|, i requires 0 <= i < |item.internalOwners| =>
      Assignment(item.internalOwners[i], false, item.detail))
  }

  function OfItems(items: seq<WorkItem>): seq<Assignment> {
    if items == [] then [] else OfItems(items[..|items| - 1]) + OfItem(items[|items| - 1])
  }

  /** A commitment carries no update time of its own; the epoch stands in for it. */
  function OfCommitments(commitments: seq<Commitment>): seq<Assignment> {
    seq(|commitments|, i requires 0 <= i < |commitments| =>
      Assignment(commitments[i].owner, true, commitments[i].detail.(updatedAt := 0)))
  }

  function Assignments(items: seq<WorkItem>, commitments: seq<Commitment>): seq<Assignment> {
    OfItems(items) + OfCommitments(commitments)
  }

  // ----- Tables keyed by owner, in the order the owners first appear -----

  datatype Table<V> = Table(owners: seq<string>, rows: map<string, V>)

  function Set<V>(t: Table<V>, owner: string, row: V): Table<V> {
    Table(if owner in t.rows then t.owners else t.owners + [owner], t.rows[owner := row])
  }

  ghost predicate WellFormed<V>(t: Table<V>) {
    NoDuplicates(t.owners) && forall o :: o in t.owners <==> o in t.rows
  }

  // ----- The workload -----

  datatype Load = Load(operational: nat, commitments: nat, total: nat, attention: nat, details: seq<Detail>)

  function AddLoad(t: Table<Load>, a: Assignment): Table<Load> {
    var row := if a.owner in t.rows then t.rows[a.owner] else Load(0, 0, 0, 0, []);
    Set(t, a.owner, Load(
      if a.commitment then row.operational else row.operational + 1,
      if a.commitment then row.commitments + 1 else row.commitments,
      row.total + 1,
      if a.detail.attention then row.attention + 1 else row.attention,
      row.details + [a.detail]))
  }

  function Loads(work: seq<Assignment>): Table<Load> {
    if work == [] then Table([], map[]) else AddLoad(Loads(work[..|work| - 1]), work[|work| - 1])
  }

  lemma OneMoreLoad(work: seq<Assignment>, a: Assignment)
    ensures Loads(work + [a]) == AddLoad(Loads(work), a)
  {
    assert (work + [a])[..|work|] == work;
  }

  method AddItemLoads(work: Table<Load>, item: WorkItem, ghost done: seq<Assignment>) returns (more: Table<Load>)
    requires work == Loads(done)
    ensures more == Loads(done + OfItem(item))
  {
    hide Loads, AddLoad;
    more := work;
    assert done + OfItem(item)[..0] == done;
    for j := 0 to |item.internalOwners|
      invariant more == Loads(done + OfItem(item)[..j])
    {
      var a := Assignment(item.internalOwners[j], false, item.detail);
      OneMoreLoad(done + OfItem(item)[..j], a);
      assert done + OfItem(item)[..j + 1] == done + OfItem(item)[..j] + [a];
      more := AddLoad(more, a);
    }
    assert OfItem(item)[..|item.internalOwners|] == OfItem(item);
  }

  method AddCommitmentLoads(work: Table<Load>, commitments: seq<Commitment>, ghost done: seq<Assignment>)
    returns (more: Table<Load>)
    requires work == Loads(done)
    ensures more == Loads(done + OfCommitments(commitments))
  {
    hide Loads, AddLoad;
    more := work;
    assert done + OfCommitments(commitments)[..0] == done;
    for i := 0 to |commitments|
      invariant more == Loads(done + OfCommitments(commitments)[..i])
    {
      var a := Assignment(commitments[i].owner, true, commitments[i].detail.(updatedAt := 0));
      OneMoreLoad(done + OfCommitments(commitments)[..i], a);
      assert done + OfCommitments(commitments)[..i + 1] == done + OfCommitments(commitments)[..i] + [a];
      more := AddLoad(more, a);
    }
    assert OfCommitments(commitments)[..|commitments|] == OfCommitments(commitments);
  }

  method BuildWorkload(items: seq<WorkItem>, commitments: seq<Commitment>) returns (work: Table<Load>)
    ensures work == Loads(Assignments(items, commitments))
  {
    hide AddLoad, OfItem, OfCommitments;
    work := Table([], map[]);
    for i := 0 to |items|
      invariant work == Loads(OfItems(items[..i]))
    {
      work := AddItemLoads(work, items[i], OfItems(items[..i]));
      assert items[..i + 1][..i] == items[..i];
    }
    assert items[..|items|] == items;
    work := AddCommitmentLoads(work, commitments, OfItems(items));
  }

  // ----- The forecast -----

  /** The starts of the four weeks and the end of the last: each week ends where the next begins. */
  ghost predicate AreWeeks(bounds: seq<int>) {
    |bounds| == 5 && forall i | 0 <= i < 4 :: bounds[i] < bounds[i + 1]
  }

  datatype Plan = Plan(weeks: seq<nat>, unscheduled: nat)

  /** `weeks.findIndex(...)` */
  function WeekOf(bounds: seq<int>, dueAt: int, from: nat): (i: int)
    requires |bounds| == 5 && from <= 4
    decreases 4 - from
  {
    if from == 4 then -1
    else if bounds[from] <= dueAt < bounds[from + 1] then from
    else WeekOf(bounds, dueAt, from + 1)
  }

  function PlanWith(row: Plan, dueAt: Option<int>, bounds: seq<int>): Plan
    requires |bounds| == 5
  {
    if dueAt.None? then row.(unscheduled := row.unscheduled + 1)
    else
      var index := WeekOf(bounds, dueAt.value, 0);
      if 0 <= index < |row.weeks| then row.(weeks := row.weeks[index := row.weeks[index] + 1]) else row
  }

  function AddPlan(t: Table<Plan>, a: Assignment, bounds: seq<int>): Table<Plan>
    requires |bounds| == 5
  {
    var row := if a.owner in t.rows then t.rows[a.owner] else Plan([0, 0, 0, 0], 0);
    Set(t, a.owner, PlanWith(row, a.detail.dueAt, bounds))
  }

  function Plans(work: seq<Assignment>, bounds: seq<int>): Table<Plan>
    requires |bounds| == 5
  {
    if work == [] then Table([], map[]) else AddPlan(Plans(work[..|work| - 1], bounds), work[|work| - 1], bounds)
  }

  lemma OneMorePlan(work: seq<Assignment>, a: Assignment, bounds: seq<int>)
    requires |bounds| == 5
    ensures Plans(work + [a], bounds) == AddPlan(Plans(work, bounds), a, bounds)
  {
    assert (work + [a])[..|work|] == work;
  }

  method AddItemPlans(plan: Table<Plan>, item: WorkItem, bounds: seq<int>, ghost done: seq<Assignment>)
    returns (more: Table<Plan>)
    requires |bounds| == 5 && plan == Plans(done, bounds)
    ensures more == Plans(done + OfItem(item), bounds)
  {
    hide Plans, AddPlan;
    more := plan;
    assert done + OfItem(item)[..0] == done;
    for j := 0 to |item.internalOwners|
      invariant more == Plans(done + OfItem(item)[..j], bounds)
    {
      var a := Assignment(item.internalOwners[j], false, item.detail);
      OneMorePlan(done + OfItem(item)[..j], a, bounds);
      assert done + OfItem(item)[..j + 1] == done + OfItem(item)[..j] + [a];
      more := AddPlan(more, a, bounds);
    }
    assert OfItem(item)[..|item.internalOwners|] == OfItem(item);
  }

  method AddCommitmentPlans(
    plan: Table<Plan>, commitments: seq<Commitment>, bounds: seq<int>, ghost done: seq<Assignment>)
    returns (more: Table<Plan>)
    requires |bounds| == 5 && plan == Plans(done, bounds)
    ensures more == Plans(done + OfCommitments(commitments), bounds)
  {
    hide Plans, AddPlan;
    more := plan;
    assert done + OfCommitments(commitments)[..0] == done;
    for i := 0 to |commitments|
      invariant more == Plans(done + OfCommitments(commitments)[..i], bounds)
    {
      var a := Assignment(commitments[i].owner, true, commitments[i].detail.(updatedAt := 0));
      OneMorePlan(done + OfCommitments(commitments)[..i], a, bounds);
      assert done + OfCommitments(commitments)[..i + 1] == done + OfCommitments(commitments)[..i] + [a];
      more := AddPlan(more, a, bounds);
    }
    assert OfCommitments(commitments)[..|commitments|] == OfCommitments(commitments);
  }

  method BuildForecast(items: seq<WorkItem>, commitments: seq<Commitment>, bounds: seq<int>) returns (plan: Table<Plan>)
    requires |bounds| == 5
    ensures plan == Plans(Assignments(items, commitments), bounds)
  {
    hide AddPlan, OfItem, OfCommitments;
    plan := Table([], map[]);
    for i := 0 to |items|
      invariant plan == Plans(OfItems(items[..i]), bounds)
    {
      plan := AddItemPlans(plan, items[i], bounds, OfItems(items[..i]));
      assert items[..i + 1][..i] == items[..i];
    }
    assert items[..|items|] == items;
    plan := AddCommitmentPlans(plan, commitments, bounds, OfItems(items));
  }

  // ----- What the rows mean -----

  /** The details of an owner's assignments, in order. */
  function DetailsOf(work: seq<Assignment>, owner: string): seq<Detail> {
    if work == [] then []
    else
      var n := |work| - 1;
      DetailsOf(work[..n], owner) + (if work[n].owner == owner then [work[n].detail] else [])
  }

  function CountIf(work: seq<Assignment>, owner: string, p: Assignment -> bool): nat {
    if work == [] then 0
    else
      var n := |work| - 1;
      CountIf(work[..n], owner, p) + (if work[n].owner == owner && p(work[n]) then 1 else 0)
  }

  predicate IsCommitment(a: Assignment) { a.commitment }
  predicate IsOperational(a: Assignment) { !a.commitment }
  predicate NeedsAttention(a: Assignment) { a.detail.attention }
  predicate IsUnscheduled(a: Assignment) { a.detail.dueAt.None? }

  /** Dated, but before the first week or after the last. */
  function Outside(bounds: seq<int>): Assignment -> bool
    requires |bounds| == 5
  {
    (a: Assignment) => a.detail.dueAt.Some? && !(bounds[0] <= a.detail.dueAt.value < bounds[4])
  }

  function InWeek(bounds: seq<int>, w: nat): Assignment -> bool
    requires |bounds| == 5 && w < 4
  {
    (a: Assignment) => a.detail.dueAt.Some? && bounds[w] <= a.detail.dueAt.value < bounds[w + 1]
  }

  /** What a workload row counts. */
  function LoadOf(work: seq<Assignment>, owner: string): Load {
    Load(CountIf(work, owner, IsOperational), CountIf(work, owner, IsCommitment), |DetailsOf(work, owner)|,
         CountIf(work, owner, NeedsAttention), DetailsOf(work, owner))
  }

  lemma {:induction false} LoadRows(work: seq<Assignment>, owner: string)
    ensures WellFormed(Loads(work))
    ensures owner in Loads(work).rows <==> DetailsOf(work, owner) != []
    ensures owner in Loads(work).rows ==> Loads(work).rows[owner] == LoadOf(work, owner)
    ensures DetailsOf(work, owner) == [] ==> LoadOf(work, owner) == Load(0, 0, 0, 0, [])
  {
    if work != [] {
      var n := |work| - 1;
      LoadRows(work[..n], owner);
      SetKeepsWellFormed(Loads(work[..n]), work[n].owner, Loads(work).rows[work[n].owner]);
      hide WellFormed;
    }
  }

  lemma SetKeepsWellFormed<V>(t: Table<V>, owner: string, row: V)
    requires WellFormed(t)
    ensures WellFormed(Set(t, owner, row))
  {
    if owner !in t.rows {
      AppendNew(t.owners, owner);
    }
  }

  lemma {:induction false} TotalSplits(work: seq<Assignment>, owner: string)
    ensures CountIf(work, owner, IsOperational) + CountIf(work, owner, IsCommitment) == |DetailsOf(work, owner)|
  {
    if work != [] {
      TotalSplits(work[..|work| - 1], owner);
    }
  }

  /** For every owner, the total is the operational work and the commitments, and the number of details listed. */
  lemma TotalsAddUp(work: seq<Assignment>, owner: string)
    requires owner in Loads(work).rows
    ensures
      var row := Loads(work).rows[owner];
      && row.total == row.operational + row.commitments == |row.details|
      && row.attention <= row.total
      && row.details == DetailsOf(work, owner)
  {
    LoadRows(work, owner);
    TotalSplits(work, owner);
    AttentionIsPart(work, owner);
  }

  lemma {:induction false} AttentionIsPart(work: seq<Assignment>, owner: string)
    ensures CountIf(work, owner, NeedsAttention) <= |DetailsOf(work, owner)|
  {
    if work != [] { AttentionIsPart(work[..|work| - 1], owner); }
  }

  // ----- The two tables agree -----

  lemma WeekFound(bounds: seq<int>, dueAt: int)
    requires AreWeeks(bounds)
    ensures
      var i := WeekOf(bounds, dueAt, 0);
      && (i == -1 || 0 <= i < 4)
      && (i == -1 <==> !(bounds[0] <= dueAt < bounds[4]))
      && forall w | 0 <= w < 4 :: i == w <==> bounds[w] <= dueAt < bounds[w + 1]
  {
    assert bounds[0] < bounds[1] < bounds[2] < bounds[3] < bounds[4];
    assert WeekOf(bounds, dueAt, 3) == if bounds[3] <= dueAt < bounds[4] then 3 else -1;
    assert WeekOf(bounds, dueAt, 2) == if bounds[2] <= dueAt < bounds[3] then 2 else WeekOf(bounds, dueAt, 3);
  }

  function PlanOf(work: seq<Assignment>, owner: string, bounds: seq<int>): Plan
    requires |bounds| == 5
  {
    Plan([CountIf(work, owner, InWeek(bounds, 0)), CountIf(work, owner, InWeek(bounds, 1)),
          CountIf(work, owner, InWeek(bounds, 2)), CountIf(work, owner, InWeek(bounds, 3))],
         CountIf(work, owner, IsUnscheduled))
  }

  lemma OneMoreCounted(work: seq<Assignment>, a: Assignment, owner: string, p: Assignment -> bool)
    ensures CountIf(work + [a], owner, p) == CountIf(work, owner, p) + (if a.owner == owner && p(a) then 1 else 0)
  {
    assert (work + [a])[..|work|] == work;
  }

  lemma PlanOfOneMore(work: seq<Assignment>, a: Assignment, owner: string, bounds: seq<int>)
    requires |bounds| == 5
    ensures
      var p, q := PlanOf(work, owner, bounds), PlanOf(work + [a], owner, bounds);
      && (a.owner != owner ==> q == p)
      && q.unscheduled == p.unscheduled + (if a.owner == owner && IsUnscheduled(a) then 1 else 0)
      && forall w | 0 <= w < 4 :: q.weeks[w] == p.weeks[w] + (if a.owner == owner && InWeek(bounds, w)(a) then 1 else 0)
  {
    OneMoreCounted(work, a, owner, InWeek(bounds, 0));
    OneMoreCounted(work, a, owner, InWeek(bounds, 1));
    OneMoreCounted(work, a, owner, InWeek(bounds, 2));
    OneMoreCounted(work, a, owner, InWeek(bounds, 3));
    OneMoreCounted(work, a, owner, IsUnscheduled);
  }

  lemma PlanWithCounts(work: seq<Assignment>, a: Assignment, bounds: seq<int>)
    requires AreWeeks(bounds)
    ensures PlanOf(work + [a], a.owner, bounds) == PlanWith(PlanOf(work, a.owner, bounds), a.detail.dueAt, bounds)
  {
    PlanOfOneMore(work, a, a.owner, bounds);
    if a.detail.dueAt.Some? {
      WeekFound(bounds, a.detail.dueAt.value);
    }
    hide CountIf, WeekOf;
  }

  /** A forecast row counts, week by week, the owner's assignments due in it. */
  lemma {:induction false} PlanRows(work: seq<Assignment>, owner: string, bounds: seq<int>)
    requires AreWeeks(bounds)
    ensures owner in Plans(work, bounds).rows <==> DetailsOf(work, owner) != []
    ensures owner in Plans(work, bounds).rows ==> Plans(work, bounds).rows[owner] == PlanOf(work, owner, bounds)
    ensures DetailsOf(work, owner) == [] ==> PlanOf(work, owner, bounds) == Plan([0, 0, 0, 0], 0)
  {
    hide PlanWith;
    if work != [] {
      var before, a := work[..|work| - 1], work[|work| - 1];
      assert work == before + [a];
      PlanRows(before, owner, bounds);
      PlanOfOneMore(before, a, owner, bounds);
      PlanWithCounts(before, a, bounds);
      hide PlanOf;
    }
  }

  function Planned(p: Plan): nat {
    Sum(p.weeks)
  }

  function Sum(s: seq<nat>): nat {
    if s == [] then 0 else Sum(s[..|s| - 1]) + s[|s| - 1]
  }

  lemma SumOfFour(a: nat, b: nat, c: nat, d: nat)
    ensures Sum([a, b, c, d]) == a + b + c + d
  {
    assert [a][..0] == [] && Sum([a]) == a;
    assert [a, b][..1] == [a] && Sum([a, b]) == a + b;
    assert [a, b, c][..2] == [a, b] && Sum([a, b, c]) == a + b + c;
    assert [a, b, c, d][..3] == [a, b, c];
  }

  lemma {:induction false} EveryAssignmentHasItsPlace(work: seq<Assignment>, owner: string, bounds: seq<int>)
    requires AreWeeks(bounds)
    ensures Planned(PlanOf(work, owner, bounds))
      + CountIf(work, owner, IsUnscheduled) + CountIf(work, owner, Outside(bounds))
      == |DetailsOf(work, owner)|
  {
    var p := PlanOf(work, owner, bounds);
    SumOfFour(p.weeks[0], p.weeks[1], p.weeks[2], p.weeks[3]);
    if work != [] {
      var n := |work| - 1;
      var before, a := work[..n], work[n];
      assert work == before + [a];
      EveryAssignmentHasItsPlace(before, owner, bounds);
      var q := PlanOf(before, owner, bounds);
      SumOfFour(q.weeks[0], q.weeks[1], q.weeks[2], q.weeks[3]);
      PlanOfOneMore(before, a, owner, bounds);
      OneMoreCounted(before, a, owner, Outside(bounds));
      if a.detail.dueAt.Some? {
        WeekFound(bounds, a.detail.dueAt.value);
      }
      hide CountIf, Sum, PlanOf;
    }
  }

  /**
   The two tables list the same owners, and for each of them the workload total is what
   the forecast plans, leaves unscheduled or finds outside its four weeks.
   */
  lemma WorkloadAndForecastAgree(items: seq<WorkItem>, commitments: seq<Commitment>, bounds: seq<int>, owner: string)
    requires AreWeeks(bounds)
    ensures
      var work := Assignments(items, commitments);
      && (owner in Loads(work).rows <==> owner in Plans(work, bounds).rows)
      && (owner in Loads(work).rows ==>
            var plan := Plans(work, bounds).rows[owner];
            Loads(work).rows[owner].total == Planned(plan) + plan.unscheduled + CountIf(work, owner, Outside(bounds)))
  {
    var work := Assignments(items, commitments);
    LoadRows(work, owner);
    PlanRows(work, owner, bounds);
    EveryAssignmentHasItsPlace(work, owner, bounds);
  }

  // ----- Conservation -----

  function Totals(t: Table<Load>): seq<nat> {
    seq(|t.owners|, i requires 0 <= i < |t.owners| => if t.owners[i] in t.rows then t.rows[t.owners[i]].total else 0)
  }

  lemma {:induction false} SumUpdate(s: seq<nat>, i: nat, x: nat)
    requires i < |s|
    ensures Sum(s[i := x]) == Sum(s) - s[i] + x
  {
    var n := |s| - 1;
    if i == n {
      assert s[i := x][..n] == s[..n];
    } else {
      assert s[i := x][..n] == s[..n][i := x];
      SumUpdate(s[..n], i, x);
    }
  }

  lemma AddLoadAddsOne(t: Table<Load>, a: Assignment)
    requires WellFormed(t)
    ensures Sum(Totals(AddLoad(t, a))) == Sum(Totals(t)) + 1
  {
    var u := AddLoad(t, a);
    if a.owner in t.rows {
      var i :| 0 <= i < |t.owners| && t.owners[i] == a.owner;
      TotalsOfKnown(t, a, i);
      SumUpdate(Totals(t), i, t.rows[a.owner].total + 1);
    } else {
      TotalsOfNew(t, a);
      assert (Totals(t) + [1])[..|Totals(t)|] == Totals(t);
    }
    hide Totals, AddLoad, WellFormed;
  }

  lemma TotalsOfKnown(t: Table<Load>, a: Assignment, i: nat)
    requires WellFormed(t) && i < |t.owners| && t.owners[i] == a.owner && a.owner in t.rows
    ensures Totals(AddLoad(t, a)) == Totals(t)[i := t.rows[a.owner].total + 1]
  {
  }

  lemma TotalsOfNew(t: Table<Load>, a: Assignment)
    requires WellFormed(t) && a.owner !in t.rows
    ensures Totals(AddLoad(t, a)) == Totals(t) + [1]
  {
    assert forall i | 0 <= i < |t.owners| :: t.owners[i] in t.owners && t.owners[i] != a.owner;
  }

  lemma {:induction false} TotalsSumToAssignments(work: seq<Assignment>)
    ensures Sum(Totals(Loads(work))) == |work|
  {
    if work != [] {
      var n := |work| - 1;
      TotalsSumToAssignments(work[..n]);
      LoadRows(work[..n], "");
      AddLoadAddsOne(Loads(work[..n]), work[n]);
    }
  }

  function OwnerCounts(items: seq<WorkItem>): seq<nat> {
    seq(|items|, i requires 0 <= i < |items| => |items[i].internalOwners|)
  }

  lemma {:induction false} AssignmentsPerItem(items: seq<WorkItem>)
    ensures |OfItems(items)| == Sum(OwnerCounts(items))
  {
    if items != [] {
      AssignmentsPerItem(items[..|items| - 1]);
      assert OwnerCounts(items)[..|items| - 1] == OwnerCounts(items[..|items| - 1]);
    }
  }

  /** Nothing is lost or counted twice: the totals sum to all pairs of item and owner plus all commitments. */
  lemma WorkIsConserved(items: seq<WorkItem>, commitments: seq<Commitment>)
    ensures Sum(Totals(Loads(Assignments(items, commitments)))) == Sum(OwnerCounts(items)) + |commitments|
  {
    TotalsSumToAssignments(Assignments(items, commitments));
    AssignmentsPerItem(items);
  }

  // ----- The order of the details -----

  function DateRank(d: Detail): int {
    if d.dueAt.Some? then d.dueAt.value else d.updatedAt
  }

  /** By which time a detail is placed: when it is due, or else when it was last updated. */
  function PlacedAt(d: Detail): int {
    match d.dueAt
    case Some(due) => due
    case None => d.updatedAt
  }

  /** Sorting the details of a row by date keeps them all, in the order of their dates. */
  lemma SortedDetailsAreTheSame(work: seq<Assignment>, owner: string)
    requires owner in Loads(work).rows
    ensures
      var row := Loads(work).rows[owner];
      var shown := Sort(row.details, DateRank);
      && |shown| == row.total && multiset(shown) == multiset(DetailsOf(work, owner))
      && forall i, j | 0 <= i < j < |shown| :: PlacedAt(shown[i]) <= PlacedAt(shown[j])
  {
    hide Sort, Loads, DetailsOf;
    TotalsAddUp(work, owner);
    var details := Loads(work).rows[owner].details;
    SortIsStable(details, DateRank);
    SortKeepsAll(details, DateRank);
    var shown := Sort(details, DateRank);
    forall i, j | 0 <= i < j < |shown| ensures PlacedAt(shown[i]) <= PlacedAt(shown[j]) {
      assert DateRank(shown[i]) <= DateRank(shown[j]);
    }
  }
}
