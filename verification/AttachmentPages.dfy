/** What a page of the quarantine list and the rescan queue hold, by the times of their rows. */
module AttachmentPages {
  import opened AttachmentLists
  import opened Seqs
  import opened Sorting

  /** The rows of one moment, in order. */
  function OfMoment(rows: seq<Item>, moment: int): seq<Item> {
    if rows == [] then []
    else if rows[0].createdAt == moment then [rows[0]] + OfMoment(rows[1..], moment)
    else OfMoment(rows[1..], moment)
  }

  ghost predicate SameMoments(all: seq<Item>, rows: seq<Item>) {
    && |all| == |rows|
    && (forall x :: x in all <==> x in rows)
    && forall moment :: OfMoment(all, moment) == OfMoment(rows, moment)
  }

  /** The same rows, newest first, those of one moment in the order they had. */
  ghost predicate NewestFirst(all: seq<Item>, rows: seq<Item>) {
    && SameMoments(all, rows)
    && forall i, j | 0 <= i < j < |all| :: all[j].createdAt <= all[i].createdAt
  }

  ghost predicate OldestFirst(all: seq<Item>, rows: seq<Item>) {
    && SameMoments(all, rows)
    && forall i, j | 0 <= i < j < |all| :: all[i].createdAt <= all[j].createdAt
  }

  lemma {:induction false} MomentsAreRanks(rows: seq<Item>, moment: int)
    ensures OfMoment(rows, moment) == OfRank(rows, Newest, -moment) == OfRank(rows, Oldest, moment)
  {
    if rows != [] { MomentsAreRanks(rows[1..], moment); }
  }

  lemma SortedMoments(rows: seq<Item>, rank: Item -> int)
    requires rank == Newest || rank == Oldest
    ensures SameMoments(Sort(rows, rank), rows)
  {
    hide Sort, OfRank, OfMoment;
    SortIsStable(rows, rank);
    forall moment ensures OfMoment(Sort(rows, rank), moment) == OfMoment(rows, moment) {
      MomentsAreRanks(rows, moment);
      MomentsAreRanks(Sort(rows, rank), moment);
    }
  }

  lemma SortedNewest(rows: seq<Item>)
    ensures NewestFirst(Sort(rows, Newest), rows)
  {
    hide Sort, SameMoments;
    SortedMoments(rows, Newest);
    SortIsStable(rows, Newest);
    var all := Sort(rows, Newest);
    forall i, j | 0 <= i < j < |all| ensures all[j].createdAt <= all[i].createdAt {
      assert Newest(all[i]) <= Newest(all[j]);
    }
  }

  lemma SortedOldest(rows: seq<Item>)
    ensures OldestFirst(Sort(rows, Oldest), rows)
  {
    hide Sort, SameMoments;
    SortedMoments(rows, Oldest);
    SortIsStable(rows, Oldest);
    var all := Sort(rows, Oldest);
    forall i, j | 0 <= i < j < |all| ensures all[i].createdAt <= all[j].createdAt {
      assert Oldest(all[i]) <= Oldest(all[j]);
    }
  }

  /** A page of a list: the rows from (page - 1) * pageSize on, at most pageSize of them. */
  ghost predicate IsPage(items: seq<Item>, all: seq<Item>, page: nat, pageSize: nat) {
    var from := (page - 1) * pageSize;
    && 0 <= from
    && |items| == (if |all| <= from then 0 else if |all| - from <= pageSize then |all| - from else pageSize)
    && forall i | 0 <= i < |items| :: items[i] == all[from + i]
  }

  lemma SliceIsPage(all: seq<Item>, page: nat, pageSize: nat)
    requires 1 <= page && 1 <= pageSize
    ensures 0 <= (page - 1) * pageSize
    ensures IsPage(Slice(all, (page - 1) * pageSize, page * pageSize), all, page, pageSize)
  {
    FromPage(page, pageSize);
    assert page * pageSize == (page - 1) * pageSize + pageSize;
  }

  /** The first rows of a query, as many as asked for. */
  ghost predicate AreFirst(some: seq<Item>, all: seq<Item>, count: nat) {
    some <= all && |some| == if |all| <= count then |all| else count
  }

  function TicketsOf(tickets: seq<Item>, filter: Filter): seq<Item> {
    match filter
    case All => tickets
    case TicketsOnly => tickets
    case EventsOnly => []
  }

  function EventsOf(events: seq<Item>, filter: Filter): seq<Item> {
    match filter
    case All => events
    case TicketsOnly => []
    case EventsOnly => events
  }

  /**
   What the list answers: the page of the newest-first list of the first 500 tickets and the first 500
   events that the filter lets through, and the number of all that it lets through.
   */
  lemma QuarantinePage(tickets: seq<Item>, events: seq<Item>, filter: Filter, page: nat, pageSize: nat)
    requires 1 <= page && 1 <= pageSize
    ensures
      var r := ListQuarantine(tickets, events, filter, page, pageSize);
      var t, e := TicketsOf(tickets, filter), EventsOf(events, filter);
      && r.total == |t| + |e|
      && exists some, others, all ::
           AreFirst(some, t, 500) && AreFirst(others, e, 500) && NewestFirst(all, some + others)
           && IsPage(r.items, all, page, pageSize)
  {
    hide Sort, NewestFirst, IsPage, Slice;
    var t, e := Tickets(tickets, filter), Events(events, filter);
    var some, others := Take(t, 500), Take(e, 500);
    SortedNewest(some + others);
    SliceIsPage(Sort(some + others, Newest), page, pageSize);
    assert AreFirst(some, TicketsOf(tickets, filter), 500) && AreFirst(others, EventsOf(events, filter), 500);
  }

  /** What the page would be with no limit on the queries. */
  lemma WholePage(tickets: seq<Item>, events: seq<Item>, filter: Filter, page: nat, pageSize: nat)
    requires 1 <= page && 1 <= pageSize
    ensures
      var r := FullPage(tickets, events, filter, page, pageSize);
      var t, e := TicketsOf(tickets, filter), EventsOf(events, filter);
      && r.total == |t| + |e|
      && exists all :: NewestFirst(all, t + e) && IsPage(r.items, all, page, pageSize)
  {
    hide Sort, NewestFirst, IsPage, Slice;
    var rows := Tickets(tickets, filter) + Events(events, filter);
    SortedNewest(rows);
    SliceIsPage(Sort(rows, Newest), page, pageSize);
    assert rows == TicketsOf(tickets, filter) + EventsOf(events, filter);
  }

  /** What the queue holds, when the queries give the oldest first: the first rows of the oldest-first list of all. */
  lemma QueueIsTheOldest(tickets: seq<Item>, events: seq<Item>, filter: Filter, limit: nat)
    requires forall i, j | 0 <= i < j < |tickets| :: tickets[i].createdAt <= tickets[j].createdAt
    requires forall i, j | 0 <= i < j < |events| :: events[i].createdAt <= events[j].createdAt
    ensures
      exists all ::
        && OldestFirst(all, TicketsOf(tickets, filter) + EventsOf(events, filter))
        && AreFirst(PendingScanTargets(tickets, events, filter, limit), all, limit)
  {
    hide Sort, OldestFirst;
    var rows := Tickets(tickets, filter) + Events(events, filter);
    assert Ordered(tickets, events, Oldest);
    TargetsAreTheOldest(tickets, events, filter, limit);
    SortedOldest(rows);
    assert rows == TicketsOf(tickets, filter) + EventsOf(events, filter);
  }
}
