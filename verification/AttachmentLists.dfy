/**
 The quarantine list and the queue of attachments to rescan. Each is put together
 from the beginnings of two ordered queries, one over ticket attachments and one
 over event attachments.
 */
module AttachmentLists {
  import opened Seqs
  import opened Sorting

  datatype Kind = TicketFile | EventFile
  datatype Item = Item(id: string, kind: Kind, createdAt: int)
  datatype Filter = All | TicketsOnly | EventsOnly
  datatype Page = Page(items: seq<Item>, total: nat)

  const QUARANTINE_LIMIT := 500

  function Newest(item: Item): int { -item.createdAt }

  function Oldest(item: Item): int { item.createdAt }

  /** The two query results, in the order the database gives them. */
  ghost predicate Ordered(tickets: seq<Item>, events: seq<Item>, rank: Item -> int) {
    Sorted(tickets, rank) && Sorted(events, rank)
  }

  function Tickets(tickets: seq<Item>, filter: Filter): seq<Item> {
    if filter == EventsOnly then [] else tickets
  }

  function Events(events: seq<Item>, filter: Filter): seq<Item> {
    if filter == TicketsOnly then [] else events
  }

  /** One page, from at most 500 rows of either kind; the total counts all rows. */
  function ListQuarantine(tickets: seq<Item>, events: seq<Item>, filter: Filter, page: nat, pageSize: nat): Page
    requires 1 <= page && 1 <= pageSize
  {
    var t, e := Tickets(tickets, filter), Events(events, filter);
    var items := Sort(Take(t, QUARANTINE_LIMIT) + Take(e, QUARANTINE_LIMIT), Newest);
    Page(Slice(items, (page - 1) * pageSize, page * pageSize), |t| + |e|)
  }

  /** The page as it would be cut from all the rows. */
  function FullPage(tickets: seq<Item>, events: seq<Item>, filter: Filter, page: nat, pageSize: nat): Page
    requires 1 <= page && 1 <= pageSize
  {
    var t, e := Tickets(tickets, filter), Events(events, filter);
    Page(Slice(Sort(t + e, Newest), (page - 1) * pageSize, page * pageSize), |t| + |e|)
  }

  lemma TakeSorted(s: seq<Item>, k: nat, rank: Item -> int)
    requires Sorted(s, rank)
    ensures Sorted(Take(s, k), rank)
  {
  }

  lemma FromPage(page: nat, pageSize: nat)
    requires 1 <= page && 1 <= pageSize
    ensures 0 <= (page - 1) * pageSize < page * pageSize
  {
    assert page * pageSize == (page - 1) * pageSize + pageSize;
  }

  lemma BothAreMerges(t: seq<Item>, e: seq<Item>, k: nat, rank: Item -> int)
    requires Ordered(t, e, rank)
    ensures Sort(t + e, rank) == Merge(t, e, rank)
    ensures Sort(Take(t, k) + Take(e, k), rank) == Merge(Take(t, k), Take(e, k), rank)
  {
    TakeSorted(t, k, rank);
    TakeSorted(e, k, rank);
    SortOfTwoSorted(t, e, rank);
    SortOfTwoSorted(Take(t, k), Take(e, k), rank);
  }

  lemma SlicesAgree(full: seq<Item>, part: seq<Item>, c: nat, from: nat, to: nat)
    requires AgreeUpTo(c, full, part) && |part| <= |full|
    requires c < |full| ==> to <= c
    ensures Slice(full, from, to) == Slice(part, from, to)
  {
    if c < |full| {
      var lo := if from < to then from else to;
      assert full[lo..to] == full[..c][lo..to] && part[lo..to] == part[..c][lo..to];
    } else {
      assert full == full[..c] == part[..c] == part;
    }
  }

  lemma SlicesDiffer(full: seq<Item>, part: seq<Item>, i: nat, from: nat, to: nat)
    requires from <= i < to && i < |full|
    requires i < |part| ==> full[i] != part[i]
    ensures Slice(full, from, to) != Slice(part, from, to)
  {
    assert Slice(full, from, to)[i - from] == full[i];
    if i < |part| {
      assert Slice(part, from, to)[i - from] == part[i];
    } else {
      assert |Slice(part, from, to)| <= i - from;
    }
  }

  /** How many items are newer than a moment. */
  function CountNewer(items: seq<Item>, moment: int): nat {
    if items == [] then 0 else (if moment < items[0].createdAt then 1 else 0) + CountNewer(items[1..], moment)
  }

  /**
   How many rows of the full list come before the first one the limit drops: the first
   ticket dropped has 500 tickets and the newer events before it, the first event dropped
   has 500 events and the tickets at least as new.
   */
  function Reliable(tickets: seq<Item>, events: seq<Item>, filter: Filter): nat {
    var t, e, k := Tickets(tickets, filter), Events(events, filter), QUARANTINE_LIMIT;
    var ticket := if k < |t| then k + CountNewer(e, t[k].createdAt) else |t| + |e|;
    var event := if k < |e| then k + CountNewer(t, e[k].createdAt - 1) else |t| + |e|;
    if ticket < event then ticket else event
  }

  lemma {:induction false} NewerIsBelow(items: seq<Item>, moment: int)
    ensures CountNewer(items, moment) == CountBelow(items, Newest, -moment)
  {
    if items != [] { NewerIsBelow(items[1..], moment); }
  }

  predicate NothingDropped(tickets: seq<Item>, events: seq<Item>, filter: Filter) {
    |Tickets(tickets, filter)| <= QUARANTINE_LIMIT && |Events(events, filter)| <= QUARANTINE_LIMIT
  }

  lemma ReliableIsTotalIff(tickets: seq<Item>, events: seq<Item>, filter: Filter)
    ensures
      Reliable(tickets, events, filter) == |Tickets(tickets, filter)| + |Events(events, filter)|
      <==> NothingDropped(tickets, events, filter)
  {
    var t, e, k := Tickets(tickets, filter), Events(events, filter), QUARANTINE_LIMIT;
    if k < |t| { CountNewerAtMost(e, t[k].createdAt); }
    if k < |e| { CountNewerAtMost(t, e[k].createdAt - 1); }
  }

  lemma {:induction false} CountNewerAtMost(items: seq<Item>, moment: int)
    ensures CountNewer(items, moment) <= |items|
  {
    if items != [] { CountNewerAtMost(items[1..], moment); }
  }

  lemma ReliableIsTheCut(tickets: seq<Item>, events: seq<Item>, filter: Filter)
    requires Ordered(tickets, events, Newest)
    ensures Reliable(tickets, events, filter)
      == Cut(Tickets(tickets, filter), Events(events, filter), QUARANTINE_LIMIT, QUARANTINE_LIMIT, Newest)
  {
    hide Cut, CountNewer, CountBelow;
    var t, e, k := Tickets(tickets, filter), Events(events, filter), QUARANTINE_LIMIT;
    SelectedStayOrdered(tickets, events, filter, Newest);
    CutInClosedForm(t, e, k, k, Newest);
    if k < |t| { NewerIsBelow(e, t[k].createdAt); }
    if k < |e| { NewerIsBelow(t, e[k].createdAt - 1); }
  }

  /** At that place the full list does have a row that the limit dropped. */
  lemma FirstDroppedRow(tickets: seq<Item>, events: seq<Item>, filter: Filter)
    requires Ordered(tickets, events, Newest)
    ensures
      var t, e, k := Tickets(tickets, filter), Events(events, filter), QUARANTINE_LIMIT;
      var r, full := Reliable(tickets, events, filter), Sort(t + e, Newest);
      && r <= |t| + |e| == |full|
      && (r < |full| ==> (k < |t| && full[r] == t[k]) || (k < |e| && full[r] == e[k]))
  {
    var t, e, k := Tickets(tickets, filter), Events(events, filter), QUARANTINE_LIMIT;
    SelectedStayOrdered(tickets, events, filter, Newest);
    ReliableIsTheCut(tickets, events, filter);
    hide Reliable, Tickets, Events;
    SortOfTwoSorted(t, e, Newest);
    MergeLength(t, e, Newest);
    CutBounds(t, e, k, k, Newest);
    if Cut(t, e, k, k, Newest) < |t| + |e| { LeftOutAtCut(t, e, k, k, Newest); }
  }

  /**
   When a page is right: exactly if it ends before the first dropped row, if neither
   table has more than 500 rows to show, or if it starts past the last row there is.
   */
  lemma PageIsRightIff(tickets: seq<Item>, events: seq<Item>, filter: Filter, page: nat, pageSize: nat)
    requires 1 <= page && 1 <= pageSize
    requires Ordered(tickets, events, Newest) && NoDuplicates(tickets + events)
    ensures
      var full := FullPage(tickets, events, filter, page, pageSize);
      ListQuarantine(tickets, events, filter, page, pageSize) == full <==>
        || page * pageSize <= Reliable(tickets, events, filter)
        || NothingDropped(tickets, events, filter)
        || full.total <= (page - 1) * pageSize
  {
    var t, e := Tickets(tickets, filter), Events(events, filter);
    hide Sort, Merge, Cut, Slice, Take, NoDuplicates, Sorted, Reliable;
    ReliableIsTheCut(tickets, events, filter);
    ReliableIsTotalIff(tickets, events, filter);
    hide NothingDropped;
    SelectedStayApart(tickets, events, filter);
    SelectedStayOrdered(tickets, events, filter, Newest);
    FromPage(page, pageSize);
    PageOfMerges(t, e, (page - 1) * pageSize, page * pageSize);
    hide Tickets, Events;
  }

  lemma SelectedStayOrdered(tickets: seq<Item>, events: seq<Item>, filter: Filter, rank: Item -> int)
    requires Ordered(tickets, events, rank)
    ensures Ordered(Tickets(tickets, filter), Events(events, filter), rank)
  {
  }

  lemma SelectedStayApart(tickets: seq<Item>, events: seq<Item>, filter: Filter)
    requires NoDuplicates(tickets + events)
    ensures NoDuplicates(Tickets(tickets, filter) + Events(events, filter))
  {
    var t, e := Tickets(tickets, filter), Events(events, filter);
    if filter == TicketsOnly {
      assert t + e == (tickets + events)[..|t|];
    } else if filter == EventsOnly {
      assert t + e == (tickets + events)[|tickets|..];
    }
  }

  lemma PageOfMerges(t: seq<Item>, e: seq<Item>, from: nat, to: nat)
    requires Ordered(t, e, Newest) && NoDuplicates(t + e) && from < to
    ensures
      var c := Cut(t, e, QUARANTINE_LIMIT, QUARANTINE_LIMIT, Newest);
      Slice(Sort(Take(t, QUARANTINE_LIMIT) + Take(e, QUARANTINE_LIMIT), Newest), from, to)
        == Slice(Sort(t + e, Newest), from, to)
      <==> to <= c || c == |t| + |e| || |t| + |e| <= from
  {
    var k, c := QUARANTINE_LIMIT, Cut(t, e, QUARANTINE_LIMIT, QUARANTINE_LIMIT, Newest);
    BothAreMerges(t, e, k, Newest);
    MergeLength(t, e, Newest);
    MergeLength(Take(t, k), Take(e, k), Newest);
    CutBounds(t, e, k, k, Newest);
    AgreeBeforeCut(t, e, k, k, Newest);
    var full, part := Merge(t, e, Newest), Merge(Take(t, k), Take(e, k), Newest);
    if to <= c || c == |t| + |e| {
      SlicesAgree(full, part, c, from, to);
    } else if from < |t| + |e| {
      var i := if from < c then c else from;
      DifferFromCut(t, e, k, k, Newest, i);
      SlicesDiffer(full, part, i, from, to);
    }
  }

  /** So every page within the first 500 rows is right, whatever the tables hold. */
  lemma FirstFiveHundredAreRight(tickets: seq<Item>, events: seq<Item>, filter: Filter, page: nat, pageSize: nat)
    requires 1 <= page && 1 <= pageSize && page * pageSize <= QUARANTINE_LIMIT
    requires Ordered(tickets, events, Newest)
    ensures ListQuarantine(tickets, events, filter, page, pageSize) == FullPage(tickets, events, filter, page, pageSize)
  {
    var t, e, k := Tickets(tickets, filter), Events(events, filter), QUARANTINE_LIMIT;
    BothAreMerges(t, e, k, Newest);
    MergeLength(t, e, Newest);
    MergeLength(Take(t, k), Take(e, k), Newest);
    CutBounds(t, e, k, k, Newest);
    AgreeBeforeCut(t, e, k, k, Newest);
    FromPage(page, pageSize);
    SlicesAgree(Merge(t, e, Newest), Merge(Take(t, k), Take(e, k), Newest), Cut(t, e, k, k, Newest),
                (page - 1) * pageSize, page * pageSize);
  }

  /**
   Beyond them it can be wrong: of 501 attachments, the sixth page of 100 misses the
   oldest, which the total counts.
   */
  lemma SixthPageMissesARow()
    ensures
      exists tickets: seq<Item> ::
        && |tickets| == 501 && Ordered(tickets, [], Newest) && NoDuplicates(tickets)
        && ListQuarantine(tickets, [], All, 6, 100).total == 501
        && ListQuarantine(tickets, [], All, 6, 100).items == []
        && FullPage(tickets, [], All, 6, 100).items == [tickets[500]]
  {
    hide Sort, OneAMillisecond;
    var tickets := OneAMillisecond(501);
    SortOfSorted(tickets, Newest);
    SortOfSorted(Take(tickets, 500), Newest);
    assert tickets + [] == tickets && Take(tickets, 500) + [] == Take(tickets, 500);
    assert Slice(tickets, 500, 600) == [tickets[500]];
    assert ListQuarantine(tickets, [], All, 6, 100).items == [];
  }

  function OneAMillisecond(count: nat): (s: seq<Item>)
    ensures |s| == count && Sorted(s, Newest) && NoDuplicates(s)
  {
    seq(count, i requires 0 <= i < count => Item(seq(i, _ => 'x'), TicketFile, -i))
  }

  // ----- The rescan queue -----

  function PendingScanTargets(tickets: seq<Item>, events: seq<Item>, filter: Filter, limit: nat): seq<Item> {
    Take(Sort(Take(Tickets(tickets, filter), limit) + Take(Events(events, filter), limit), Oldest), limit)
  }

  /** The queue holds the oldest of all pending attachments, up to the limit: nothing left out is older. */
  lemma TargetsAreTheOldest(tickets: seq<Item>, events: seq<Item>, filter: Filter, limit: nat)
    requires Ordered(tickets, events, Oldest)
    ensures
      var all := Sort(Tickets(tickets, filter) + Events(events, filter), Oldest);
      var targets := PendingScanTargets(tickets, events, filter, limit);
      && targets == Take(all, limit)
      && forall i, j | 0 <= i < |targets| && limit <= j < |all| :: targets[i].createdAt <= all[j].createdAt
  {
    hide Sort, Merge, Cut;
    var t, e := Tickets(tickets, filter), Events(events, filter);
    SelectedStayOrdered(tickets, events, filter, Oldest);
    hide Tickets, Events;
    TakesAgree(t, e, limit);
    SortIsStable(t + e, Oldest);
    OldestFirst(Sort(t + e, Oldest), limit);
  }

  lemma TakesAgree(t: seq<Item>, e: seq<Item>, limit: nat)
    requires Ordered(t, e, Oldest)
    ensures Take(Sort(Take(t, limit) + Take(e, limit), Oldest), limit) == Take(Sort(t + e, Oldest), limit)
  {
    hide Sort, Merge, Cut, AgreeUpTo;
    BothAreMerges(t, e, limit, Oldest);
    MergeLength(t, e, Oldest);
    MergeLength(Take(t, limit), Take(e, limit), Oldest);
    CutBounds(t, e, limit, limit, Oldest);
    AgreeBeforeCut(t, e, limit, limit, Oldest);
    SlicesAgree(Merge(t, e, Oldest), Merge(Take(t, limit), Take(e, limit), Oldest), Cut(t, e, limit, limit, Oldest),
                0, limit);
  }

  lemma OldestFirst(all: seq<Item>, limit: nat)
    requires Sorted(all, Oldest)
    ensures forall i, j | 0 <= i < limit <= j < |all| :: all[i].createdAt <= all[j].createdAt
  {
    forall i, j | 0 <= i < limit <= j < |all| ensures all[i].createdAt <= all[j].createdAt {
      assert Oldest(all[i]) <= Oldest(all[j]);
    }
  }
}
