/**
 Inbound mail: a sync walks through a batch that may overlap earlier ones, and stores
 each message at most once, as a ticket message or as an event message.
 */
module Ingestion {
  import opened Options

  /** The internet id may be missing or empty; the provider id is always there. */
  datatype Message = Message(providerId: string, internetId: Option<string>)

  /** `ingested` marks the rows the sync stored; other code stores rows of its own in both tables. */
  datatype Row = Row(providerId: Option<string>, internetId: Option<string>, ingested: bool)

  datatype State = State(tickets: seq<Row>, events: seq<Row>)

  /** What the other services answer while a message is processed. */
  datatype Fate = Fate(isForEvent: bool, isSpam: bool, throwsBefore: bool, throwsAfter: bool)

  datatype Item = Item(message: Message, fate: Fate)

  datatype Counts = Counts(created: nat, skipped: nat, blocked: nat)

  datatype Result = Completed(received: nat, counts: Counts) | Aborted

  // ----- One message -----

  predicate HasInternetId(m: Message) {
    m.internetId.Some? && m.internetId.value != ""
  }

  predicate Matches(r: Row, m: Message) {
    r.providerId == Some(m.providerId) || (HasInternetId(m) && r.internetId == m.internetId)
  }

  predicate Found(rows: seq<Row>, m: Message) {
    exists i | 0 <= i < |rows| :: Matches(rows[i], m)
  }

  predicate Known(s: State, m: Message) {
    Found(s.events, m) || Found(s.tickets, m)
  }

  function RowOf(m: Message): Row {
    Row(Some(m.providerId), m.internetId, true)
  }

  /** The tables after one message, if nothing throws before its row is stored. */
  function Store(s: State, item: Item): State {
    var m, f := item.message, item.fate;
    if f.throwsBefore || Known(s, m) then s
    else if f.isForEvent then s.(events := s.events + [RowOf(m)])
    else if f.isSpam then s
    else s.(tickets := s.tickets + [RowOf(m)])
  }

  /** Duplicates and messages of event requests count as skipped. */
  function Count(c: Counts, s: State, item: Item): Counts {
    if Known(s, item.message) || item.fate.isForEvent then c.(skipped := c.skipped + 1)
    else if item.fate.isSpam then c.(blocked := c.blocked + 1)
    else c.(created := c.created + 1)
  }

  predicate Throws(item: Item) {
    item.fate.throwsBefore || item.fate.throwsAfter
  }

  // ----- A whole batch -----

  /** The tables after a batch; the first message that throws ends it. */
  function StoreAll(s: State, batch: seq<Item>): State
    decreases |batch|
  {
    if batch == [] then s
    else if Throws(batch[0]) then Store(s, batch[0])
    else StoreAll(Store(s, batch[0]), batch[1..])
  }

  function CountAll(c: Counts, s: State, batch: seq<Item>): Counts
    decreases |batch|
  {
    if batch == [] then c else CountAll(Count(c, s, batch[0]), Store(s, batch[0]), batch[1..])
  }

  predicate Completes(batch: seq<Item>) {
    forall i | 0 <= i < |batch| :: !Throws(batch[i])
  }

  function Answer(s: State, batch: seq<Item>): Result {
    if Completes(batch) then Completed(|batch|, CountAll(Counts(0, 0, 0), s, batch)) else Aborted
  }

  class MessageStore {
    var ticketMessages: seq<Row>
    var eventMessages: seq<Row>

    constructor ()
      ensures Current() == State([], [])
    {
      ticketMessages, eventMessages := [], [];
    }

    ghost function Current(): State
      reads this
    {
      State(ticketMessages, eventMessages)
    }

    method SyncMailbox(batch: seq<Item>) returns (r: Result)
      modifies this
      ensures Current() == StoreAll(old(Current()), batch)
      ensures r == Answer(old(Current()), batch)
    {
      var createdTickets, skippedDuplicates, blockedSpam := 0, 0, 0;
      assert batch[0..] == batch;
      for i := 0 to |batch|
        invariant StoreAll(old(Current()), batch) == StoreAll(Current(), batch[i..])
        invariant forall j | 0 <= j < i :: !Throws(batch[j])
        invariant CountAll(Counts(0, 0, 0), old(Current()), batch)
          == CountAll(Counts(createdTickets, skippedDuplicates, blockedSpam), Current(), batch[i..])
      {
        var message, fate := batch[i].message, batch[i].fate;
        assert batch[i..][1..] == batch[i + 1..];
        if fate.throwsBefore { return Aborted; }
        if Found(eventMessages, message) {
          if fate.throwsAfter { return Aborted; }
          skippedDuplicates := skippedDuplicates + 1;
          continue;
        }
        if Found(ticketMessages, message) {
          if fate.throwsAfter { return Aborted; }
          skippedDuplicates := skippedDuplicates + 1;
          continue;
        }
        if fate.isForEvent {
          eventMessages := eventMessages + [RowOf(message)];
          if fate.throwsAfter { return Aborted; }
          skippedDuplicates := skippedDuplicates + 1;
          continue;
        }
        if fate.isSpam {
          if fate.throwsAfter { return Aborted; }
          blockedSpam := blockedSpam + 1;
          continue;
        }
        ticketMessages := ticketMessages + [RowOf(message)];
        if fate.throwsAfter { return Aborted; }
        createdTickets := createdTickets + 1;
      }
      return Completed(|batch|, Counts(createdTickets, skippedDuplicates, blockedSpam));
    }
  }

  // ----- Conservation -----

  lemma {:induction false} EveryMessageIsCountedOnce(c: Counts, s: State, batch: seq<Item>)
    ensures
      var d := CountAll(c, s, batch);
      d.created + d.skipped + d.blocked == c.created + c.skipped + c.blocked + |batch|
    decreases |batch|
  {
    if batch != [] {
      EveryMessageIsCountedOnce(Count(c, s, batch[0]), Store(s, batch[0]), batch[1..]);
    }
  }

  lemma {:induction false} CreatedAreTheNewTickets(c: Counts, s: State, batch: seq<Item>)
    requires Completes(batch)
    ensures |StoreAll(s, batch).tickets| == |s.tickets| + CountAll(c, s, batch).created - c.created
    ensures |StoreAll(s, batch).events| <= |s.events| + CountAll(c, s, batch).skipped - c.skipped
    decreases |batch|
  {
    if batch != [] {
      CreatedAreTheNewTickets(Count(c, s, batch[0]), Store(s, batch[0]), batch[1..]);
    }
  }

  /** A completed sync accounts for every message received, and for every ticket message stored. */
  lemma SyncConserves(s: State, batch: seq<Item>)
    requires Completes(batch)
    ensures
      var r := Answer(s, batch);
      && r.received == r.counts.created + r.counts.skipped + r.counts.blocked
      && |StoreAll(s, batch).tickets| == |s.tickets| + r.counts.created
      && |StoreAll(s, batch).events| <= |s.events| + r.counts.skipped
  {
    EveryMessageIsCountedOnce(Counts(0, 0, 0), s, batch);
    CreatedAreTheNewTickets(Counts(0, 0, 0), s, batch);
  }

  // ----- No message is ingested twice -----

  /** Two rows hold the same message: they agree on the provider id or on a non-empty internet id. */
  predicate SameMessage(p: Row, q: Row) {
    || (p.providerId.Some? && p.providerId == q.providerId)
    || (p.internetId.Some? && p.internetId.value != "" && p.internetId == q.internetId)
  }

  predicate Clash(p: Row, q: Row) {
    p.ingested && q.ingested && SameMessage(p, q)
  }

  ghost predicate NoClashes(rows: seq<Row>) {
    forall i, j | 0 <= i < j < |rows| :: !Clash(rows[i], rows[j])
  }

  ghost predicate IngestedOnce(s: State) {
    && NoClashes(s.tickets) && NoClashes(s.events)
    && forall i, j | 0 <= i < |s.tickets| && 0 <= j < |s.events| :: !Clash(s.tickets[i], s.events[j])
  }

  lemma UnknownDoesNotClash(rows: seq<Row>, m: Message, i: nat)
    requires !Found(rows, m) && i < |rows|
    ensures !Clash(rows[i], RowOf(m)) && !Clash(RowOf(m), rows[i])
  {
    assert !Matches(rows[i], m);
  }

  lemma StoreKeepsIngestedOnce(s: State, item: Item)
    requires IngestedOnce(s)
    ensures IngestedOnce(Store(s, item))
  {
    if !Known(s, item.message) {
      forall i | 0 <= i < |s.tickets| ensures !Clash(s.tickets[i], RowOf(item.message)) {
        UnknownDoesNotClash(s.tickets, item.message, i);
      }
      forall i | 0 <= i < |s.events|
        ensures !Clash(s.events[i], RowOf(item.message)) && !Clash(RowOf(item.message), s.events[i])
      {
        UnknownDoesNotClash(s.events, item.message, i);
      }
      hide Clash;
    }
  }

  lemma {:induction false} SyncKeepsIngestedOnce(s: State, batch: seq<Item>)
    requires IngestedOnce(s)
    ensures IngestedOnce(StoreAll(s, batch))
    decreases |batch|
  {
    if batch != [] {
      StoreKeepsIngestedOnce(s, batch[0]);
      SyncKeepsIngestedOnce(Store(s, batch[0]), batch[1..]);
    }
  }

  /** A sync, other code storing rows of its own, or the clean-up that deletes a ticket message for good. */
  datatype Action = Sync(batch: seq<Item>) | StoreOthers(tickets: seq<Row>, events: seq<Row>) | Purge(index: nat)

  function Unmarked(rows: seq<Row>): seq<Row> {
    seq(|rows|, i requires 0 <= i < |rows| => rows[i].(ingested := false))
  }

  function Act(s: State, a: Action): State {
    match a
    case Sync(batch) => StoreAll(s, batch)
    case StoreOthers(tickets, events) => State(s.tickets + Unmarked(tickets), s.events + Unmarked(events))
    case Purge(i) => if i < |s.tickets| then s.(tickets := s.tickets[..i] + s.tickets[i + 1..]) else s
  }

  function Run(s: State, actions: seq<Action>): State
    decreases |actions|
  {
    if actions == [] then s else Run(Act(s, actions[0]), actions[1..])
  }

  lemma PurgeKeepsIngestedOnce(s: State, i: nat)
    requires IngestedOnce(s) && i < |s.tickets|
    ensures IngestedOnce(s.(tickets := s.tickets[..i] + s.tickets[i + 1..]))
  {
    hide Clash;
    var rows := s.tickets[..i] + s.tickets[i + 1..];
    forall j | 0 <= j < |rows| ensures rows[j] == s.tickets[if j < i then j else j + 1] {
    }
  }

  /**
   Over every sequence of syncs, whatever their batches share, completed or broken off,
   and whatever other code stores and deletes in between: no two ingested rows hold the
   same message.
   */
  lemma {:induction false} NoMessageIsIngestedTwice(s: State, actions: seq<Action>)
    requires IngestedOnce(s)
    ensures IngestedOnce(Run(s, actions))
    decreases |actions|
  {
    if actions != [] {
      match actions[0] {
        case Sync(batch) => SyncKeepsIngestedOnce(s, batch);
        case StoreOthers(tickets, events) => assert IngestedOnce(Act(s, actions[0]));
        case Purge(i) => if i < |s.tickets| { PurgeKeepsIngestedOnce(s, i); }
      }
      NoMessageIsIngestedTwice(Act(s, actions[0]), actions[1..]);
    }
  }

  // ----- Replaying a batch -----

  lemma FoundInMore(rows: seq<Row>, more: seq<Row>, m: Message)
    requires rows <= more && Found(rows, m)
    ensures Found(more, m)
  {
    var i :| 0 <= i < |rows| && Matches(rows[i], m);
    assert Matches(more[i], m);
  }

  predicate Extends(s: State, t: State) {
    s.tickets <= t.tickets && s.events <= t.events
  }

  lemma {:induction false} StoreAllExtends(s: State, batch: seq<Item>)
    ensures Extends(s, StoreAll(s, batch))
    decreases |batch|
  {
    if batch != [] && !Throws(batch[0]) {
      StoreAllExtends(Store(s, batch[0]), batch[1..]);
    }
  }

  lemma {:induction false} RunExtends(s: State, actions: seq<Action>)
    requires forall a | a in actions :: !a.Purge?
    ensures Extends(s, Run(s, actions))
    decreases |actions|
  {
    if actions != [] {
      var t := Act(s, actions[0]);
      assert !actions[0].Purge?;
      if actions[0].Sync? { StoreAllExtends(s, actions[0].batch); }
      forall a | a in actions[1..] ensures !a.Purge? {
        assert a in actions;
      }
      RunExtends(t, actions[1..]);
    }
  }

  lemma KnownInMore(s: State, t: State, m: Message)
    requires Extends(s, t) && Known(s, m)
    ensures Known(t, m)
  {
    if Found(s.events, m) { FoundInMore(s.events, t.events, m); }
    if Found(s.tickets, m) { FoundInMore(s.tickets, t.tickets, m); }
  }

  predicate Blocked(item: Item) {
    item.fate.isSpam && !item.fate.isForEvent
  }

  lemma StoredIsKnown(s: State, item: Item)
    requires !item.fate.throwsBefore && !Blocked(item)
    ensures Known(Store(s, item), item.message)
  {
    var t := Store(s, item);
    if !Known(s, item.message) {
      if item.fate.isForEvent {
        assert Matches(t.events[|s.events|], item.message);
      } else {
        assert Matches(t.tickets[|s.tickets|], item.message);
      }
    }
  }

  /** Once a sync completes, it knows every message of its batch that was not blocked as spam. */
  lemma {:induction false} CompletedBatchIsKnown(s: State, batch: seq<Item>, i: nat)
    requires Completes(batch) && i < |batch| && !Blocked(batch[i])
    ensures Known(StoreAll(s, batch), batch[i].message)
    decreases |batch|
  {
    var t := Store(s, batch[0]);
    if i == 0 {
      StoredIsKnown(s, batch[0]);
      StoreAllExtends(t, batch[1..]);
      KnownInMore(t, StoreAll(t, batch[1..]), batch[0].message);
    } else {
      CompletedBatchIsKnown(t, batch[1..], i - 1);
    }
  }

  /** Whether an item, met with these tables, brings a row with it. */
  predicate Stores(s: State, item: Item) {
    !item.fate.throwsBefore && !Known(s, item.message) && !Blocked(item)
  }

  /** Nothing before it broke the batch off. */
  predicate Reached(batch: seq<Item>, j: nat) {
    forall i | 0 <= i < j && i < |batch| :: !Throws(batch[i])
  }

  predicate AddsNothing(s: State, batch: seq<Item>) {
    forall j | 0 <= j < |batch| && Reached(batch, j) :: !Stores(s, batch[j])
  }

  lemma StoreChangesIff(s: State, item: Item)
    ensures Store(s, item) == s <==> !Stores(s, item)
    ensures |Store(s, item).tickets| + |Store(s, item).events|
      == |s.tickets| + |s.events| + (if Stores(s, item) then 1 else 0)
  {
  }

  lemma AddsNothingStep(s: State, batch: seq<Item>)
    requires batch != []
    ensures AddsNothing(s, batch) <==> !Stores(s, batch[0]) && (Throws(batch[0]) || AddsNothing(s, batch[1..]))
  {
    hide Stores, Throws;
    var rest := batch[1..];
    assert Reached(batch, 0);
    if !Throws(batch[0]) {
      forall j: nat | j < |rest| ensures Reached(rest, j) <==> Reached(batch, j + 1) {
        if Reached(rest, j) {
          forall i | 0 <= i < j + 1 && i < |batch| ensures !Throws(batch[i]) {
            if 0 < i { assert !Throws(rest[i - 1]); }
          }
        }
        if Reached(batch, j + 1) {
          forall i | 0 <= i < j && i < |rest| ensures !Throws(rest[i]) {
            assert !Throws(batch[i + 1]);
          }
        }
      }
      forall j: nat | j < |rest| ensures rest[j] == batch[j + 1] {
      }
      assert AddsNothing(s, batch) ==> AddsNothing(s, rest);
      if !Stores(s, batch[0]) && AddsNothing(s, rest) {
        forall j: nat | j < |batch| && Reached(batch, j) ensures !Stores(s, batch[j]) {
          if 0 < j { assert Reached(rest, j - 1) && !Stores(s, rest[j - 1]); }
        }
      }
    }
  }

  /**
   A batch leaves the tables as they are exactly if every message it reaches is known,
   blocked, or breaks it off before anything is stored.
   */
  lemma {:induction false} BatchChangesNothingIff(s: State, batch: seq<Item>)
    ensures StoreAll(s, batch) == s <==> AddsNothing(s, batch)
    decreases |batch|
  {
    if batch != [] {
      AddsNothingStep(s, batch);
      StoreChangesIff(s, batch[0]);
      hide AddsNothing, Store, Stores, Throws;
      if !Throws(batch[0]) {
        BatchChangesNothingIff(Store(s, batch[0]), batch[1..]);
        StoreAllExtends(Store(s, batch[0]), batch[1..]);
      }
    }
  }

  /** The same message, and if it was blocked it still is; all else may come out differently. */
  predicate Repeats(first: Item, second: Item) {
    first.message == second.message && (Blocked(first) ==> Blocked(second))
  }

  ghost predicate Replays(batch: seq<Item>, again: seq<Item>) {
    forall j | 0 <= j < |again| :: RepeatsOneOf(batch, again[j])
  }

  ghost predicate RepeatsOneOf(batch: seq<Item>, second: Item) {
    exists i | 0 <= i < |batch| :: Repeats(batch[i], second)
  }

  lemma ReplayedIsKnownOrBlocked(s: State, batch: seq<Item>, between: seq<Action>, again: seq<Item>, j: nat)
    requires Completes(batch) && Replays(batch, again) && j < |again|
    requires forall a | a in between :: !a.Purge?
    ensures Known(Run(StoreAll(s, batch), between), again[j].message) || Blocked(again[j])
  {
    hide Run;
    assert RepeatsOneOf(batch, again[j]);
    var i :| 0 <= i < |batch| && Repeats(batch[i], again[j]);
    if !Blocked(batch[i]) {
      CompletedBatchIsKnown(s, batch, i);
      RunExtends(StoreAll(s, batch), between);
      KnownInMore(StoreAll(s, batch), Run(StoreAll(s, batch), between), batch[i].message);
    }
  }

  lemma {:induction false} NothingCreated(c: Counts, s: State, batch: seq<Item>)
    requires forall j | 0 <= j < |batch| :: Known(s, batch[j].message) || Blocked(batch[j])
    ensures CountAll(c, s, batch).created == c.created
    decreases |batch|
  {
    if batch != [] {
      assert Known(s, batch[0].message) || Blocked(batch[0]);
      assert Store(s, batch[0]) == s;
      forall j | 0 <= j < |batch[1..]| ensures Known(s, batch[1..][j].message) || Blocked(batch[1..][j]) {
        assert batch[1..][j] == batch[j + 1];
      }
      NothingCreated(Count(c, s, batch[0]), s, batch[1..]);
    }
  }

  /**
   Receiving messages of a completed batch again, at any later time, in any order and number, stores
   nothing and creates nothing, as long as nothing was purged in between and what was blocked as spam
   is blocked again. Whether a message still belongs to an event request, and what throws this time,
   does not matter, nor what other syncs and other code stored meanwhile.
   */
  lemma ReplayChangesNothing(s: State, batch: seq<Item>, between: seq<Action>, again: seq<Item>)
    requires Completes(batch) && Replays(batch, again)
    requires forall a | a in between :: !a.Purge?
    ensures
      var t := Run(StoreAll(s, batch), between);
      StoreAll(t, again) == t && CountAll(Counts(0, 0, 0), t, again).created == 0
  {
    hide StoreAll, Known, CountAll, Replays, Run;
    var t := Run(StoreAll(s, batch), between);
    forall j | 0 <= j < |again| ensures Known(t, again[j].message) || Blocked(again[j]) {
      ReplayedIsKnownOrBlocked(s, batch, between, again, j);
    }
    BatchChangesNothingIff(t, again);
    NothingCreated(Counts(0, 0, 0), t, again);
  }

  /** A message whose ticket was purged is stored again. */
  lemma PurgedIsStoredAgain(m: Message)
    ensures
      var batch := [Item(m, Fate(false, false, false, false))];
      var t := StoreAll(State([], []), batch);
      var u := Run(t, [Purge(0)]);
      && Completes(batch) && t == State([RowOf(m)], []) && u == State([], []) && StoreAll(u, batch) == t
  {
    var none, batch := State([], []), [Item(m, Fate(false, false, false, false))];
    assert batch[1..] == [] && !Known(none, m);
    var t := StoreAll(none, batch);
    assert [] + [RowOf(m)] == [RowOf(m)];
    assert Store(none, batch[0]) == State([RowOf(m)], []);
    assert StoreAll(State([RowOf(m)], []), []) == State([RowOf(m)], []);
    assert Act(t, Purge(0)) == none;
    assert [Purge(0)][1..] == [] && Run(none, []) == none;
  }

  /** Without that it fails: a message blocked the first time is stored once the block is lifted. */
  lemma LiftedBlockIsStored(m: Message)
    ensures
      var batch := [Item(m, Fate(false, true, false, false))];
      var again := [Item(m, Fate(false, false, false, false))];
      var t := StoreAll(State([], []), batch);
      && Completes(batch) && Answer(State([], []), batch) == Completed(1, Counts(0, 0, 1))
      && t == State([], []) && StoreAll(t, again) == State([RowOf(m)], [])
  {
    var batch, again := [Item(m, Fate(false, true, false, false))], [Item(m, Fate(false, false, false, false))];
    var none := State([], []);
    assert batch[1..] == [] && again[1..] == [];
    assert !Known(none, m);
    assert StoreAll(none, batch) == none;
    assert CountAll(Counts(0, 0, 0), none, batch) == Counts(0, 0, 1);
  }
}
