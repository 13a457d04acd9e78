/**
 What a sync does with each message, in terms of the ids that rows and messages carry, and
 which messages are known after it.
 */
module IngestionSteps {
  import opened Ingestion
  import opened Options

  /** The test that both queries make: the provider id, or an internet id that is not empty. */
  predicate Shares(r: Row, m: Message) {
    || r.providerId == Some(m.providerId)
    || (m.internetId.Some? && m.internetId.value != "" && r.internetId == m.internetId)
  }

  ghost predicate SomeRowShares(s: State, m: Message) {
    || (exists i | 0 <= i < |s.events| :: Shares(s.events[i], m))
    || (exists i | 0 <= i < |s.tickets| :: Shares(s.tickets[i], m))
  }

  lemma KnownIsShared(s: State, m: Message)
    ensures Known(s, m) <==> SomeRowShares(s, m)
  {
    forall i | 0 <= i < |s.events| ensures Matches(s.events[i], m) <==> Shares(s.events[i], m) {
    }
    forall i | 0 <= i < |s.tickets| ensures Matches(s.tickets[i], m) <==> Shares(s.tickets[i], m) {
    }
  }

  /** The messages met before any has thrown. */
  predicate Undisturbed(batch: seq<Item>) {
    forall j | 0 <= j < |batch| :: !batch[j].fate.throwsBefore && !batch[j].fate.throwsAfter
  }

  lemma {:induction false} OneMoreMessage(s: State, c: Counts, batch: seq<Item>, x: Item)
    requires Undisturbed(batch)
    ensures StoreAll(s, batch + [x]) == Store(StoreAll(s, batch), x)
    ensures CountAll(c, s, batch + [x]) == Count(CountAll(c, s, batch), StoreAll(s, batch), x)
    decreases |batch|
  {
    hide Store, Count;
    if batch == [] {
      assert batch + [x] == [x] && [x][1..] == [];
      assert StoreAll(s, [x]) == Store(s, x);
      assert CountAll(c, s, [x]) == Count(c, s, x);
    } else {
      assert (batch + [x])[1..] == batch[1..] + [x];
      assert !Throws(batch[0]);
      OneMoreMessage(Store(s, batch[0]), Count(c, s, batch[0]), batch[1..], x);
    }
  }

  /**
   What becomes of one message, given the tables the ones before it left. A row that is stored
   carries both ids of its message; a known message, and one of an event request, is skipped.
   */
  lemma OneMessage(s: State, batch: seq<Item>, x: Item)
    requires Undisturbed(batch)
    ensures
      var u, v, m, f := StoreAll(s, batch), StoreAll(s, batch + [x]), x.message, x.fate;
      var stored := if f.throwsBefore || SomeRowShares(u, m) then [] else [Row(Some(m.providerId), m.internetId, true)];
      && v.events == u.events + (if f.isForEvent then stored else [])
      && v.tickets == u.tickets + (if f.isForEvent || f.isSpam then [] else stored)
    ensures
      var u := StoreAll(s, batch);
      var c, d := CountAll(Counts(0, 0, 0), s, batch), CountAll(Counts(0, 0, 0), s, batch + [x]);
      d == if SomeRowShares(u, x.message) || x.fate.isForEvent then Counts(c.created, c.skipped + 1, c.blocked)
           else if x.fate.isSpam then Counts(c.created, c.skipped, c.blocked + 1)
           else Counts(c.created + 1, c.skipped, c.blocked)
  {
    OneMoreMessage(s, Counts(0, 0, 0), batch, x);
    KnownIsShared(StoreAll(s, batch), x.message);
    hide Known, SomeRowShares, StoreAll, CountAll;
  }

  /** A sync ends at the first message that throws, and what it answers. */
  lemma {:induction false} EndsAtFirstThrow(s: State, batch: seq<Item>, i: nat)
    requires i < |batch| && Undisturbed(batch[..i])
    requires batch[i].fate.throwsBefore || batch[i].fate.throwsAfter
    ensures StoreAll(s, batch) == StoreAll(s, batch[..i + 1]) && Answer(s, batch) == Aborted
    decreases |batch|
  {
    assert Throws(batch[i]);
    if i == 0 {
      assert batch[..1][0] == batch[0];
    } else {
      assert batch[..i][0] == batch[0] && !Throws(batch[0]);
      assert batch[1..][..i - 1] == batch[..i][1..] && batch[..i + 1][1..] == batch[1..][..i];
      assert batch[..i + 1][0] == batch[0];
      assert Undisturbed(batch[1..][..i - 1]) by {
        forall j | 0 <= j < i - 1 ensures !batch[1..][j].fate.throwsBefore && !batch[1..][j].fate.throwsAfter {
          assert batch[1..][j] == batch[..i][j + 1];
        }
      }
      EndsAtFirstThrow(Store(s, batch[0]), batch[1..], i - 1);
    }
  }

  lemma UndisturbedCompletes(s: State, batch: seq<Item>)
    requires Undisturbed(batch)
    ensures Answer(s, batch) == Completed(|batch|, CountAll(Counts(0, 0, 0), s, batch))
  {
    forall j | 0 <= j < |batch| ensures !Throws(batch[j]) {
    }
  }

  // ----- Which messages are known after a sync -----

  predicate SameIds(m: Message, n: Message) {
    || m.providerId == n.providerId
    || (n.internetId.Some? && n.internetId.value != "" && m.internetId == n.internetId)
  }

  /** Message `i` was new when it was met, and stored. */
  ghost predicate WasStored(s: State, batch: seq<Item>, i: nat)
    requires i < |batch|
  {
    !SomeRowShares(StoreAll(s, batch[..i]), batch[i].message) && (batch[i].fate.isForEvent || !batch[i].fate.isSpam)
  }

  lemma OneMoreRow(rows: seq<Row>, r: Row, m: Message)
    ensures (exists i | 0 <= i < |rows + [r]| :: Shares((rows + [r])[i], m)) <==>
      (exists i | 0 <= i < |rows| :: Shares(rows[i], m)) || Shares(r, m)
  {
    hide Shares;
    var more := rows + [r];
    if i :| 0 <= i < |rows| && Shares(rows[i], m) {
      assert more[i] == rows[i];
    }
    if i :| 0 <= i < |more| && Shares(more[i], m) {
      assert i < |rows| ==> more[i] == rows[i];
    }
    assert more[|rows|] == r;
  }

  lemma SharesAfterOne(s: State, x: Item, m: Message)
    requires !x.fate.throwsBefore
    ensures SomeRowShares(Store(s, x), m) <==>
      || SomeRowShares(s, m)
      || (!SomeRowShares(s, x.message) && (x.fate.isForEvent || !x.fate.isSpam) && SameIds(x.message, m))
  {
    KnownIsShared(s, x.message);
    OneMoreRow(s.events, RowOf(x.message), m);
    OneMoreRow(s.tickets, RowOf(x.message), m);
  }

  /**
   After a completed sync a message is known exactly if a row shared an id with it before, or a message
   that the sync stored does. To share one with a message that was only skipped is not enough.
   */
  lemma {:induction false} KnownAfterIff(s: State, batch: seq<Item>, m: Message)
    requires Undisturbed(batch)
    ensures SomeRowShares(StoreAll(s, batch), m) <==>
      || SomeRowShares(s, m)
      || exists i | 0 <= i < |batch| :: WasStored(s, batch, i) && SameIds(batch[i].message, m)
  {
    hide SomeRowShares, Store, SameIds;
    if batch != [] {
      var front, x := batch[..|batch| - 1], batch[|batch| - 1];
      assert batch == front + [x];
      KnownAfterIff(s, front, m);
      OneMoreMessage(s, Counts(0, 0, 0), front, x);
      SharesAfterOne(StoreAll(s, front), x, m);
      forall i | 0 <= i < |front| ensures WasStored(s, batch, i) <==> WasStored(s, front, i) {
        assert batch[..i] == front[..i];
      }
      assert forall i | 0 <= i < |front| :: batch[i] == front[i];
      assert batch[..|front|] == front;
      assert !x.fate.throwsBefore;
      if i :| 0 <= i < |batch| && WasStored(s, batch, i) && SameIds(batch[i].message, m) {
        assert i < |front| ==> WasStored(s, front, i);
      }
      assert WasStored(s, batch, |front|) <==>
        !SomeRowShares(StoreAll(s, front), x.message) && (x.fate.isForEvent || !x.fate.isSpam);
    }
  }

  lemma SharedInMore(s: State, t: State, m: Message)
    requires Extends(s, t) && SomeRowShares(s, m)
    ensures SomeRowShares(t, m)
  {
    KnownIsShared(s, m);
    KnownIsShared(t, m);
    KnownInMore(s, t, m);
  }

  /**
   So whatever shares the provider id or a non-empty internet id with a message that a completed sync
   stored is skipped at any later time, unless something was purged: it adds no row and counts as skipped.
   */
  lemma OverlapIsSkipped(s: State, batch: seq<Item>, i: nat, between: seq<Action>, x: Item)
    requires Undisturbed(batch) && i < |batch| && WasStored(s, batch, i)
    requires SameIds(batch[i].message, x.message)
    requires forall a | a in between :: !a.Purge?
    ensures
      var t := Run(StoreAll(s, batch), between);
      && StoreAll(t, [x]) == t
      && CountAll(Counts(0, 0, 0), t, [x]) == Counts(0, 1, 0)
  {
    hide SomeRowShares, StoreAll, CountAll, Run, WasStored, SameIds;
    var t := Run(StoreAll(s, batch), between);
    KnownAfterIff(s, batch, x.message);
    RunExtends(StoreAll(s, batch), between);
    SharedInMore(StoreAll(s, batch), t, x.message);
    NothingMet(t);
    OneMessage(t, [], x);
    assert [] + [x] == [x];
  }

  lemma NothingMet(t: State)
    ensures StoreAll(t, []) == t && CountAll(Counts(0, 0, 0), t, []) == Counts(0, 0, 0)
  {
  }

  const PLAIN := Fate(false, false, false, false)

  function Plain(providerId: string, internetId: Option<string>): Item {
    Item(Message(providerId, internetId), PLAIN)
  }

  /**
   Ids are not followed from message to message: with "a" stored, a second "a" that names an internet id
   is skipped, and a "b" of that internet id is stored all the same.
   */
  lemma SkippedIdsAreNotKept()
    ensures
      var batch := [Plain("a", None), Plain("a", Some("x")), Plain("b", Some("x"))];
      Answer(State([], []), batch) == Completed(3, Counts(2, 1, 0))
  {
    var none, a, ax, bx := State([], []), Plain("a", None), Plain("a", Some("x")), Plain("b", Some("x"));
    NothingMet(none);
    OneMessage(none, [], a);
    OneMessage(none, [a], ax);
    OneMessage(none, [a, ax], bx);
    assert [] + [a] == [a] && [a] + [ax] == [a, ax] && [a, ax] + [bx] == [a, ax, bx];
    UndisturbedCompletes(none, [a, ax, bx]);
    var one := State([Row(Some("a"), None, true)], []);
    hide StoreAll, CountAll;
    assert StoreAll(none, [a]) == one;
    assert Shares(one.tickets[0], ax.message) && SomeRowShares(one, ax.message);
    assert StoreAll(none, [a, ax]) == one;
    assert !Shares(one.tickets[0], bx.message) && !SomeRowShares(one, bx.message);
  }
}
