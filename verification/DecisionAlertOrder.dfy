/**
 The order of the alert scan: decisions as they come, the reasons of each in a fixed order, and for
 each reason the recipients, the owner first.
 */
module DecisionAlertOrder {
  import opened DecisionAlerts
  import opened Options
  import opened Seqs

  lemma {:induction false} DistinctInOrder(ids: seq<Id>)
    ensures InOrderOf(Distinct(ids), ids)
  {
    hide First;
    if ids != [] {
      var before, last := ids[..|ids| - 1], ids[|ids| - 1];
      assert ids == before + [last];
      DistinctInOrder(before);
      DistinctKeepsEachOnce(before);
      InOrderOfMore(Distinct(before), before, last);
      if last != "" && last !in Distinct(before) {
        InOrderWithNew(Distinct(before), before, last);
      }
    }
  }

  /**
   The recipients of a decision, each once: its owner, or failing that the project's, and then the
   escalation list.
   */
  lemma RecipientsInOrder(d: Decision, escalation: map<Id, seq<Id>>)
    ensures
      var owner := if d.owner.Some? then d.owner else d.project.owner;
      var all := (if owner.Some? then [owner.value] else [])
        + (if d.project.organization in escalation then escalation[d.project.organization] else []);
      var r := Recipients(d, escalation);
      NoDuplicates(r) && InOrderOf(r, all) && forall x :: x in r <==> x in all && x != ""
  {
    hide First;
    var owner := if d.owner.Some? then d.owner else d.project.owner;
    var all := (if owner.Some? then [owner.value] else [])
      + (if d.project.organization in escalation then escalation[d.project.organization] else []);
    DistinctInOrder(all);
    DistinctKeepsEachOnce(all);
    assert Recipients(d, escalation) == Distinct(all);
  }

  /** Reasons come in the order unassigned, overdue, at risk. */
  lemma ReasonsInOrder(d: Decision, now: int)
    ensures
      var r := Reasons(d, now);
      NoDuplicates(r) && forall i, j | 0 <= i < j < |r| :: r[j] != Unassigned && r[i] != ProjectAtRisk
  {
  }

  /** The keys of a decision: for each reason in turn, each recipient in turn. */
  lemma {:induction false} KeysInOrder(
    d: Decision, reasons: seq<Reason>, recipients: seq<Id>, date: int, j: nat, u: nat)
    requires j < |reasons| && u < |recipients|
    ensures
      var keys := KeysForReasons(d, reasons, recipients, date);
      && |keys| == |reasons| * |recipients| && j * |recipients| + u < |keys|
      && keys[j * |recipients| + u] == Key(d.id, recipients[u], reasons[j], date)
  {
    var n, m := |reasons| - 1, |recipients|;
    KeysCount(d, reasons[..n], recipients, date);
    KeysCount(d, reasons, recipients, date);
    if j < n {
      KeysInOrder(d, reasons[..n], recipients, date, j, u);
    }
  }

  lemma {:induction false} KeysCount(d: Decision, reasons: seq<Reason>, recipients: seq<Id>, date: int)
    ensures |KeysForReasons(d, reasons, recipients, date)| == |reasons| * |recipients|
  {
    if reasons != [] {
      var n := |reasons| - 1;
      KeysCount(d, reasons[..n], recipients, date);
      assert n * |recipients| + |recipients| == |reasons| * |recipients|;
    }
  }

  /** What is delivered comes in the order of the worklist. */
  lemma {:induction false} DeliveriesInOrder(due: seq<Key>, recorded: set<Key>, failing: set<Key>)
    ensures InOrderOf(Deliveries(due, recorded, failing), due)
  {
    hide First;
    if due != [] {
      var before, last := due[..|due| - 1], due[|due| - 1];
      assert due == before + [last];
      DeliveriesInOrder(before, recorded, failing);
      DeliveriesAreTheNewKeysOnce(before, recorded, failing);
      InOrderOfMore(Deliveries(before, recorded, failing), before, last);
      if Deliveries(due, recorded, failing) != Deliveries(before, recorded, failing) {
        InOrderWithNew(Deliveries(before, recorded, failing), before, last);
      }
    }
  }

  /** The places in the table of the decisions that are scanned. */
  ghost predicate ArePlaces(places: seq<nat>, scanned: seq<Decision>, table: seq<Decision>) {
    && |places| == |scanned|
    && (forall i | 0 <= i < |places| :: places[i] < |table| && scanned[i] == table[places[i]])
    && (forall i, j | 0 <= i < j < |places| :: places[i] < places[j])
    && forall p: nat | p < |table| :: p in places <==> IsPending(table[p])
  }

  lemma PlacesWithNext(places: seq<nat>, scanned: seq<Decision>, table: seq<Decision>, d: Decision)
    requires ArePlaces(places, scanned, table)
    ensures
      if IsPending(d) then ArePlaces(places + [|table|], scanned + [d], table + [d])
      else ArePlaces(places, scanned, table + [d])
  {
    hide IsPending;
    var more := places + [|table|];
    assert forall p :: p in more <==> p in places || p == |table|;
    forall p: nat | p < |table| + 1
      ensures p in (if IsPending(d) then more else places) <==> IsPending((table + [d])[p])
    {
      if p < |table| {
        assert (table + [d])[p] == table[p];
      } else {
        assert p !in places;
      }
    }
  }

  /** The decisions scanned are the pending rows of the table, each once, in the order of the table. */
  lemma {:induction false} ScannedInOrder(table: seq<Decision>) returns (places: seq<nat>)
    ensures ArePlaces(places, OpenDecisions(table), table)
  {
    hide ArePlaces;
    if table == [] {
      places := [];
      NoPlaces();
    } else {
      var front, d := table[..|table| - 1], table[|table| - 1];
      places := ScannedInOrder(front);
      PlacesWithNext(places, OpenDecisions(front), front, d);
      assert table == front + [d];
      assert IsOpen(d) <==> IsPending(d);
      hide IsOpen, IsPending;
      if IsOpen(d) {
        places := places + [|front|];
      } else {
        assert OpenDecisions(table) == OpenDecisions(front);
      }
    }
  }

  lemma NoPlaces()
    ensures ArePlaces([], [], [])
  {
  }
}
