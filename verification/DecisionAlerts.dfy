/**
 The decision-alert scan: which alerts a scan owes, and one scan run alone.
 An alert is first recorded under a unique key and only then sent.
 */
module DecisionAlerts {
  import opened Options
  import opened Seqs

  type Id = string

  datatype ProjectStatus = Planning | Active | OnHold | Completed | ProjectCancelled
  datatype Health = OnTrack | AtRisk | OffTrack
  datatype DecisionStatus = Open | InProgress | Resolved | Cancelled
  datatype Reason = Unassigned | Overdue | ProjectAtRisk

  datatype Project = Project(organization: Id, deleted: bool, status: ProjectStatus, health: Health, owner: Option<Id>)
  datatype Decision = Decision(id: Id, status: DecisionStatus, dueAt: Option<int>, owner: Option<Id>, project: Project)

  /** The columns of the uniqueness constraint on stored alerts. */
  datatype Key = Key(decision: Id, recipient: Id, reason: Reason, date: int)

  const MILLISECONDS_PER_DAY := 86_400_000

  function UtcDay(now: int): int {
    now / MILLISECONDS_PER_DAY
  }

  /** The rows the scan's query selects. */
  predicate IsOpen(d: Decision) {
    && d.status !in {Resolved, Cancelled}
    && !d.project.deleted
    && d.project.status !in {Completed, ProjectCancelled}
  }

  function OpenDecisions(table: seq<Decision>): seq<Decision> {
    if table == [] then []
    else OpenDecisions(table[..|table| - 1]) + (if IsOpen(table[|table| - 1]) then [table[|table| - 1]] else [])
  }

  /** The first occurrence of every non-empty id. */
  function Distinct(ids: seq<Id>): seq<Id> {
    if ids == [] then []
    else
      var before, last := Distinct(ids[..|ids| - 1]), ids[|ids| - 1];
      if last == "" || last in before then before else before + [last]
  }

  lemma {:induction false} DistinctKeepsEachOnce(ids: seq<Id>)
    ensures forall x :: x in Distinct(ids) <==> x in ids && x != ""
    ensures NoDuplicates(Distinct(ids))
  {
    if ids != [] {
      DistinctKeepsEachOnce(ids[..|ids| - 1]);
      assert ids == ids[..|ids| - 1] + [ids[|ids| - 1]];
      if Distinct(ids) != Distinct(ids[..|ids| - 1]) {
        AppendNew(Distinct(ids[..|ids| - 1]), ids[|ids| - 1]);
      }
    }
  }

  function Escalation(escalation: map<Id, seq<Id>>, organization: Id): seq<Id> {
    if organization in escalation then escalation[organization] else []
  }

  /** The decision's owner, or failing that the project's, then the escalation list. */
  function Recipients(d: Decision, escalation: map<Id, seq<Id>>): seq<Id> {
    var first := if d.owner.Some? then d.owner else d.project.owner;
    Distinct((if first.Some? then [first.value] else []) + Escalation(escalation, d.project.organization))
  }

  predicate IsOverdue(d: Decision, now: int) {
    d.dueAt.Some? && d.dueAt.value < now
  }

  function Reasons(d: Decision, now: int): seq<Reason> {
    (if d.owner.None? then [Unassigned] else [])
    + (if IsOverdue(d, now) then [Overdue] else [])
    + (if d.project.health != OnTrack then [ProjectAtRisk] else [])
  }

  function KeysForReason(d: Decision, reason: Reason, recipients: seq<Id>, date: int): seq<Key> {
    seq(|recipients|, i requires 0 <= i < |recipients| => Key(d.id, recipients[i], reason, date))
  }

  function KeysForReasons(d: Decision, reasons: seq<Reason>, recipients: seq<Id>, date: int): seq<Key> {
    if reasons == [] then []
    else
      var n := |reasons| - 1;
      KeysForReasons(d, reasons[..n], recipients, date) + KeysForReason(d, reasons[n], recipients, date)
  }

  lemma {:induction false} KeysForReasonsMembers(
    d: Decision, reasons: seq<Reason>, recipients: seq<Id>, date: int, k: Key)
    ensures k in KeysForReasons(d, reasons, recipients, date)
      <==> k.decision == d.id && k.reason in reasons && k.date == date && k.recipient in recipients
  {
    if reasons != [] {
      var n := |reasons| - 1;
      KeysForReasonsMembers(d, reasons[..n], recipients, date, k);
      assert reasons == reasons[..n] + [reasons[n]];
      var last := KeysForReason(d, reasons[n], recipients, date);
      if k.decision == d.id && k.reason == reasons[n] && k.date == date && k.recipient in recipients {
        var i :| 0 <= i < |recipients| && recipients[i] == k.recipient;
        assert last[i] == k;
      }
    }
  }

  /** The keys a scan tries, in order. */
  function DueKeys(decisions: seq<Decision>, escalation: map<Id, seq<Id>>, now: int): seq<Key> {
    if decisions == [] then []
    else
      var n := |decisions| - 1;
      DueKeys(decisions[..n], escalation, now)
      + KeysForReasons(decisions[n], Reasons(decisions[n], now), Recipients(decisions[n], escalation), UtcDay(now))
  }

  /** What it means for a decision to owe an alert, without reference to any scan. */
  ghost predicate Owes(d: Decision, escalation: map<Id, seq<Id>>, now: int, k: Key) {
    && k.decision == d.id
    && k.date * 86_400_000 <= now < (k.date + 1) * 86_400_000
    && k.recipient != ""
    && ((d.project.organization in escalation && k.recipient in escalation[d.project.organization])
        || d.owner == Some(k.recipient)
        || (d.owner.None? && d.project.owner == Some(k.recipient)))
    && (match k.reason
        case Unassigned => d.owner.None?
        case Overdue => d.dueAt.Some? && d.dueAt.value < now
        case ProjectAtRisk => d.project.health == AtRisk || d.project.health == OffTrack)
  }

  /** Neither the decision nor its project is done with. */
  ghost predicate IsPending(d: Decision) {
    && (d.status == Open || d.status == InProgress)
    && !d.project.deleted
    && (d.project.status == Planning || d.project.status == Active || d.project.status == OnHold)
  }

  ghost predicate IsDue(table: seq<Decision>, escalation: map<Id, seq<Id>>, now: int, k: Key) {
    exists d | d in table :: IsPending(d) && Owes(d, escalation, now, k)
  }

  lemma RecipientsMembers(d: Decision, escalation: map<Id, seq<Id>>, r: Id)
    ensures r in Recipients(d, escalation) <==>
      && r != ""
      && ((d.project.organization in escalation && r in escalation[d.project.organization])
          || d.owner == Some(r)
          || (d.owner.None? && d.project.owner == Some(r)))
  {
    var first := if d.owner.Some? then d.owner else d.project.owner;
    var head := if first.Some? then [first.value] else [];
    assert r in head <==> first == Some(r);
    DistinctKeepsEachOnce(head + Escalation(escalation, d.project.organization));
  }

  lemma DecisionKeysAreWhatItOwes(d: Decision, escalation: map<Id, seq<Id>>, now: int, k: Key)
    ensures k in KeysForReasons(d, Reasons(d, now), Recipients(d, escalation), UtcDay(now))
      <==> Owes(d, escalation, now, k)
  {
    RecipientsMembers(d, escalation, k.recipient);
    KeysForReasonsMembers(d, Reasons(d, now), Recipients(d, escalation), UtcDay(now), k);
    ReasonsMembers(d, now, k.reason);
    DayOfMoment(now, k.date);
    hide UtcDay;
  }

  lemma DayOfMoment(now: int, date: int)
    ensures date == UtcDay(now) <==> date * 86_400_000 <= now < (date + 1) * 86_400_000
  {
  }

  lemma ReasonsMembers(d: Decision, now: int, reason: Reason)
    ensures reason in Reasons(d, now) <==>
      match reason
      case Unassigned => d.owner.None?
      case Overdue => d.dueAt.Some? && d.dueAt.value < now
      case ProjectAtRisk => d.project.health == AtRisk || d.project.health == OffTrack
  {
  }

  lemma {:induction false} DueKeysAreExactlyTheDueAlerts(
    table: seq<Decision>, escalation: map<Id, seq<Id>>, now: int, k: Key)
    ensures k in DueKeys(OpenDecisions(table), escalation, now) <==> IsDue(table, escalation, now, k)
  {
    hide Owes, Reasons, Recipients, KeysForReasons, IsOpen;
    if table != [] {
      var d, before := table[|table| - 1], table[..|table| - 1];
      assert table == before + [d];
      DueKeysAreExactlyTheDueAlerts(before, escalation, now, k);
      IsDueOfOneMore(before, d, escalation, now, k);
      hide DueKeys, IsDue;
      if IsOpen(d) {
        DueKeysOfOneMore(OpenDecisions(before), d, escalation, now);
        DecisionKeysAreWhatItOwes(d, escalation, now, k);
      } else {
        assert OpenDecisions(table) == OpenDecisions(before);
      }
    }
  }

  lemma IsDueOfOneMore(before: seq<Decision>, d: Decision, escalation: map<Id, seq<Id>>, now: int, k: Key)
    ensures IsDue(before + [d], escalation, now, k) <==>
      IsDue(before, escalation, now, k) || (IsOpen(d) && Owes(d, escalation, now, k))
  {
    assert IsOpen(d) <==> IsPending(d);
    hide Owes, IsOpen, IsPending;
  }

  lemma DueKeysOfOneMore(decisions: seq<Decision>, d: Decision, escalation: map<Id, seq<Id>>, now: int)
    ensures DueKeys(decisions + [d], escalation, now)
      == DueKeys(decisions, escalation, now)
         + KeysForReasons(d, Reasons(d, now), Recipients(d, escalation), UtcDay(now))
  {
    assert (decisions + [d])[..|decisions|] == decisions;
  }

  // ----- One scan run alone -----

  /** The keys of a worklist that are new to the table and that the database accepts, each once. */
  function Deliveries(due: seq<Key>, recorded: set<Key>, failing: set<Key>): seq<Key> {
    if due == [] then []
    else
      var before, last := Deliveries(due[..|due| - 1], recorded, failing), due[|due| - 1];
      if last in recorded || last in failing || last in before then before else before + [last]
  }

  lemma {:induction false} DeliveriesAreTheNewKeysOnce(due: seq<Key>, recorded: set<Key>, failing: set<Key>)
    ensures forall k :: k in Deliveries(due, recorded, failing) <==> k in due && k !in recorded && k !in failing
    ensures NoDuplicates(Deliveries(due, recorded, failing))
  {
    if due != [] {
      DeliveriesAreTheNewKeysOnce(due[..|due| - 1], recorded, failing);
      assert due == due[..|due| - 1] + [due[|due| - 1]];
      var before, last := Deliveries(due[..|due| - 1], recorded, failing), due[|due| - 1];
      if Deliveries(due, recorded, failing) != before {
        AppendNew(before, last);
      }
    }
  }

  lemma OneMoreDelivery(due: seq<Key>, k: Key, recorded: set<Key>, failing: set<Key>)
    ensures
      var before := Deliveries(due, recorded, failing);
      Deliveries(due + [k], recorded, failing)
        == if k in recorded || k in failing || k in before then before else before + [k]
  {
    assert (due + [k])[..|due|] == due;
  }

  /**
   What the surroundings do: recordings that fail, each after storing the row or before, and
   notifications that throw, each after sending or before.
   */
  datatype World = World(failing: map<Key, bool>, throwing: map<Key, bool>)

  datatype Tables = Tables(recorded: set<Key>, notified: seq<Key>)

  /** The keys tried that a failing recording stored all the same. */
  function Leaked(done: seq<Key>, world: World): set<Key> {
    set k | k in done && k in world.failing && world.failing[k]
  }

  /** The effect of trying every key of a worklist on the tables a scan started from. */
  ghost predicate WorkedOff(done: seq<Key>, before: Tables, world: World, after: Tables, sent: nat) {
    var delivered := Deliveries(done, before.recorded, world.failing.Keys);
    && (forall k | k in delivered :: k !in world.throwing)
    && after.notified == before.notified + delivered
    && after.recorded == before.recorded + (set k | k in delivered) + Leaked(done, world)
    && sent == |delivered|
  }

  /** The effect of trying a worklist up to a key that is new and whose notification throws. */
  ghost predicate BrokenOffAt(n: nat, all: seq<Key>, before: Tables, world: World, after: Tables) {
    && n < |all|
    && (var delivered, k := Deliveries(all[..n], before.recorded, world.failing.Keys), all[n];
        && (forall d | d in delivered :: d !in world.throwing)
        && k in world.throwing && k !in before.recorded && k !in world.failing && k !in delivered
        && after.notified == before.notified + delivered + (if world.throwing[k] then [k] else [])
        && after.recorded == before.recorded + (set d | d in delivered) + Leaked(all[..n], world) + {k})
  }

  ghost predicate BrokenOff(all: seq<Key>, before: Tables, world: World, after: Tables) {
    exists n: nat :: BrokenOffAt(n, all, before, world, after)
  }

  lemma LeakedOneMore(done: seq<Key>, k: Key, world: World)
    ensures Leaked(done + [k], world)
      == Leaked(done, world) + (if k in world.failing && world.failing[k] then {k} else {})
  {
    assert forall x :: x in done + [k] <==> x in done || x == k;
  }

  /** Whether a key is still to be sent, when its turn comes. */
  predicate IsNew(t: Tables, k: Key, world: World) {
    k !in t.recorded && k !in world.failing
  }

  /** The tables after one try. */
  function Tried(t: Tables, k: Key, world: World): Tables {
    if k in t.recorded then t
    else if k in world.failing then
      if world.failing[k] then t.(recorded := t.recorded + {k}) else t
    else
      var sent := k !in world.throwing || world.throwing[k];
      Tables(t.recorded + {k}, if sent then t.notified + [k] else t.notified)
  }

  lemma OneMoreTried(done: seq<Key>, k: Key, before: Tables, world: World, mid: Tables, sent: nat)
    requires WorkedOff(done, before, world, mid, sent)
    ensures
      if IsNew(mid, k, world) && k in world.throwing then
        BrokenOffAt(|done|, done + [k], before, world, Tried(mid, k, world))
      else
        WorkedOff(done + [k], before, world, Tried(mid, k, world), if IsNew(mid, k, world) then sent + 1 else sent)
  {
    hide Deliveries, Leaked;
    OneMoreDelivery(done, k, before.recorded, world.failing.Keys);
    LeakedOneMore(done, k, world);
    LeakedFail(done, world);
    assert (done + [k])[..|done|] == done;
    var delivered := Deliveries(done, before.recorded, world.failing.Keys);
    assert forall x :: x in delivered + [k] <==> x in delivered || x == k;
  }

  lemma LeakedFail(done: seq<Key>, world: World)
    ensures forall k | k in Leaked(done, world) :: k in world.failing
  {
  }

  class AlertStore {
    var recorded: set<Key>
    var notified: seq<Key>

    constructor ()
      ensures recorded == {} && notified == []
    {
      recorded, notified := {}, [];
    }

    ghost function Now(): Tables
      reads this
    {
      Tables(recorded, notified)
    }

    /**
     One try: record, and only when the row is new, notify. A failing recording is passed over,
     whether it is the uniqueness constraint or anything else; a notification that throws is not.
     */
    method TryAlert(k: Key, world: World) returns (sent: bool, threw: bool)
      modifies this
      ensures Now() == Tried(old(Now()), k, world)
      ensures sent || threw <==> IsNew(old(Now()), k, world)
      ensures threw <==> IsNew(old(Now()), k, world) && k in world.throwing
      ensures !(sent && threw)
    {
      if k in recorded { return false, false; }
      if k in world.failing {
        if world.failing[k] { recorded := recorded + {k}; }
        return false, false;
      }
      recorded := recorded + {k};
      if k in world.throwing {
        if world.throwing[k] { notified := notified + [k]; }
        return false, true;
      }
      notified := notified + [k];
      return true, false;
    }

    /** One key further down a worklist. */
    method TryNext(k: Key, world: World, ghost all: seq<Key>, ghost n: nat, ghost before: Tables, sent0: nat)
      returns (sent: nat, threw: bool)
      requires n < |all| && all[n] == k && WorkedOff(all[..n], before, world, Now(), sent0)
      modifies this
      ensures
        if threw then BrokenOff(all, before, world, Now())
        else WorkedOff(all[..n + 1], before, world, Now(), sent)
    {
      hide WorkedOff, BrokenOffAt, Tried;
      OneMoreTried(all[..n], k, before, world, Now(), sent0);
      assert all[..n + 1] == all[..n] + [k];
      var isNew;
      isNew, threw := TryAlert(k, world);
      sent := if isNew then sent0 + 1 else sent0;
      if threw {
        assert BrokenOffAt(n, all[..n + 1], before, world, Now());
        BrokenOffInMore(all[..n + 1], all, before, world, Now());
      }
    }

    method AlertRecipients(d: Decision, reason: Reason, recipients: seq<Id>, date: int, world: World,
                           ghost done: seq<Key>, ghost before: Tables, sent0: nat)
      returns (sent: nat, threw: bool)
      requires WorkedOff(done, before, world, Now(), sent0)
      modifies this
      ensures
        var all := done + KeysForReason(d, reason, recipients, date);
        if threw then BrokenOff(all, before, world, Now()) else WorkedOff(all, before, world, Now(), sent)
    {
      hide WorkedOff, BrokenOff;
      sent, threw := sent0, false;
      ghost var all := done + KeysForReason(d, reason, recipients, date);
      assert all[..|done|] == done && all[..|all|] == all;
      for u := 0 to |recipients|
        invariant WorkedOff(all[..|done| + u], before, world, Now(), sent)
      {
        sent, threw := TryNext(Key(d.id, recipients[u], reason, date), world, all, |done| + u, before, sent);
        if threw { return; }
      }
      threw := false;
    }

    method AlertReasons(d: Decision, reasons: seq<Reason>, recipients: seq<Id>, date: int, world: World,
                        ghost done: seq<Key>, ghost before: Tables, sent0: nat)
      returns (sent: nat, threw: bool)
      requires WorkedOff(done, before, world, Now(), sent0)
      modifies this
      ensures
        var all := done + KeysForReasons(d, reasons, recipients, date);
        if threw then BrokenOff(all, before, world, Now()) else WorkedOff(all, before, world, Now(), sent)
    {
      hide WorkedOff, BrokenOff;
      sent := sent0;
      ghost var now := done;
      for j := 0 to |reasons|
        invariant now == done + KeysForReasons(d, reasons[..j], recipients, date)
        invariant WorkedOff(now, before, world, Now(), sent)
      {
        sent, threw := AlertRecipients(d, reasons[j], recipients, date, world, now, before, sent);
        assert reasons[..j + 1][..j] == reasons[..j];
        now := now + KeysForReason(d, reasons[j], recipients, date);
        if threw {
          KeysOfFirstReasons(d, reasons, j + 1, recipients, date);
          BrokenOffInMore(now, done + KeysForReasons(d, reasons, recipients, date), before, world, Now());
          return sent, true;
        }
      }
      assert reasons[..|reasons|] == reasons;
      return sent, false;
    }

    method AlertDecision(d: Decision, escalation: map<Id, seq<Id>>, now: int, world: World,
                         ghost done: seq<Key>, ghost before: Tables, sent0: nat)
      returns (sent: nat, threw: bool)
      requires WorkedOff(done, before, world, Now(), sent0)
      modifies this
      ensures
        var all := done + KeysForReasons(d, Reasons(d, now), Recipients(d, escalation), UtcDay(now));
        if threw then BrokenOff(all, before, world, Now()) else WorkedOff(all, before, world, Now(), sent)
    {
      hide WorkedOff, BrokenOff, Recipients, Reasons, KeysForReasons;
      var recipients, reasons := Recipients(d, escalation), Reasons(d, now);
      if |recipients| == 0 {
        NoRecipientsNoKeys(d, reasons, UtcDay(now));
        assert done + [] == done;
        return sent0, false;
      }
      sent, threw := AlertReasons(d, reasons, recipients, UtcDay(now), world, done, before, sent0);
    }

    /**
     The whole scan. If no notification throws, it works off its whole worklist; else it ends at
     the first one that does, with the alert recorded, and answers nothing.
     */
    method RunDecisionAlertScan(table: seq<Decision>, escalation: map<Id, seq<Id>>, now: int, world: World)
      returns (scanned: nat, sent: nat, threw: bool)
      modifies this
      ensures scanned == |OpenDecisions(table)|
      ensures
        var due := DueKeys(OpenDecisions(table), escalation, now);
        if threw then BrokenOff(due, old(Now()), world, Now())
        else WorkedOff(due, old(Now()), world, Now(), sent)
    {
      hide WorkedOff, BrokenOff, Recipients, Reasons, KeysForReasons, OpenDecisions, DueKeys;
      var decisions := OpenDecisions(table);
      sent, scanned := 0, |decisions|;
      NothingTriedYet(escalation, now, world);
      assert decisions[..0] == [];
      for i := 0 to |decisions|
        invariant WorkedOff(DueKeys(decisions[..i], escalation, now), old(Now()), world, Now(), sent)
      {
        sent, threw := AlertDecision(decisions[i], escalation, now, world, DueKeys(decisions[..i], escalation, now),
                                     old(Now()), sent);
        DueKeysOfOneMore(decisions[..i], decisions[i], escalation, now);
        assert decisions[..i + 1] == decisions[..i] + [decisions[i]];
        if threw {
          KeysOfFirstDecisions(decisions, i + 1, escalation, now);
          BrokenOffInMore(DueKeys(decisions[..i + 1], escalation, now), DueKeys(decisions, escalation, now),
                          old(Now()), world, Now());
          return scanned, sent, true;
        }
      }
      assert decisions[..|decisions|] == decisions;
      threw := false;
    }

    lemma NothingTriedYet(escalation: map<Id, seq<Id>>, now: int, world: World)
      ensures WorkedOff(DueKeys([], escalation, now), Now(), world, Now(), 0)
    {
    }
  }

  lemma BrokenOffInMore(some: seq<Key>, all: seq<Key>, before: Tables, world: World, after: Tables)
    requires some <= all && BrokenOff(some, before, world, after)
    ensures BrokenOff(all, before, world, after)
  {
    hide Deliveries, Leaked;
    var n: nat :| BrokenOffAt(n, some, before, world, after);
    assert all[..n] == some[..n];
    assert BrokenOffAt(n, all, before, world, after);
  }

  lemma {:induction false} KeysOfFirstReasons(d: Decision, reasons: seq<Reason>, j: nat, recipients: seq<Id>, date: int)
    requires j <= |reasons|
    ensures KeysForReasons(d, reasons[..j], recipients, date) <= KeysForReasons(d, reasons, recipients, date)
  {
    var n := |reasons| - 1;
    if j <= n {
      KeysOfFirstReasons(d, reasons[..n], j, recipients, date);
      assert reasons[..n][..j] == reasons[..j];
    } else {
      assert reasons[..j] == reasons;
    }
  }

  lemma {:induction false} KeysOfFirstDecisions(
    decisions: seq<Decision>, i: nat, escalation: map<Id, seq<Id>>, now: int)
    requires i <= |decisions|
    ensures DueKeys(decisions[..i], escalation, now) <= DueKeys(decisions, escalation, now)
  {
    hide KeysForReasons, Reasons, Recipients;
    var n := |decisions| - 1;
    if i <= n {
      KeysOfFirstDecisions(decisions[..n], i, escalation, now);
      assert decisions[..n][..i] == decisions[..i];
    } else {
      assert decisions[..i] == decisions;
    }
  }

  lemma {:induction false} NoRecipientsNoKeys(d: Decision, reasons: seq<Reason>, date: int)
    ensures KeysForReasons(d, reasons, [], date) == []
  {
    if reasons != [] {
      NoRecipientsNoKeys(d, reasons[..|reasons| - 1], date);
    }
  }

  /**
   A scan sends nothing exactly when every alert it owes is already recorded:
   so a second scan of the same data at the same moment is silent, and a later
   scan on the same day sends only what became due in between.
   */
  lemma RepeatScanIsSilent(table: seq<Decision>, escalation: map<Id, seq<Id>>, now: int, recorded: set<Key>)
    ensures
      var due := DueKeys(OpenDecisions(table), escalation, now);
      && (Deliveries(due, recorded, {}) == [] <==> forall k | IsDue(table, escalation, now, k) :: k in recorded)
      && Deliveries(due, recorded + (set k | k in Deliveries(due, recorded, {})), {}) == []
  {
    var due := DueKeys(OpenDecisions(table), escalation, now);
    forall k ensures k in due <==> IsDue(table, escalation, now, k) {
      DueKeysAreExactlyTheDueAlerts(table, escalation, now, k);
    }
    DeliveriesAreTheNewKeysOnce(due, recorded, {});
    SilentIffAllRecorded(due, recorded);
    SilentIffAllRecorded(due, recorded + (set k | k in Deliveries(due, recorded, {})));
  }

  lemma SilentIffAllRecorded(due: seq<Key>, recorded: set<Key>)
    ensures Deliveries(due, recorded, {}) == [] <==> forall k | k in due :: k in recorded
  {
    DeliveriesAreTheNewKeysOnce(due, recorded, {});
    var sent := Deliveries(due, recorded, {});
    if sent == [] {
      forall k | k in due ensures k in recorded {
        assert k !in sent;
      }
    } else {
      assert sent[0] in sent;
    }
  }
}
