/**
 Decision-alert scans that interleave. Recording an alert and sending it are two
 separate steps of a scan, and any number of scans may be under way.
 */
module DecisionAlertRuns {
  import opened DecisionAlerts
  import opened Seqs

  /** `failed` are the keys whose recording reported an error to this scan. */
  datatype Scan = Scan(due: seq<Key>, pos: nat, pending: bool, sent: nat, failed: set<Key>, aborted: bool)

  /**
   The stored alerts, the notifications sent so far and the scans. `lost` are the
   keys that were stored by a call that then failed, or whose notification failed.
   */
  datatype System = System(recorded: set<Key>, notified: seq<Key>, lost: set<Key>, scans: seq<Scan>)

  datatype Action =
    | Begin(due: seq<Key>)
    | Record(scan: nat)                        // the insertion answers, with success or with a duplicate
    | RecordFails(scan: nat, stored: bool)     // it fails otherwise, possibly after the row was stored
    | Notify(scan: nat)
    | NotifyFails(scan: nat, delivered: bool)  // the notification throws, which ends the scan

  predicate Live(s: System, i: nat) {
    i < |s.scans| && !s.scans[i].aborted && s.scans[i].pos < |s.scans[i].due|
  }

  function Current(c: Scan): Key
    requires c.pos < |c.due|
  {
    c.due[c.pos]
  }

  predicate Enabled(s: System, a: Action) {
    match a
    case Begin(_) => true
    case Record(i) => Live(s, i) && !s.scans[i].pending
    case RecordFails(i, _) => Live(s, i) && !s.scans[i].pending
    case Notify(i) => Live(s, i) && s.scans[i].pending
    case NotifyFails(i, _) => Live(s, i) && s.scans[i].pending
  }

  function Step(s: System, a: Action): System
    requires Enabled(s, a)
  {
    match a
    case Begin(due) => s.(scans := s.scans + [Scan(due, 0, false, 0, {}, false)])
    case Record(i) =>
      var c, k := s.scans[i], Current(s.scans[i]);
      if k in s.recorded then
        s.(scans := s.scans[i := c.(pos := c.pos + 1)])
      else
        s.(recorded := s.recorded + {k}, scans := s.scans[i := c.(pending := true)])
    case RecordFails(i, stored) =>
      var c, k := s.scans[i], Current(s.scans[i]);
      var scans := s.scans[i := c.(pos := c.pos + 1, failed := c.failed + {k})];
      if stored && k !in s.recorded then
        s.(recorded := s.recorded + {k}, lost := s.lost + {k}, scans := scans)
      else
        s.(scans := scans)
    case Notify(i) =>
      var c := s.scans[i];
      s.(notified := s.notified + [Current(c)],
         scans := s.scans[i := c.(pos := c.pos + 1, pending := false, sent := c.sent + 1)])
    case NotifyFails(i, delivered) =>
      var c := s.scans[i];
      s.(notified := if delivered then s.notified + [Current(c)] else s.notified,
         lost := if delivered then s.lost else s.lost + {Current(c)},
         scans := s.scans[i := c.(pending := false, aborted := true)])
  }

  predicate CanRun(s: System, actions: seq<Action>)
    decreases |actions|
  {
    actions == [] || (Enabled(s, actions[0]) && CanRun(Step(s, actions[0]), actions[1..]))
  }

  function Run(s: System, actions: seq<Action>): System
    requires CanRun(s, actions)
    decreases |actions|
  {
    if actions == [] then s else Run(Step(s, actions[0]), actions[1..])
  }

  const EMPTY := System({}, [], {}, [])

  ghost predicate IsPending(s: System, i: nat, k: Key) {
    Live(s, i) && s.scans[i].pending && Current(s.scans[i]) == k
  }

  /** What becomes of a stored key: it was sent, its sending is under way, or a failure swallowed it. */
  ghost predicate Accounted(s: System, k: Key) {
    k in s.notified || k in s.lost || exists i: nat :: IsPending(s, i, k)
  }

  ghost predicate Inv(s: System) {
    && NoDuplicates(s.notified)
    && (forall k | k in s.notified :: k in s.recorded)
    && (forall k | k in s.recorded :: Accounted(s, k))
    && (forall i: nat, k | IsPending(s, i, k) :: k in s.recorded && k !in s.notified)
    && (forall i: nat, j: nat, k | IsPending(s, i, k) && IsPending(s, j, k) :: i == j)
    && (forall i | 0 <= i < |s.scans| :: Settled(s, s.scans[i]))
  }

  /** Every key a scan has passed is stored, unless its recording failed. */
  ghost predicate Settled(s: System, c: Scan) {
    && c.pos <= |c.due|
    && (c.pending ==> c.pos < |c.due| && !c.aborted)
    && forall j | 0 <= j < c.pos :: c.due[j] in s.recorded || c.due[j] in c.failed
  }

  lemma OthersStayPending(s: System, a: Action, j: nat, k: Key)
    requires Enabled(s, a)
    requires a.Begin? || j != a.scan
    ensures IsPending(Step(s, a), j, k) == IsPending(s, j, k)
  {
  }

  lemma PendingAfter(s: System, a: Action)
    requires Enabled(s, a)
    ensures forall j: nat, k | a.Begin? || j != a.scan :: IsPending(Step(s, a), j, k) == IsPending(s, j, k)
    ensures !a.Begin? && !a.Record? ==> forall k :: !IsPending(Step(s, a), a.scan, k)
    ensures a.Record? ==>
      forall k :: IsPending(Step(s, a), a.scan, k) <==> k == Current(s.scans[a.scan]) && k !in s.recorded
  {
    forall j: nat, k | a.Begin? || j != a.scan ensures IsPending(Step(s, a), j, k) == IsPending(s, j, k) {
      OthersStayPending(s, a, j, k);
    }
  }

  lemma StepKeepsAccounts(s: System, a: Action)
    requires Inv(s) && Enabled(s, a)
    ensures forall k | k in Step(s, a).recorded :: Accounted(Step(s, a), k)
  {
    var t := Step(s, a);
    PendingAfter(s, a);
    forall k | k in t.recorded ensures Accounted(t, k) {
      if k in s.recorded && k !in s.notified && k !in s.lost {
        var i: nat :| IsPending(s, i, k);
        if a.Begin? || i != a.scan {
          assert IsPending(t, i, k);
        }
      } else if k !in s.recorded && a.Record? {
        assert IsPending(t, a.scan, k);
      }
    }
  }

  lemma StepKeepsInv(s: System, a: Action)
    requires Inv(s) && Enabled(s, a)
    ensures Inv(Step(s, a))
  {
    var t := Step(s, a);
    PendingAfter(s, a);
    StepKeepsAccounts(s, a);
    if t.notified != s.notified {
      assert IsPending(s, a.scan, Current(s.scans[a.scan]));
      AppendNew(s.notified, Current(s.scans[a.scan]));
    }
    forall i | 0 <= i < |t.scans| ensures Settled(t, t.scans[i]) {
      if i < |s.scans| {
        assert Settled(s, s.scans[i]);
      }
    }
  }

  lemma {:induction false} RunKeepsInv(s: System, actions: seq<Action>)
    requires Inv(s) && CanRun(s, actions)
    ensures Inv(Run(s, actions))
    decreases |actions|
  {
    if actions != [] {
      StepKeepsInv(s, actions[0]);
      RunKeepsInv(Step(s, actions[0]), actions[1..]);
    }
  }

  /** Under every interleaving and every failure, each key is notified at most once. */
  lemma NotifiedAtMostOnce(actions: seq<Action>)
    requires CanRun(EMPTY, actions)
    ensures NoDuplicates(Run(EMPTY, actions).notified)
  {
    RunKeepsInv(EMPTY, actions);
  }

  predicate Finished(c: Scan) {
    c.pos == |c.due| && c.failed == {} && !c.aborted
  }

  /**
   Once a scan has finished without an error, every alert it owed is stored, and every
   stored alert was sent, is being sent by a scan still at work, or was lost to a failure.
   */
  lemma FinishedScanRecordedAllItOwed(actions: seq<Action>, i: nat)
    requires CanRun(EMPTY, actions)
    requires i < |Run(EMPTY, actions).scans| && Finished(Run(EMPTY, actions).scans[i])
    ensures
      var s := Run(EMPTY, actions);
      forall k | k in s.scans[i].due :: k in s.recorded && Accounted(s, k)
  {
    RunKeepsInv(EMPTY, actions);
    var s := Run(EMPTY, actions);
    assert Settled(s, s.scans[i]);
  }

  predicate Failing(a: Action) {
    a.RecordFails? || a.NotifyFails?
  }

  lemma {:induction false} WithoutFailuresNothingIsLost(s: System, actions: seq<Action>)
    requires CanRun(s, actions) && forall a | a in actions :: !Failing(a)
    ensures Run(s, actions).lost == s.lost
    decreases |actions|
  {
    if actions != [] {
      assert !Failing(actions[0]);
      assert forall a | a in actions[1..] :: a in actions;
      WithoutFailuresNothingIsLost(Step(s, actions[0]), actions[1..]);
    }
  }

  /** With no failure, once every scan is through, the stored alerts are exactly the sent ones. */
  lemma SentExactlyOnceWithoutFailures(actions: seq<Action>)
    requires CanRun(EMPTY, actions) && forall a | a in actions :: !Failing(a)
    requires forall c | c in Run(EMPTY, actions).scans :: c.pos == |c.due|
    ensures
      var s := Run(EMPTY, actions);
      NoDuplicates(s.notified) && forall k :: k in s.recorded <==> k in s.notified
  {
    RunKeepsInv(EMPTY, actions);
    WithoutFailuresNothingIsLost(EMPTY, actions);
    var s := Run(EMPTY, actions);
    forall i: nat, k ensures !IsPending(s, i, k) {
      if i < |s.scans| {
        assert s.scans[i] in s.scans;
      }
    }
  }

  /** A scan that owes only stored alerts, and has sent nothing. */
  ghost predicate Quiet(s: System, i: nat) {
    && i < |s.scans|
    && (forall k | k in s.scans[i].due :: k in s.recorded)
    && !s.scans[i].pending && s.scans[i].sent == 0
  }

  /** Such a scan stays silent to its end, whatever the others do meanwhile. */
  lemma {:induction false} QuietScanStaysSilent(s: System, actions: seq<Action>, i: nat)
    requires CanRun(s, actions) && Quiet(s, i)
    ensures Quiet(Run(s, actions), i) && Run(s, actions).scans[i].due == s.scans[i].due
    decreases |actions|
  {
    if actions != [] {
      var t := Step(s, actions[0]);
      assert Quiet(t, i) && t.scans[i].due == s.scans[i].due;
      QuietScanStaysSilent(t, actions[1..], i);
    }
  }

  /**
   A scan begun over the same data and date after another finished without an error
   sends nothing, whatever runs before, between and after.
   */
  lemma RepeatedScanSendsNothing(before: seq<Action>, i: nat, after: seq<Action>)
    requires CanRun(EMPTY, before)
    requires i < |Run(EMPTY, before).scans| && Finished(Run(EMPTY, before).scans[i])
    requires
      var s := Run(EMPTY, before);
      CanRun(Step(s, Begin(s.scans[i].due)), after)
    ensures
      var s := Run(EMPTY, before);
      var t := Run(Step(s, Begin(s.scans[i].due)), after);
      |s.scans| < |t.scans| && t.scans[|s.scans|].due == s.scans[i].due && t.scans[|s.scans|].sent == 0
  {
    FinishedScanRecordedAllItOwed(before, i);
    var s := Run(EMPTY, before);
    QuietScanStaysSilent(Step(s, Begin(s.scans[i].due)), after, |s.scans|);
  }
}
