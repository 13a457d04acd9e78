/**
 The two models of the alert scan agree: a scan of the interleaved system, run alone, does to the
 tables what the loops of the single scan are specified to do.
 */
module LoneScans {
  import opened DecisionAlertRuns
  import opened DecisionAlerts

  function TablesOf(s: System): Tables {
    Tables(s.recorded, s.notified)
  }

  /** The action is one of scan `i`, and fails just as the surroundings have it. */
  predicate Follows(s: System, a: Action, i: nat, world: World)
    requires Enabled(s, a)
  {
    match a
    case Begin(_) => false
    case Record(j) => j == i && Current(s.scans[j]) !in world.failing
    case RecordFails(j, stored) =>
      var k := Current(s.scans[j]);
      j == i && k in world.failing && stored == world.failing[k]
    case Notify(j) => j == i && Current(s.scans[j]) !in world.throwing
    case NotifyFails(j, delivered) =>
      var k := Current(s.scans[j]);
      j == i && k in world.throwing && delivered == world.throwing[k]
  }

  /** A run of scan `i` with no other scan at work. */
  predicate RunsAlone(s: System, actions: seq<Action>, i: nat, world: World)
    decreases |actions|
  {
    actions == [] ||
    (&& Enabled(s, actions[0]) && Follows(s, actions[0], i, world)
     && RunsAlone(Step(s, actions[0]), actions[1..], i, world))
  }

  lemma {:induction false} AloneCanRun(s: System, actions: seq<Action>, i: nat, world: World)
    requires RunsAlone(s, actions, i, world)
    ensures CanRun(s, actions)
    decreases |actions|
  {
    if actions != [] { AloneCanRun(Step(s, actions[0]), actions[1..], i, world); }
  }

  /** Where the scan is: behind a whole try, between recording and sending, or at its end. */
  ghost predicate OnTrack(before: Tables, s: System, i: nat, world: World) {
    && i < |s.scans|
    && var c, t := s.scans[i], TablesOf(s);
       && c.pos <= |c.due|
       && if c.aborted then BrokenOffAt(c.pos, c.due, before, world, t)
          else if c.pending then
            && c.pos < |c.due|
            && Current(c) in t.recorded && Current(c) !in world.failing
            && WorkedOff(c.due[..c.pos], before, world, t.(recorded := t.recorded - {Current(c)}), c.sent)
          else WorkedOff(c.due[..c.pos], before, world, t, c.sent)
  }

  lemma BrokenOffSooner(n: nat, some: seq<Key>, all: seq<Key>, before: Tables, world: World, after: Tables)
    requires some <= all && BrokenOffAt(n, some, before, world, after)
    ensures BrokenOffAt(n, all, before, world, after)
  {
    hide Deliveries, Leaked;
    assert all[..n] == some[..n];
  }

  lemma StepStaysOnTrack(before: Tables, s: System, a: Action, i: nat, world: World)
    requires OnTrack(before, s, i, world) && Enabled(s, a) && Follows(s, a, i, world)
    ensures OnTrack(before, Step(s, a), i, world) && Step(s, a).scans[i].due == s.scans[i].due
  {
    hide WorkedOff, BrokenOffAt;
    var c := s.scans[i];
    var k, done := Current(c), c.due[..c.pos];
    assert c.due[..c.pos + 1] == done + [k];
    var mid := if c.pending then TablesOf(s).(recorded := s.recorded - {k}) else TablesOf(s);
    OneMoreTried(done, k, before, world, mid, c.sent);
    if c.pending {
      assert mid.recorded + {k} == s.recorded;
      if a.NotifyFails? {
        BrokenOffSooner(c.pos, done + [k], c.due, before, world, Tried(mid, k, world));
      }
    } else if k !in s.recorded {
      assert s.recorded + {k} - {k} == s.recorded;
    }
  }

  lemma {:induction false} RunStaysOnTrack(before: Tables, s: System, actions: seq<Action>, i: nat, world: World)
    requires OnTrack(before, s, i, world) && RunsAlone(s, actions, i, world) && CanRun(s, actions)
    ensures OnTrack(before, Run(s, actions), i, world) && Run(s, actions).scans[i].due == s.scans[i].due
    decreases |actions|
  {
    hide OnTrack, Follows;
    if actions != [] {
      StepStaysOnTrack(before, s, actions[0], i, world);
      RunStaysOnTrack(before, Step(s, actions[0]), actions[1..], i, world);
    }
  }

  lemma BeginIsOnTrack(s: System, due: seq<Key>, world: World)
    ensures OnTrack(TablesOf(s), Step(s, Begin(due)), |s.scans|, world)
  {
    assert due[..0] == [];
  }

  /**
   A scan begun in any system and run alone to its end leaves the tables as the single scan does:
   with its whole worklist worked off, or broken off at the first notification that throws.
   */
  lemma LoneScanIsTheScan(s: System, due: seq<Key>, actions: seq<Action>, world: World)
    requires RunsAlone(Step(s, Begin(due)), actions, |s.scans|, world) && CanRun(Step(s, Begin(due)), actions)
    requires !Live(Run(Step(s, Begin(due)), actions), |s.scans|)
    ensures
      var t := Run(Step(s, Begin(due)), actions);
      && |s.scans| < |t.scans|
      && var c := t.scans[|s.scans|];
         if c.aborted then BrokenOff(due, TablesOf(s), world, TablesOf(t))
         else WorkedOff(due, TablesOf(s), world, TablesOf(t), c.sent)
  {
    hide WorkedOff, BrokenOffAt, RunsAlone;
    BeginIsOnTrack(s, due, world);
    RunStaysOnTrack(TablesOf(s), Step(s, Begin(due)), actions, |s.scans|, world);
    var t := Run(Step(s, Begin(due)), actions);
    var c := t.scans[|s.scans|];
    if c.aborted {
      assert BrokenOffAt(c.pos, due, TablesOf(s), world, TablesOf(t));
    } else {
      assert due[..|due|] == due;
    }
  }

  /** What the surroundings have a live scan do next. */
  function NextAction(s: System, i: nat, world: World): (a: Action)
    requires Live(s, i)
    ensures Enabled(s, a) && Follows(s, a, i, world)
  {
    var c := s.scans[i];
    var k := Current(c);
    if c.pending then
      if k in world.throwing then NotifyFails(i, world.throwing[k]) else Notify(i)
    else
      if k in world.failing then RecordFails(i, world.failing[k]) else Record(i)
  }

  /** Left alone, a scan does come to its end, whatever the surroundings. */
  lemma {:induction false} LoneScanEnds(s: System, i: nat, world: World) returns (actions: seq<Action>)
    requires i < |s.scans| && s.scans[i].pos <= |s.scans[i].due|
    ensures RunsAlone(s, actions, i, world) && CanRun(s, actions) && !Live(Run(s, actions), i)
    decreases |s.scans[i].due| - s.scans[i].pos, if s.scans[i].pending then 0 else 1
  {
    if !Live(s, i) {
      actions := [];
    } else {
      var a := NextAction(s, i, world);
      var t := Step(s, a);
      var rest := [];
      if !t.scans[i].aborted {
        rest := LoneScanEnds(t, i, world);
      }
      actions := [a] + rest;
      assert actions[1..] == rest;
    }
  }
}
