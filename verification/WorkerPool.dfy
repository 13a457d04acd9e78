/**
 The bounded worker pool that maps a handler over a list. The workers share the
 index of the next item and the array of results; between two suspensions a worker
 runs alone, so the pool moves by whole steps: a handler answers, or it throws.
 */
module WorkerPool {
  import opened Options
  import opened Seqs

  datatype Worker = Busy(index: nat) | Finished | Failed

  /** A handler call of this worker ends: with a value, or by throwing. */
  datatype Event<R> = Answer(worker: nat, value: R) | Throw(worker: nat)

  /**
   `calls` are the indices handed to the handler, in order; `answers` and `thrown` are
   what the handler did with them.
   */
  datatype Pool<R> = Pool(
    size: nat,
    next: nat,
    workers: seq<Worker>,
    results: seq<Option<R>>,
    calls: seq<nat>,
    answers: map<nat, R>,
    thrown: set<nat>)

  function WorkerCount(limit: int, size: nat): (count: nat)
    ensures count <= size && (0 <= limit ==> count <= limit)
    ensures count == 0 <==> limit <= 0 || size == 0
  {
    if limit < 0 then 0 else if limit < size then limit else size
  }

  predicate Enabled<R>(p: Pool<R>, e: Event<R>) {
    e.worker < |p.workers| && p.workers[e.worker].Busy? && p.workers[e.worker].index < |p.results|
  }

  /** A worker at the head of its loop takes the next item, if there is one. */
  function Claim<R>(p: Pool<R>, w: nat): Pool<R>
    requires w < |p.workers|
  {
    if p.next < p.size then
      p.(next := p.next + 1, workers := p.workers[w := Busy(p.next)], calls := p.calls + [p.next])
    else
      p.(workers := p.workers[w := Finished])
  }

  function Step<R>(p: Pool<R>, e: Event<R>): Pool<R>
    requires Enabled(p, e)
  {
    var i := p.workers[e.worker].index;
    match e
    case Answer(w, value) =>
      Claim(p.(results := p.results[i := Some(value)], answers := p.answers[i := value]), w)
    case Throw(w) =>
      p.(workers := p.workers[w := Failed], thrown := p.thrown + {i})
  }

  /** Every worker is started before any handler answers, so worker `w` begins with item `w`. */
  function Start<R>(size: nat, limit: int): Pool<R> {
    var count := WorkerCount(limit, size);
    Pool(size, count, seq(count, (w: nat) => Busy(w)), seq(size, i => None), seq(count, i => i), map[], {})
  }

  predicate CanRun<R>(p: Pool<R>, events: seq<Event<R>>)
    decreases |events|
  {
    events == [] || (Enabled(p, events[0]) && CanRun(Step(p, events[0]), events[1..]))
  }

  function Run<R>(p: Pool<R>, events: seq<Event<R>>): Pool<R>
    requires CanRun(p, events)
    decreases |events|
  {
    if events == [] then p else Run(Step(p, events[0]), events[1..])
  }

  ghost predicate Inv<R>(p: Pool<R>) {
    && p.next <= p.size == |p.results|
    && p.calls == seq(p.next, i => i)
    && (forall w | 0 <= w < |p.workers| && p.workers[w].Busy? :: p.workers[w].index < p.next)
    && (forall v, w | 0 <= v < w < |p.workers| && p.workers[v].Busy? && p.workers[w].Busy? ::
          p.workers[v].index != p.workers[w].index)
    && (forall w | 0 <= w < |p.workers| && p.workers[w].Finished? :: p.next == p.size)
    && (p.thrown == {} ==> forall w | 0 <= w < |p.workers| :: !p.workers[w].Failed?)
    && (forall i | 0 <= i < p.size :: p.results[i] == if i in p.answers then Some(p.answers[i]) else None)
    && (forall i: nat | i in p.answers || i in p.thrown :: i < p.next && !InFlight(p, i))
    && p.answers.Keys !! p.thrown
    && (forall i | 0 <= i < p.next :: i in p.answers || i in p.thrown || InFlight(p, i))
  }

  ghost predicate InFlight<R>(p: Pool<R>, i: nat) {
    exists w | 0 <= w < |p.workers| :: p.workers[w] == Busy(i)
  }

  lemma StartKeepsInv<R>(size: nat, limit: int)
    ensures Inv(Start<R>(size, limit))
  {
    var p := Start<R>(size, limit);
    forall i | 0 <= i < p.next ensures InFlight(p, i) {
      assert p.workers[i] == Busy(i);
    }
  }

  lemma InFlightAfter<R>(p: Pool<R>, e: Event<R>, j: nat)
    requires Inv(p) && Enabled(p, e)
    ensures
      var i := p.workers[e.worker].index;
      InFlight(Step(p, e), j) <==> (InFlight(p, j) && j != i) || (e.Answer? && p.next < p.size && j == p.next)
  {
    var q, i := Step(p, e), p.workers[e.worker].index;
    if InFlight(p, j) && j != i {
      var w :| 0 <= w < |p.workers| && p.workers[w] == Busy(j);
      assert q.workers[w] == Busy(j);
    } else if e.Answer? && p.next < p.size && j == p.next {
      assert q.workers[e.worker] == Busy(j);
    }
    assert forall w | 0 <= w < |q.workers| && w != e.worker :: q.workers[w] == p.workers[w];
  }

  lemma StepKeepsInv<R>(p: Pool<R>, e: Event<R>)
    requires Inv(p) && Enabled(p, e)
    ensures Inv(Step(p, e))
  {
    var q := Step(p, e);
    forall j: nat ensures
      InFlight(q, j) <==>
        (InFlight(p, j) && j != p.workers[e.worker].index) || (e.Answer? && p.next < p.size && j == p.next) {
      InFlightAfter(p, e, j);
    }
    assert InFlight(p, p.workers[e.worker].index);
  }

  lemma {:induction false} RunKeepsInv<R>(p: Pool<R>, events: seq<Event<R>>)
    requires Inv(p) && CanRun(p, events)
    ensures Inv(Run(p, events)) && Run(p, events).size == p.size && |Run(p, events).workers| == |p.workers|
    decreases |events|
  {
    if events != [] {
      StepKeepsInv(p, events[0]);
      RunKeepsInv(Step(p, events[0]), events[1..]);
    }
  }

  // ----- What holds at every moment of every run -----

  function BusyCount(workers: seq<Worker>): (count: nat)
    ensures count <= |workers|
  {
    if workers == [] then 0 else (if workers[0].Busy? then 1 else 0) + BusyCount(workers[1..])
  }

  /** The lesser of the limit and the number of items are started, none for a negative limit. */
  lemma WorkersStarted<R>(size: nat, limit: int)
    ensures |Start<R>(size, limit).workers| == if limit < 0 then 0 else if limit < size then limit else size
    ensures Start<R>(size, limit).calls == seq(|Start<R>(size, limit).workers|, i => i)
  {
  }

  /** Items are handed out once each, in order, and never more of them at a time than the limit. */
  lemma EachItemIsHandedOutOnce<R>(size: nat, limit: int, events: seq<Event<R>>)
    requires CanRun(Start<R>(size, limit), events)
    ensures
      var p := Run(Start<R>(size, limit), events);
      && p.next <= size && p.calls == seq(p.next, i => i)
      && (0 <= limit ==> BusyCount(p.workers) <= limit)
      && BusyCount(p.workers) <= size && (limit <= 0 ==> BusyCount(p.workers) == 0)
  {
    StartKeepsInv<R>(size, limit);
    RunKeepsInv(Start<R>(size, limit), events);
  }

  lemma {:induction false} AllBusy(workers: seq<Worker>)
    requires forall w | 0 <= w < |workers| :: workers[w].Busy?
    ensures BusyCount(workers) == |workers|
  {
    if workers != [] { AllBusy(workers[1..]); }
  }

  /**
   While items are left and no handler has thrown, no worker rests: exactly as many calls
   are under way as allowed.
   */
  lemma NoWorkerRests<R>(size: nat, limit: int, events: seq<Event<R>>)
    requires CanRun(Start<R>(size, limit), events)
    ensures
      var p := Run(Start<R>(size, limit), events);
      p.next < size && p.thrown == {} ==>
        BusyCount(p.workers) == if limit < 0 then 0 else if limit < size then limit else size
  {
    StartKeepsInv<R>(size, limit);
    RunKeepsInv(Start<R>(size, limit), events);
    var p := Run(Start<R>(size, limit), events);
    if p.next < size && p.thrown == {} {
      AllBusy(p.workers);
    }
  }

  lemma {:induction false} BusyCountUpdate(workers: seq<Worker>, w: nat, x: Worker)
    requires w < |workers|
    ensures BusyCount(workers[w := x])
      == BusyCount(workers) - (if workers[w].Busy? then 1 else 0) + (if x.Busy? then 1 else 0)
  {
    if w == 0 {
      assert workers[w := x][1..] == workers[1..];
    } else {
      assert workers[w := x][1..] == workers[1..][w - 1 := x];
      BusyCountUpdate(workers[1..], w - 1, x);
    }
  }

  /** The handler calls still to end, begun or not. */
  function Remaining<R>(p: Pool<R>): int {
    p.size - p.next + BusyCount(p.workers)
  }

  lemma StepUsesOneCall<R>(p: Pool<R>, e: Event<R>)
    requires Inv(p) && Enabled(p, e)
    ensures
      var q := Step(p, e);
      && Remaining(q) < Remaining(p)
      && (e.Answer? ==> Remaining(q) == Remaining(p) - 1)
  {
    BusyCountUpdate(p.workers, e.worker, Step(p, e).workers[e.worker]);
  }

  /** Every run is finite: no schedule is longer than the calls that remain. */
  lemma {:induction false} RunsAreBounded<R>(p: Pool<R>, events: seq<Event<R>>)
    requires Inv(p) && CanRun(p, events)
    ensures |events| + Remaining(Run(p, events)) <= Remaining(p)
    ensures (forall e | e in events :: e.Answer?) ==> |events| + Remaining(Run(p, events)) == Remaining(p)
    decreases |events|
  {
    if events != [] {
      StepKeepsInv(p, events[0]);
      StepUsesOneCall(p, events[0]);
      assert (forall e | e in events :: e.Answer?) ==> events[0].Answer? && forall e | e in events[1..] :: e.Answer?;
      RunsAreBounded(Step(p, events[0]), events[1..]);
    }
  }

  // ----- How runs end -----

  predicate Ended<R>(p: Pool<R>) {
    forall w | 0 <= w < |p.workers| :: !p.workers[w].Busy?
  }

  /** All workers resolved, so the combined promise resolves with the results. */
  predicate Resolved<R>(p: Pool<R>) {
    forall w | 0 <= w < |p.workers| :: p.workers[w].Finished?
  }

  /** While a worker is busy its handler may end; nothing else can hold the pool up. */
  lemma NothingBlocks<R>(size: nat, limit: int, events: seq<Event<R>>, value: R)
    requires CanRun(Start<R>(size, limit), events)
    ensures
      var p := Run(Start<R>(size, limit), events);
      Ended(p) <==> !exists w: nat :: Enabled(p, Answer(w, value))
  {
    StartKeepsInv<R>(size, limit);
    RunKeepsInv(Start<R>(size, limit), events);
    var p := Run(Start<R>(size, limit), events);
    if !Ended(p) {
      var w :| 0 <= w < |p.workers| && p.workers[w].Busy?;
      assert Enabled(p, Answer(w, value));
    }
  }

  /**
   When the pool resolves, every result is in its place exactly if the limit is at
   least one or there is nothing to do: a limit of zero or less starts no worker,
   and the promise then resolves with holes.
   */
  lemma ResolvedMeansComplete<R>(size: nat, limit: int, events: seq<Event<R>>)
    requires CanRun(Start<R>(size, limit), events)
    requires Resolved(Run(Start<R>(size, limit), events))
    ensures
      var p := Run(Start<R>(size, limit), events);
      (1 <= limit || size == 0) <==>
        && |p.results| == size
        && p.calls == seq(size, i => i)
        && forall i | 0 <= i < size :: i in p.answers && p.results[i] == Some(p.answers[i])
  {
    StartKeepsInv<R>(size, limit);
    RunKeepsInv(Start<R>(size, limit), events);
    var p := Run(Start<R>(size, limit), events);
    if 1 <= limit && 0 < size {
      assert p.workers[0].Finished?;
      ResolvedRunsThrowNothing(Start<R>(size, limit), events);
      forall i | 0 <= i < size ensures i in p.answers {
        assert !InFlight(p, i);
      }
    } else if 0 < size {
      assert |Start<R>(size, limit).workers| == 0;
      assert events == [];
      assert 0 !in p.answers;
    }
  }

  /** With one item and a limit of zero the pool resolves at once, with a hole. */
  lemma ZeroLimitLeavesHoles<R>()
    ensures
      var p := Start<R>(1, 0);
      Resolved(p) && p.results == [None] && p.calls == []
  {
  }

  /** A throw ends only its own worker: once all have ended, every item was handled if any worker came through. */
  lemma SurvivorsFinishTheWork<R>(size: nat, limit: int, events: seq<Event<R>>)
    requires CanRun(Start<R>(size, limit), events)
    ensures
      var p := Run(Start<R>(size, limit), events);
      Ended(p) && (exists w | 0 <= w < |p.workers| :: p.workers[w].Finished?) ==>
        forall i | 0 <= i < size :: i in p.answers || i in p.thrown
  {
    StartKeepsInv<R>(size, limit);
    RunKeepsInv(Start<R>(size, limit), events);
    var p := Run(Start<R>(size, limit), events);
    if Ended(p) && exists w | 0 <= w < |p.workers| :: p.workers[w].Finished? {
      forall i | 0 <= i < size ensures i in p.answers || i in p.thrown {
        assert !InFlight(p, i);
      }
    }
  }

  ghost predicate SomeFailed<R>(p: Pool<R>) {
    exists w | 0 <= w < |p.workers| :: p.workers[w].Failed?
  }

  lemma {:induction false} FailuresStay<R>(p: Pool<R>, events: seq<Event<R>>)
    requires CanRun(p, events)
    ensures SomeFailed(p) ==> SomeFailed(Run(p, events))
    decreases |events|
  {
    if events != [] {
      if SomeFailed(p) {
        var w :| 0 <= w < |p.workers| && p.workers[w].Failed?;
        assert Step(p, events[0]).workers[w].Failed?;
      }
      FailuresStay(Step(p, events[0]), events[1..]);
    }
  }

  lemma {:induction false} ResolvedRunsThrowNothing<R>(p: Pool<R>, events: seq<Event<R>>)
    requires CanRun(p, events) && Resolved(Run(p, events)) && p.thrown == {}
    ensures Run(p, events).thrown == {}
    decreases |events|
  {
    if events != [] {
      var q := Step(p, events[0]);
      if events[0].Throw? {
        assert q.workers[events[0].worker].Failed?;
        FailuresStay(q, events[1..]);
      }
      ResolvedRunsThrowNothing(q, events[1..]);
    }
  }

  /**
   The schedule does not show: if the handler's answers are a function of the item
   alone, every run that resolves returns that function mapped over the items, in order.
   */
  lemma ResultsDoNotDependOnTheSchedule<T, R>(items: seq<T>, limit: int, handler: (T, nat) -> R, events: seq<Event<R>>)
    requires 1 <= limit
    requires CanRun(Start<R>(|items|, limit), events)
    requires AnswersBy(Start<R>(|items|, limit), events, items, handler)
    requires Resolved(Run(Start<R>(|items|, limit), events))
    ensures
      Run(Start<R>(|items|, limit), events).results
        == seq(|items|, i requires 0 <= i < |items| => Some(handler(items[i], i)))
  {
    var p := Start<R>(|items|, limit);
    StartKeepsInv<R>(|items|, limit);
    ResolvedMeansComplete(|items|, limit, events);
    AnswersComeFromTheHandler(p, events, items, handler);
  }

  ghost predicate AnswersBy<T, R>(p: Pool<R>, events: seq<Event<R>>, items: seq<T>, handler: (T, nat) -> R)
    requires CanRun(p, events)
    decreases |events|
  {
    events == [] ||
    (var e, i := events[0], p.workers[events[0].worker].index;
     && (e.Answer? ==> i < |items| && e.value == handler(items[i], i))
     && AnswersBy(Step(p, e), events[1..], items, handler))
  }

  lemma {:induction false} AnswersComeFromTheHandler<T, R>(
    p: Pool<R>, events: seq<Event<R>>, items: seq<T>, handler: (T, nat) -> R)
    requires Inv(p) && p.size == |items| && CanRun(p, events) && AnswersBy(p, events, items, handler)
    requires forall i | i in p.answers :: i < |items| && p.answers[i] == handler(items[i], i)
    ensures forall i | i in Run(p, events).answers :: i < |items| && Run(p, events).answers[i] == handler(items[i], i)
    decreases |events|
  {
    if events != [] {
      StepKeepsInv(p, events[0]);
      AnswersComeFromTheHandler(Step(p, events[0]), events[1..], items, handler);
    }
  }

  // ----- The shared variables themselves -----

  class SharedPool<R> {
    const size: nat
    var nextIndex: nat
    var workers: seq<Worker>
    const results: array<Option<R>>
    ghost var calls: seq<nat>
    ghost var answers: map<nat, R>
    ghost var thrown: set<nat>

    ghost function Current(): Pool<R>
      reads this, results
    {
      Pool(size, nextIndex, workers, results[..], calls, answers, thrown)
    }

    constructor (size: nat, limit: int)
      ensures Current() == Start<R>(size, limit)
      ensures |workers| == if limit < 0 then 0 else if limit < size then limit else size
      ensures fresh(results)
    {
      this.size := size;
      results := new Option<R>[size](_ => None);
      nextIndex, workers, calls, answers, thrown := 0, [], [], map[], {};
      new;
      var count := WorkerCount(limit, size);
      while |workers| < count
        invariant |workers| == nextIndex <= count
        invariant workers == seq(nextIndex, (w: nat) => Busy(w)) && calls == seq(nextIndex, i => i)
        invariant answers == map[] && thrown == {} && results[..] == seq(size, i => None)
      {
        workers := workers + [Finished];
        ClaimNext(|workers| - 1);
      }
    }

    method ClaimNext(w: nat)
      requires w < |workers|
      modifies this
      ensures Current() == Claim(old(Current()), w)
    {
      if nextIndex < size {
        var currentIndex := nextIndex;
        nextIndex := nextIndex + 1;
        calls := calls + [currentIndex];
        workers := workers[w := Busy(currentIndex)];
      } else {
        workers := workers[w := Finished];
      }
    }

    method HandlerAnswers(w: nat, value: R)
      requires Enabled(Current(), Answer(w, value))
      modifies this, results
      ensures Current() == Step(old(Current()), Answer(w, value))
    {
      var currentIndex := workers[w].index;
      results[currentIndex] := Some(value);
      answers := answers[currentIndex := value];
      ClaimNext(w);
    }

    method HandlerThrows(w: nat)
      requires Enabled(Current(), Throw(w))
      modifies this
      ensures Current() == Step(old(Current()), Throw(w))
    {
      thrown := thrown + {workers[w].index};
      workers := workers[w := Failed];
    }
  }
}
