/** The event loop that utils/bench-scheduler.cc measures: a population of events, each of which schedules its
    successor until enough have been executed. */
module BenchLoop {

  /** A scheduled callback; equal times are told apart by the order of scheduling. */
  datatype Event = Event(time: nat, uid: nat)

  predicate Earlier(a: Event, b: Event) {
    a.time < b.time || (a.time == b.time && a.uid < b.uid)
  }

  lemma {:induction false} EarliestExists(events: set<Event>) returns (first: Event)
    requires events != {}
    requires forall a, b | a in events && b in events && a.uid == b.uid :: a == b
    ensures first in events && forall e | e in events && e != first :: Earlier(first, e)
  {
    var e :| e in events;
    if events == {e} {
      return e;
    }
    assert events == (events - {e}) + {e};
    first := EarliestExists(events - {e});
    assert e.uid != first.uid;
    if Earlier(e, first) {
      first := e;
    }
  }

  /** The callbacks executed so far ran in order, and all of them before anything still pending. */
  ghost predicate RanInOrder(executed: seq<Event>, pending: set<Event>, now: nat, nextUid: nat) {
    && (forall i, j | 0 <= i < j < |executed| :: Earlier(executed[i], executed[j]))
    && (forall i, e | 0 <= i < |executed| && e in pending :: Earlier(executed[i], e))
    && (forall i | 0 <= i < |executed| :: executed[i].uid < nextUid && executed[i].time <= now)
  }

  lemma NothingRan(pending: set<Event>, now: nat, nextUid: nat)
    ensures RanInOrder([], pending, now, nextUid)
  {
  }

  lemma AllRanInOrder(executed: seq<Event>, pending: set<Event>, now: nat, nextUid: nat)
    requires RanInOrder(executed, pending, now, nextUid)
    ensures forall i, j | 0 <= i < j < |executed| :: Earlier(executed[i], executed[j])
  {
  }

  lemma RunNext(executed: seq<Event>, pending: set<Event>, now: nat, nextUid: nat, e: Event)
    requires RanInOrder(executed, pending, now, nextUid) && e in pending && now <= e.time && e.uid < nextUid
    requires forall f | f in pending && f != e :: Earlier(e, f)
    ensures RanInOrder(executed + [e], pending - {e}, e.time, nextUid)
  {
  }

  lemma ScheduleNext(executed: seq<Event>, pending: set<Event>, now: nat, nextUid: nat, delay: nat)
    requires RanInOrder(executed, pending, now, nextUid)
    ensures RanInOrder(executed, pending + {Event(now + delay, nextUid)}, now, nextUid + 1)
  {
  }

  // ---- When the callbacks run ----

  /** How a run begins: the next number and the clock of the simulator, how many delays have been drawn from the
      stream, and the population. */
  datatype Start = Start(uid: nat, now: nat, draws: nat, population: nat, delays: nat -> nat)

  /** The k-th event of a run, counted from 0, has the k-th delay drawn. The events of the first population are delayed
      from the start, and each later one from the callback that scheduled it, its predecessor by the population. */
  ghost predicate IsTimed(start: Start, executed: seq<Event>, e: Event) {
    var k := e.uid - start.uid;
    && 0 <= k < start.population + |executed|
    && e.time == start.delays(start.draws + k) +
                 if k < start.population then start.now else executed[k - start.population].time
  }

  ghost predicate AllTimed(start: Start, executed: seq<Event>, pending: set<Event>) {
    && (forall i | 0 <= i < |executed| :: IsTimed(start, executed, executed[i]))
    && (forall e | e in pending :: IsTimed(start, executed, e))
  }

  lemma TimedNext(start: Start, executed: seq<Event>, pending: set<Event>, e: Event)
    requires AllTimed(start, executed, pending) && e in pending
    ensures AllTimed(start, executed + [e], pending - {e})
  {
    forall f | IsTimed(start, executed, f) ensures IsTimed(start, executed + [e], f) {
    }
  }

  lemma TimedSchedule(start: Start, executed: seq<Event>, pending: set<Event>, e: Event)
    requires AllTimed(start, executed, pending) && IsTimed(start, executed, e)
    ensures AllTimed(start, executed, pending + {e})
  {
  }

  lemma NewIsTimed(start: Start, executed: seq<Event>, now: nat, delay: nat, uid: nat)
    requires executed != [] && now == executed[|executed| - 1].time
    requires uid == start.uid + start.population + |executed| - 1
    requires delay == start.delays(start.draws + start.population + |executed| - 1)
    ensures IsTimed(start, executed, Event(now + delay, uid))
  {
  }

  lemma FirstIsTimed(start: Start, pending: set<Event>, i: nat, delay: nat)
    requires AllTimed(start, [], pending) && i < start.population && delay == start.delays(start.draws + i)
    ensures AllTimed(start, [], pending + {Event(start.now + delay, start.uid + i)})
  {
  }

  lemma NothingTimed(start: Start)
    ensures AllTimed(start, [], {})
  {
  }

  /** What the loop keeps: the callbacks ran in order, and every event has its time. */
  ghost predicate Progress(start: Start, executed: seq<Event>, pending: set<Event>, now: nat, nextUid: nat) {
    RanInOrder(executed, pending, now, nextUid) && AllTimed(start, executed, pending)
  }

  lemma NextProgress(start: Start, executed: seq<Event>, pending: set<Event>, now: nat, nextUid: nat, e: Event)
    requires Progress(start, executed, pending, now, nextUid) && e in pending && now <= e.time && e.uid < nextUid
    requires forall f | f in pending - {e} :: Earlier(e, f)
    ensures Progress(start, executed + [e], pending - {e}, e.time, nextUid)
  {
    RunNext(executed, pending, now, nextUid, e);
    TimedNext(start, executed, pending, e);
  }

  lemma ScheduleProgress(start: Start, executed: seq<Event>, pending: set<Event>, now: nat, nextUid: nat, delay: nat)
    requires Progress(start, executed, pending, now, nextUid)
    requires executed != [] && now == executed[|executed| - 1].time
    requires nextUid == start.uid + start.population + |executed| - 1
    requires delay == start.delays(start.draws + start.population + |executed| - 1)
    ensures Progress(start, executed, pending + {Event(now + delay, nextUid)}, now, nextUid + 1)
  {
    ScheduleNext(executed, pending, now, nextUid, delay);
    NewIsTimed(start, executed, now, delay, nextUid);
    TimedSchedule(start, executed, pending, Event(now + delay, nextUid));
  }

  lemma ProgressMeans(start: Start, executed: seq<Event>, pending: set<Event>, now: nat, nextUid: nat)
    requires Progress(start, executed, pending, now, nextUid)
    ensures forall i, j | 0 <= i < j < |executed| :: Earlier(executed[i], executed[j])
    ensures forall i | 0 <= i < |executed| :: IsTimed(start, executed, executed[i])
  {
    AllRanInOrder(executed, pending, now, nextUid);
  }

  lemma RemovedOne(events: set<Event>, e: Event)
    requires e in events
    ensures |events - {e}| == |events| - 1
  {
    assert events == (events - {e}) + {e};
  }

  /** The part of the simulator the benchmark relies on: events run in time order, and a stop takes effect
      after the current event. */
  class Simulator {
    var now: nat
    var nextUid: nat
    var pending: set<Event>
    var stopped: bool

    ghost predicate Valid()
      reads this
    {
      && (forall e | e in pending :: now <= e.time && e.uid < nextUid)
      && (forall a, b | a in pending && b in pending && a.uid == b.uid :: a == b)
    }

    constructor ()
      ensures Valid() && pending == {} && now == 0 && nextUid == 0
    {
      now, nextUid, pending, stopped := 0, 0, {}, false;
    }

    method Schedule(delay: nat)
      requires Valid()
      modifies this
      ensures Valid() && now == old(now) && stopped == old(stopped) && nextUid == old(nextUid) + 1
      ensures pending == old(pending) + {Event(now + delay, old(nextUid))} && |pending| == |old(pending)| + 1
    {
      pending := pending + {Event(now + delay, nextUid)};
      nextUid := nextUid + 1;
    }

    /** A run begins without a stop. */
    method Start()
      requires Valid()
      modifies this`stopped
      ensures Valid() && !stopped
    {
      stopped := false;
    }

    method Stop()
      requires Valid()
      modifies this`stopped
      ensures Valid() && stopped
    {
      stopped := true;
    }

    /** Takes the earliest event and moves the clock to it. */
    method Next() returns (e: Event)
      requires Valid() && pending != {}
      modifies this`now, this`pending
      ensures Valid() && e in old(pending) && pending == old(pending) - {e} && now == e.time
      ensures |pending| == |old(pending)| - 1 && old(now) <= e.time && e.uid < nextUid
      ensures forall f | f in pending :: Earlier(e, f)
    {
      ghost var first := EarliestExists(pending);
      e :| e in pending && forall f | f in pending && f != e :: Earlier(e, f);
      RemovedOne(pending, e);
      pending := pending - {e};
      now := e.time;
      assert forall f | f in pending :: Earlier(e, f) && e.time <= f.time;
    }

    method Destroy()
      modifies this
      ensures Valid() && pending == {} && now == 0 && nextUid == 0
    {
      now, nextUid, pending, stopped := 0, 0, {}, false;
    }
  }

  datatype Result = Result(pop: nat, events: nat)

  class Bench {
    const simulator: Simulator
    /** The random stream: the k-th delay drawn from it. */
    const delays: nat -> nat
    var population: nat
    var total: nat
    var count: nat
    var draws: nat

    constructor (simulator: Simulator, delays: nat -> nat, population: nat, total: nat)
      ensures this.simulator == simulator && this.delays == delays
      ensures this.population == population && this.total == total && count == 0
    {
      this.simulator, this.delays, this.population, this.total := simulator, delays, population, total;
      count, draws := 0, 0;
    }

    /** The event function: replaces itself by one new event, or stops the loop once enough have run. */
    method Cb() returns (ghost delay: nat)
      requires simulator.Valid() && count <= total
      modifies this`count, this`draws, simulator
      ensures simulator.Valid() && count <= total
      ensures simulator.now == old(simulator.now)
      ensures old(count) == total ==>
                && simulator.stopped && count == total && draws == old(draws)
                && simulator.pending == old(simulator.pending) && simulator.nextUid == old(simulator.nextUid)
      ensures old(count) < total ==>
                && simulator.stopped == old(simulator.stopped) && count == old(count) + 1
                && simulator.nextUid == old(simulator.nextUid) + 1
                && delay == delays(old(draws)) && draws == old(draws) + 1
                && |simulator.pending| == |old(simulator.pending)| + 1
                && simulator.pending == old(simulator.pending) + {Event(simulator.now + delay, old(simulator.nextUid))}
    {
      hide Simulator.Valid;
      delay := 0;
      if count >= total {
        simulator.Stop();
        return;
      }
      var after := delays(draws);
      delay := after;
      draws := draws + 1;
      simulator.Schedule(after);
      count := count + 1;
    }

    ghost function Begin(): Start
      reads this, simulator
    {
      Start(simulator.nextUid, simulator.now, draws, population, delays)
    }

    /** Schedules the first population. */
    method Populate()
      requires simulator.Valid() && simulator.pending == {}
      modifies this`draws, simulator
      ensures simulator.Valid() && |simulator.pending| == population && simulator.stopped == old(simulator.stopped)
      ensures simulator.nextUid == old(simulator.nextUid) + population && draws == old(draws) + population
      ensures AllTimed(old(Begin()), [], simulator.pending)
    {
      hide AllTimed, IsTimed, Earlier, Simulator.Valid;
      ghost var start := Begin();
      NothingTimed(start);
      for i := 0 to population
        invariant simulator.Valid() && |simulator.pending| == i && simulator.stopped == old(simulator.stopped)
        invariant simulator.nextUid == start.uid + i && simulator.now == start.now && draws == start.draws + i
        invariant AllTimed(start, [], simulator.pending)
      {
        var at := delays(draws);
        FirstIsTimed(start, simulator.pending, i, at);
        draws := draws + 1;
        simulator.Schedule(at);
      }
    }

    /** One run. `executed` lists the callbacks in the order in which they ran, each with its time, `between` the
        number of pending events and the count before each of them, and `left` the events still pending when the
        loop ended. */
    method Run() returns (result: Result, executed: seq<Event>, left: nat, ghost between: seq<(nat, nat)>)
      requires simulator.Valid() && simulator.pending == {}
      modifies this`count, this`draws, simulator
      ensures simulator.Valid() && simulator.pending == {}
      ensures result.pop == population && result.events == count
      ensures population > 0 ==> |executed| == total + 1 && count == total && left == population - 1
      ensures population == 0 ==> |executed| == 0 && count == 0 && left == 0
      ensures |between| == |executed| && forall i | 0 <= i < |between| :: between[i] == (population, i)
      ensures forall i, j | 0 <= i < j < |executed| :: Earlier(executed[i], executed[j])
      ensures forall i | 0 <= i < |executed| :: IsTimed(old(Begin()), executed, executed[i])
      ensures draws == old(draws) + population + count && simulator.now == 0 && simulator.nextUid == 0
    {
      hide Earlier, IsTimed, AllTimed, Simulator.Valid;
      ghost var start := Begin();
      count := 0;
      Populate();
      simulator.Start();
      executed, between := RunEvents(start);
      left := |simulator.pending|;
      result := Result(population, count);
      simulator.Destroy();
    }

    /** What holds between two callbacks: the population is pending and every callback has been counted, until the last
        one has stopped the loop. */
    ghost predicate InLoop(start: Start, executed: seq<Event>)
      reads this, simulator
    {
      && simulator.Valid() && count <= total && start.population == population && start.delays == delays
      && (!simulator.stopped ==> |simulator.pending| == population && |executed| == count)
      && (simulator.stopped ==> |simulator.pending| == population - 1 && |executed| == total + 1 && count == total)
      && Progress(start, executed, simulator.pending, simulator.now, simulator.nextUid)
      && simulator.nextUid == start.uid + population + count && draws == start.draws + population + count
    }

    /** Executes the earliest pending event. */
    method ProcessOneEvent(ghost start: Start, ghost executed: seq<Event>) returns (e: Event)
      requires InLoop(start, executed) && simulator.pending != {} && !simulator.stopped
      modifies this`count, this`draws, simulator
      ensures InLoop(start, executed + [e])
      ensures count == if simulator.stopped then old(count) else old(count) + 1
    {
      hide Earlier, Progress, Simulator.Valid;
      ghost var pending, now := simulator.pending, simulator.now;
      e := simulator.Next();
      NextProgress(start, executed, pending, now, simulator.nextUid, e);
      ghost var rest, uid := simulator.pending, simulator.nextUid;
      ghost var delay := Cb();
      if !simulator.stopped {
        ScheduleProgress(start, executed + [e], rest, simulator.now, uid, delay);
      }
    }

    /** The simulator's loop: executes pending events, earliest first, until none is left or a stop. Before each
        callback the whole population is pending and every callback so far has been counted. */
    method RunEvents(ghost start: Start) returns (executed: seq<Event>, ghost between: seq<(nat, nat)>)
      requires simulator.Valid() && |simulator.pending| == population && !simulator.stopped && count == 0
      requires start.population == population && start.delays == delays && AllTimed(start, [], simulator.pending)
      requires simulator.nextUid == start.uid + population && draws == start.draws + population
      modifies this`count, this`draws, simulator
      ensures simulator.Valid()
      ensures population > 0 ==> |executed| == total + 1 && count == total && |simulator.pending| == population - 1
      ensures population == 0 ==> |executed| == 0 && count == 0 && |simulator.pending| == 0
      ensures |between| == |executed| && forall i | 0 <= i < |between| :: between[i] == (population, i)
      ensures forall i, j | 0 <= i < j < |executed| :: Earlier(executed[i], executed[j])
      ensures forall i | 0 <= i < |executed| :: IsTimed(start, executed, executed[i])
      ensures draws == start.draws + population + count
    {
      hide Earlier, IsTimed, AllTimed, RanInOrder, Simulator.Valid;
      executed, between := [], [];
      NothingRan(simulator.pending, simulator.now, simulator.nextUid);
      assert Progress(start, executed, simulator.pending, simulator.now, simulator.nextUid);
      hide Progress;
      while simulator.pending != {} && !simulator.stopped
        invariant InLoop(start, executed) && (population == 0 ==> !simulator.stopped && count == 0)
        invariant |between| == |executed| && forall i | 0 <= i < |between| :: between[i] == (population, i)
        decreases total - count + if simulator.stopped then 0 else 1
      {
        between := between + [(|simulator.pending|, count)];
        var e := ProcessOneEvent(start, executed);
        executed := executed + [e];
      }
      ProgressMeans(start, executed, simulator.pending, simulator.now, simulator.nextUid);
    }
  }

  /** The suite: one priming run and then the measured ones, each of which starts afresh and executes the
      configured number of events. */
  method RunSuite(population: nat, total: nat, runs: nat, delays: nat -> nat) returns (results: seq<Result>)
    ensures |results| == runs
    ensures forall r | r in results :: r == Result(population, if population > 0 then total else 0)
  {
    var simulator := new Simulator();
    var bench := new Bench(simulator, delays, population, total);
    var prime, _, _, _ := bench.Run();
    results := [];
    for i := 0 to runs
      invariant simulator.Valid() && simulator.pending == {}
      invariant bench.simulator == simulator && bench.population == population && bench.total == total
      invariant |results| == i
      invariant forall r | r in results :: r == Result(population, if population > 0 then total else 0)
    {
      var result, _, _, _ := bench.Run();
      results := results + [result];
    }
  }
}
