/** The parallel test runner of test.py as a transition system: one dispatcher that also collects,
    a fixed pool of worker threads, two unbounded FIFO queues and an interrupt that may arrive at
    any moment. */
module TestRunner {

  /** N jobs, numbered in dispatch order, and P worker threads. */
  datatype Config = Config(N: nat, P: nat)

  /** An entry of the input queue. */
  datatype Task = Real(id: nat) | Sentinel

  /** An entry of the output queue: a job comes back with a result, or as a break when its worker saw
      the interrupt. */
  datatype Report = Report(id: nat, interrupted: bool)

  /** Where a worker stands in its loop: blocked on the input queue, holding a job before it looks at the
      interrupt flag, running or skipping the job, about to put a report, or returned. */
  datatype Worker = Waiting | Got(id: nat) | Running(id: nat) | Reporting(report: Report) | Exited

  /** `sent` counts the tasks put so far, the N jobs and then P sentinels; `joined` the threads joined. */
  datatype State = State(
    sent: nat,
    input: seq<Task>,
    workers: seq<Worker>,
    output: seq<Report>,
    collected: seq<Report>,
    joined: nat,
    exitFlag: bool)

  datatype Action =
    | Send
    | Collect
    | Join
    | Take(w: nat)
    | LookAtFlag(w: nat)
    | Finish(w: nat)
    | Put(w: nat)
    | Interrupt

  function Init(c: Config): State {
    State(0, [], seq(c.P, i => Waiting), [], [], 0, false)
  }

  /** The tasks in the order in which the main thread puts them. */
  function TaskAt(c: Config, k: nat): Task {
    if k < c.N then Real(k) else Sentinel
  }

  predicate Enabled(c: Config, s: State, a: Action) {
    match a
    case Send => s.sent < c.N + c.P
    case Collect => s.sent == c.N + c.P && |s.collected| < c.N && s.output != []
    case Join =>
      s.sent == c.N + c.P && |s.collected| == c.N && s.joined < c.P &&
      s.joined < |s.workers| && s.workers[s.joined] == Exited
    case Take(w) => w < |s.workers| && s.workers[w] == Waiting && s.input != []
    case LookAtFlag(w) => w < |s.workers| && s.workers[w].Got?
    case Finish(w) => w < |s.workers| && s.workers[w].Running?
    case Put(w) => w < |s.workers| && s.workers[w].Reporting?
    case Interrupt => true
  }

  function Apply(c: Config, s: State, a: Action): State
    requires Enabled(c, s, a)
  {
    match a
    case Send => s.(sent := s.sent + 1, input := s.input + [TaskAt(c, s.sent)])
    case Collect => s.(output := s.output[1..], collected := s.collected + [s.output[0]])
    case Join => s.(joined := s.joined + 1)
    case Take(w) =>
      s.(input := s.input[1..],
         workers := s.workers[w := if s.input[0].Real? then Got(s.input[0].id) else Exited])
    case LookAtFlag(w) =>
      var id := s.workers[w].id;
      s.(workers := s.workers[w := if s.exitFlag then Reporting(Report(id, true)) else Running(id)])
    case Finish(w) => s.(workers := s.workers[w := Reporting(Report(s.workers[w].id, false))])
    case Put(w) => s.(output := s.output + [s.workers[w].report], workers := s.workers[w := Waiting])
    case Interrupt => s.(exitFlag := true)
  }

  /** The main thread has collected N reports and joined every worker. */
  predicate Done(c: Config, s: State) {
    s.sent == c.N + c.P && |s.collected| == c.N && s.joined == c.P
  }

  // ---- Runs ----

  /** The actions can be taken one after the other from s. */
  predicate Runs(c: Config, s: State, actions: seq<Action>)
    decreases |actions|
  {
    actions == [] || (Enabled(c, s, actions[0]) && Runs(c, Apply(c, s, actions[0]), actions[1..]))
  }

  function After(c: Config, s: State, actions: seq<Action>): State
    requires Runs(c, s, actions)
    decreases |actions|
  {
    if actions == [] then s else After(c, Apply(c, s, actions[0]), actions[1..])
  }

  // ---- Counting over workers and reports ----

  function Sum(ws: seq<Worker>, f: Worker -> nat): nat {
    if ws == [] then 0 else f(ws[0]) + Sum(ws[1..], f)
  }

  function Holding(id: nat): Worker -> nat {
    (w: Worker) => match w
         case Got(i) => if i == id then 1 else 0
         case Running(i) => if i == id then 1 else 0
         case Reporting(r) => if r.id == id then 1 else 0
         case Waiting => 0
         case Exited => 0
  }

  function HasExited(): Worker -> nat {
    w => if w == Exited then 1 else 0
  }

  function Occurrences(rs: seq<Report>, id: nat): nat {
    if rs == [] then 0 else (if rs[0].id == id then 1 else 0) + Occurrences(rs[1..], id)
  }

  lemma {:induction false} SumUpdate(ws: seq<Worker>, w: nat, x: Worker, f: Worker -> nat)
    requires w < |ws|
    ensures Sum(ws[w := x], f) + f(ws[w]) == Sum(ws, f) + f(x)
    decreases w
  {
    if w == 0 {
      assert ws[0 := x][1..] == ws[1..];
    } else {
      SumUpdate(ws[1..], w - 1, x, f);
      assert ws[w := x][1..] == ws[1..][w - 1 := x];
    }
  }

  lemma {:induction false} NoneExited(ws: seq<Worker>)
    ensures Sum(ws, HasExited()) == 0 <==> Exited !in ws
  {
    if ws != [] {
      NoneExited(ws[1..]);
      assert ws == [ws[0]] + ws[1..];
    }
  }

  lemma {:induction false} SumAllSame(ws: seq<Worker>, f: Worker -> nat, each: nat)
    requires forall w | w in ws :: f(w) == each
    ensures Sum(ws, f) == each * |ws|
  {
    if ws != [] {
      SumAllSame(ws[1..], f, each);
      assert ws[0] in ws;
    }
  }

  lemma {:induction false} OccurrencesAppend(rs: seq<Report>, r: Report, id: nat)
    ensures Occurrences(rs + [r], id) == Occurrences(rs, id) + if r.id == id then 1 else 0
  {
    if rs != [] {
      OccurrencesAppend(rs[1..], r, id);
      assert (rs + [r])[1..] == rs[1..] + [r];
    }
  }

  // ---- The invariant ----

  /** How many tasks the workers have taken. */
  function Taken(s: State): int {
    s.sent - |s.input|
  }

  /** How many jobs have left the input queue. */
  function TakenJobs(c: Config, s: State): int {
    if Taken(s) < c.N then Taken(s) else c.N
  }

  /** The input queue is a window of the dispatch order. */
  ghost predicate QueueInOrder(c: Config, s: State) {
    && 0 <= Taken(s) && s.sent <= c.N + c.P
    && forall k | 0 <= k < |s.input| :: s.input[k] == TaskAt(c, Taken(s) + k)
  }

  /** How often a job is in a worker's hands, in the output queue or collected. */
  function Places(s: State, id: nat): nat {
    Sum(s.workers, Holding(id)) + Occurrences(s.output, id) + Occurrences(s.collected, id)
  }

  /** A job that has left the input queue is in one place, once; any other is in none. */
  ghost predicate JobsConserved(c: Config, s: State) {
    forall id: nat :: Places(s, id) == if id < TakenJobs(c, s) then 1 else 0
  }

  /** Each sentinel that has been taken has ended one worker. */
  ghost predicate SentinelsEndWorkers(c: Config, s: State) {
    |s.workers| == c.P && Sum(s.workers, HasExited()) == Taken(s) - TakenJobs(c, s)
  }

  /** The main thread sends, then collects, then joins in order. */
  ghost predicate MainInOrder(c: Config, s: State) {
    && |s.collected| <= c.N
    && s.joined <= c.P == |s.workers|
    && (forall w | 0 <= w < s.joined :: s.workers[w] == Exited)
    && (|s.collected| > 0 || s.joined > 0 ==> s.sent == c.N + c.P)
    && (s.joined > 0 ==> |s.collected| == c.N)
  }

  /** No job has been turned into a break. */
  ghost predicate NoBreaks(s: State) {
    && (forall r | r in s.output :: !r.interrupted)
    && (forall r | r in s.collected :: !r.interrupted)
    && (forall w | w in s.workers && w.Reporting? :: !w.report.interrupted)
  }

  ghost predicate Inv(c: Config, s: State) {
    && QueueInOrder(c, s)
    && JobsConserved(c, s)
    && SentinelsEndWorkers(c, s)
    && MainInOrder(c, s)
    && (!s.exitFlag ==> NoBreaks(s))
  }

  lemma InitInv(c: Config)
    ensures Inv(c, Init(c))
  {
    var s := Init(c);
    forall id: nat ensures Places(s, id) == 0 {
      SumAllSame(s.workers, Holding(id), 0);
    }
    SumAllSame(s.workers, HasExited(), 0);
  }

  lemma QueueStep(c: Config, s: State, a: Action)
    requires QueueInOrder(c, s) && Enabled(c, s, a)
    ensures QueueInOrder(c, Apply(c, s, a))
  {
  }

  lemma JobsStep(c: Config, s: State, a: Action)
    requires QueueInOrder(c, s) && JobsConserved(c, s) && Enabled(c, s, a)
    ensures JobsConserved(c, Apply(c, s, a))
  {
    var s' := Apply(c, s, a);
    forall id: nat ensures Places(s', id) == if id < TakenJobs(c, s') then 1 else 0 {
      assert Places(s, id) == if id < TakenJobs(c, s) then 1 else 0;
      match a
      case Send =>
      case Collect => OccurrencesAppend(s.collected, s.output[0], id);
      case Join =>
      case Take(w) => SumUpdate(s.workers, w, s'.workers[w], Holding(id));
      case LookAtFlag(w) => SumUpdate(s.workers, w, s'.workers[w], Holding(id));
      case Finish(w) => SumUpdate(s.workers, w, s'.workers[w], Holding(id));
      case Put(w) =>
        SumUpdate(s.workers, w, Waiting, Holding(id));
        OccurrencesAppend(s.output, s.workers[w].report, id);
      case Interrupt =>
    }
  }

  lemma SentinelStep(c: Config, s: State, a: Action)
    requires QueueInOrder(c, s) && SentinelsEndWorkers(c, s) && Enabled(c, s, a)
    ensures SentinelsEndWorkers(c, Apply(c, s, a))
  {
    if a.Take? || a.LookAtFlag? || a.Finish? || a.Put? {
      SumUpdate(s.workers, a.w, Apply(c, s, a).workers[a.w], HasExited());
    }
  }

  lemma MainStep(c: Config, s: State, a: Action)
    requires MainInOrder(c, s) && Enabled(c, s, a)
    ensures MainInOrder(c, Apply(c, s, a))
  {
  }

  lemma BreakStep(c: Config, s: State, a: Action)
    requires NoBreaks(s) && !s.exitFlag && Enabled(c, s, a) && a != Interrupt
    ensures NoBreaks(Apply(c, s, a))
  {
    if a.LookAtFlag? || a.Finish? || a.Put? {
      assert s.workers[a.w] in s.workers;
    }
  }

  lemma StepInv(c: Config, s: State, a: Action)
    requires Inv(c, s) && Enabled(c, s, a)
    ensures Inv(c, Apply(c, s, a))
  {
    hide QueueInOrder, JobsConserved, SentinelsEndWorkers, MainInOrder, NoBreaks;
    QueueStep(c, s, a);
    JobsStep(c, s, a);
    SentinelStep(c, s, a);
    MainStep(c, s, a);
    if a != Interrupt && !s.exitFlag {
      BreakStep(c, s, a);
    }
  }

  // ---- Safety over whole runs ----

  lemma {:induction false} RunInv(c: Config, s: State, actions: seq<Action>)
    requires Inv(c, s) && Runs(c, s, actions)
    ensures Inv(c, After(c, s, actions))
    decreases |actions|
  {
    if actions != [] {
      StepInv(c, s, actions[0]);
      RunInv(c, Apply(c, s, actions[0]), actions[1..]);
    }
  }

  ghost predicate Reachable(c: Config, s: State) {
    exists actions :: Runs(c, Init(c), actions) && After(c, Init(c), actions) == s
  }

  lemma ReachableInv(c: Config, s: State)
    requires Reachable(c, s)
    ensures Inv(c, s)
  {
    var actions :| Runs(c, Init(c), actions) && After(c, Init(c), actions) == s;
    InitInv(c);
    RunInv(c, Init(c), actions);
  }

  /** The sentinels form a suffix of the input queue; exactly as many workers have returned as sentinels have
      been taken, so a job that became a break ends no worker; and no worker has returned while a job is
      still in the queue or still to be sent. */
  lemma SentinelsLast(c: Config, s: State)
    requires Reachable(c, s)
    ensures forall i, j | 0 <= i < j < |s.input| && s.input[i] == Sentinel :: s.input[j] == Sentinel
    ensures Sum(s.workers, HasExited()) == if Taken(s) > c.N then Taken(s) - c.N else 0
    ensures (exists t :: t in s.input && t.Real?) || s.sent < c.N ==> Exited !in s.workers
  {
    ReachableInv(c, s);
    NoneExited(s.workers);
  }

  /** Every job is in exactly one of five places: not sent, in the input queue, in a worker's hands, in the
      output queue, collected. */
  lemma EveryJobInOnePlace(c: Config, s: State, id: nat)
    requires Reachable(c, s) && id < c.N
    ensures (if id >= s.sent then 1 else 0) + multiset(s.input)[Real(id)] + Places(s, id) == 1
  {
    ReachableInv(c, s);
    WindowCount(c, s.input, Taken(s), id);
  }

  lemma {:induction false} WindowCount(c: Config, tasks: seq<Task>, from: nat, id: nat)
    requires id < c.N && forall k | 0 <= k < |tasks| :: tasks[k] == TaskAt(c, from + k)
    ensures multiset(tasks)[Real(id)] == if from <= id < from + |tasks| then 1 else 0
  {
    if tasks != [] {
      WindowCount(c, tasks[1..], from + 1, id);
      assert tasks == [tasks[0]] + tasks[1..];
    }
  }

  // ---- Deadlock freedom ----

  /** Nothing but a further interrupt can happen. */
  ghost predicate Quiescent(c: Config, s: State) {
    forall a | Enabled(c, s, a) :: a == Interrupt
  }

  /** While the collector still waits for results, one is queued, one is in a worker's hands, or a job is in
      the input queue and a worker is there to take it. */
  lemma ResultOnItsWay(c: Config, s: State)
    requires Reachable(c, s) && c.P >= 1 && s.sent == c.N + c.P && |s.collected| < c.N
    ensures || s.output != []
            || (exists w :: w in s.workers && w != Waiting && w != Exited)
            || (s.input != [] && s.input[0].Real? && Waiting in s.workers)
  {
    ReachableInv(c, s);
    if s.output == [] && forall w | w in s.workers :: w == Waiting || w == Exited {
      CollectedAreTaken(c, s);
      assert s.input[0] == TaskAt(c, Taken(s));
      NoneExited(s.workers);
      assert s.workers[0] in s.workers;
    }
  }

  /** With empty hands and an empty output queue, the jobs taken are the jobs collected. */
  lemma CollectedAreTaken(c: Config, s: State)
    requires Inv(c, s) && s.output == [] && forall w | w in s.workers :: w == Waiting || w == Exited
    ensures |s.collected| == TakenJobs(c, s)
  {
    forall id: nat ensures Occurrences(s.collected, id) == if id < TakenJobs(c, s) then 1 else 0 {
      SumAllSame(s.workers, Holding(id), 0);
      assert Places(s, id) == Occurrences(s.collected, id);
    }
    CountBelow(s.collected, TakenJobs(c, s));
  }

  lemma {:induction false} OccurrencesRemove(rs: seq<Report>, i: nat, id: nat)
    requires i < |rs|
    ensures Occurrences(rs, id) == Occurrences(rs[..i] + rs[i + 1..], id) + if rs[i].id == id then 1 else 0
  {
    if i == 0 {
      assert rs[..0] + rs[1..] == rs[1..];
    } else {
      OccurrencesRemove(rs[1..], i - 1, id);
      assert (rs[..i] + rs[i + 1..])[1..] == rs[1..][..i - 1] + rs[1..][i..];
    }
  }

  lemma {:induction false} OccurrencePosition(rs: seq<Report>, id: nat) returns (i: nat)
    requires Occurrences(rs, id) > 0
    ensures i < |rs| && rs[i].id == id
  {
    if rs[0].id == id {
      return 0;
    }
    var j := OccurrencePosition(rs[1..], id);
    return j + 1;
  }

  lemma FirstOccurs(rs: seq<Report>)
    ensures rs != [] ==> Occurrences(rs, rs[0].id) > 0
  {
  }

  /** Reports in which the numbers below n occur once and no others occur are n in number. */
  lemma {:induction false} CountBelow(rs: seq<Report>, n: nat)
    requires forall id: nat :: Occurrences(rs, id) == if id < n then 1 else 0
    ensures |rs| == n
    decreases n
  {
    FirstOccurs(rs);
    if n > 0 {
      var i := OccurrencePosition(rs, n - 1);
      var rest := rs[..i] + rs[i + 1..];
      forall id: nat ensures Occurrences(rest, id) == if id < n - 1 then 1 else 0 {
        OccurrencesRemove(rs, i, id);
      }
      CountBelow(rest, n - 1);
    }
  }

  /** With a worker, nothing is left to happen only when the run is over. */
  lemma QuiescentIsDone(c: Config, s: State)
    requires Reachable(c, s) && c.P >= 1 && Quiescent(c, s)
    ensures Done(c, s)
  {
    ReachableInv(c, s);
    assert !Enabled(c, s, Send) && !Enabled(c, s, Collect) && !Enabled(c, s, Join);
    forall w: nat | w < |s.workers| ensures s.workers[w] == Exited || (s.workers[w] == Waiting && s.input == []) {
      assert !Enabled(c, s, Take(w)) && !Enabled(c, s, LookAtFlag(w));
      assert !Enabled(c, s, Finish(w)) && !Enabled(c, s, Put(w));
    }
    if |s.collected| < c.N {
      ResultOnItsWay(c, s);
    } else if s.joined < c.P {
      ExitedBelow(s.workers, s.joined);
    }
  }

  lemma {:induction false} ExitedBelow(ws: seq<Worker>, w: nat)
    requires w < |ws| && ws[w] != Exited
    ensures Sum(ws, HasExited()) < |ws|
  {
    if w == 0 {
      SumAtMost(ws[1..]);
    } else {
      ExitedBelow(ws[1..], w - 1);
    }
  }

  lemma {:induction false} SumAtMost(ws: seq<Worker>)
    ensures Sum(ws, HasExited()) <= |ws|
  {
    if ws != [] {
      SumAtMost(ws[1..]);
    }
  }

  /** The pool never deadlocks exactly when it has a worker or nothing to do: with jobs and no worker the
      collector waits for ever. */
  lemma DeadlockFreeIff(c: Config)
    ensures (forall s :: Reachable(c, s) && Quiescent(c, s) ==> Done(c, s)) <==> c.P >= 1 || c.N == 0
  {
    if c.P >= 1 {
      forall s | Reachable(c, s) && Quiescent(c, s) ensures Done(c, s) {
        QuiescentIsDone(c, s);
      }
    } else if c.N == 0 {
      forall s | Reachable(c, s) && Quiescent(c, s) ensures Done(c, s) {
        ReachableInv(c, s);
      }
    } else {
      var s := SendAll(c, Init(c), c.N);
      assert Runs(c, Init(c), seq(c.N, i => Send)) && After(c, Init(c), seq(c.N, i => Send)) == s;
      assert Reachable(c, s) && Quiescent(c, s) && !Done(c, s);
    }
  }

  /** The number of processors to use: all cores, or the limit of the command line when it is set, which is when it
      is not zero, and not above the number of cores. */
  function Processors(cores: nat, limit: int): int {
    if limit != 0 then if cores < limit then cores else limit else cores
  }

  /** One thread is started for each number in a range of that length, which is empty for a negative one. */
  function WorkerCount(cores: nat, limit: int): nat {
    var processors := Processors(cores, limit);
    if processors < 0 then 0 else processors
  }

  /** As many workers as there are cores, but no more than a positive limit, and none with a negative one. */
  lemma WorkersWithinLimit(cores: nat, limit: int)
    ensures var workers := WorkerCount(cores, limit);
            && workers <= cores
            && (limit == 0 ==> workers == cores)
            && (limit > 0 ==> workers <= limit && (workers == cores || workers == limit))
            && (limit < 0 ==> workers == 0)
  {
  }

  /** On a machine with a core, the pool started for n jobs never deadlocks if and only if the job limit is not
      negative or there are no jobs. */
  lemma LimitDeadlockFreeIff(n: nat, cores: nat, limit: int)
    requires cores >= 1
    ensures var c := Config(n, WorkerCount(cores, limit));
            (forall s :: Reachable(c, s) && Quiescent(c, s) ==> Done(c, s)) <==> limit >= 0 || n == 0
  {
    hide Reachable, Quiescent, Done;
    DeadlockFreeIff(Config(n, WorkerCount(cores, limit)));
  }

  lemma {:induction false} SendAll(c: Config, s: State, n: nat) returns (s': State)
    requires s.sent + n == c.N + c.P && s.workers == [] && s.output == []
    ensures Runs(c, s, seq(n, i => Send)) && After(c, s, seq(n, i => Send)) == s'
    ensures s'.sent == c.N + c.P && s'.workers == [] && s'.output == [] && s'.collected == s.collected
    decreases n
  {
    var actions := seq(n, i => Send);
    if n == 0 {
      return s;
    }
    s' := SendAll(c, Apply(c, s, Send), n - 1);
    assert actions[1..] == seq(n - 1, i => Send);
  }

  // ---- Termination ----

  function WorkLeft(): Worker -> nat {
    (w: Worker) => match w
         case Got(_) => 4
         case Running(_) => 3
         case Reporting(_) => 2
         case Waiting => 0
         case Exited => 0
  }

  /** A bound on how many actions other than interrupts can still be taken. */
  function Measure(c: Config, s: State): int {
    6 * (c.N + c.P - s.sent) + 5 * |s.input| + Sum(s.workers, WorkLeft()) + |s.output| + (c.P - s.joined)
  }

  lemma StepMeasure(c: Config, s: State, a: Action)
    requires Inv(c, s) && Enabled(c, s, a)
    ensures Measure(c, Apply(c, s, a)) <= Measure(c, s) - if a == Interrupt then 0 else 1
  {
    if a.Take? || a.LookAtFlag? || a.Finish? || a.Put? {
      SumUpdate(s.workers, a.w, Apply(c, s, a).workers[a.w], WorkLeft());
    }
  }

  function Work(actions: seq<Action>): nat {
    if actions == [] then 0 else (if actions[0] == Interrupt then 0 else 1) + Work(actions[1..])
  }

  lemma {:induction false} RunMeasure(c: Config, s: State, actions: seq<Action>)
    requires Inv(c, s) && Runs(c, s, actions)
    ensures Work(actions) + Measure(c, After(c, s, actions)) <= Measure(c, s)
    decreases |actions|
  {
    if actions != [] {
      var s' := Apply(c, s, actions[0]);
      StepMeasure(c, s, actions[0]);
      StepInv(c, s, actions[0]);
      RunMeasure(c, s', actions[1..]);
    }
  }

  /** Every run is finite: whatever the schedule and however many interrupts arrive, at most 6N + 7P other
      actions are taken. */
  lemma RunsAreFinite(c: Config, actions: seq<Action>)
    requires Runs(c, Init(c), actions)
    ensures Work(actions) <= 6 * c.N + 7 * c.P
  {
    InitInv(c);
    RunInv(c, Init(c), actions);
    RunMeasure(c, Init(c), actions);
    SumAllSame(Init(c).workers, WorkLeft(), 0);
  }

  // ---- How every run ends ----

  /** At the end every worker has returned, the queues are empty and each job has been collected once;
      without an interrupt no job comes back as a break. */
  lemma EndOfRun(c: Config, s: State)
    requires Reachable(c, s) && Done(c, s)
    ensures forall w | w in s.workers :: w == Exited
    ensures s.input == [] && s.output == []
    ensures |s.collected| == c.N && forall id: nat :: Occurrences(s.collected, id) == if id < c.N then 1 else 0
    ensures !s.exitFlag ==> forall r | r in s.collected :: !r.interrupted
  {
    ReachableInv(c, s);
    SumAllSame(s.workers, HasExited(), 1);
    var reports := s.output + s.collected;
    forall id: nat ensures Occurrences(reports, id) == if id < TakenJobs(c, s) then 1 else 0 {
      OccurrencesConcat(s.output, s.collected, id);
      SumAllSame(s.workers, Holding(id), 0);
      assert Places(s, id) == if id < TakenJobs(c, s) then 1 else 0;
    }
    CountBelow(reports, TakenJobs(c, s));
    assert reports == s.collected;
  }

  // ---- What an interrupt does ----

  /** The interrupt flag is set by interrupts and by nothing else, and never cleared. */
  lemma {:induction false} FlagIffInterrupted(c: Config, s: State, actions: seq<Action>)
    requires Runs(c, s, actions)
    ensures After(c, s, actions).exitFlag <==> s.exitFlag || Interrupt in actions
    decreases |actions|
  {
    if actions != [] {
      FlagIffInterrupted(c, Apply(c, s, actions[0]), actions[1..]);
      assert actions == [actions[0]] + actions[1..];
    }
  }

  /** A run from the start ends with the flag set exactly when it was interrupted. */
  lemma FlagOfRun(c: Config, actions: seq<Action>)
    requires Runs(c, Init(c), actions)
    ensures After(c, Init(c), actions).exitFlag <==> Interrupt in actions
  {
    FlagIffInterrupted(c, Init(c), actions);
  }

  /** A worker has looked at the flag and gone on to run the job: it is running it, or its result is on its way or
      collected. */
  ghost predicate Started(s: State, id: nat) {
    || Running(id) in s.workers
    || Reporting(Report(id, false)) in s.workers
    || Report(id, false) in s.output
    || Report(id, false) in s.collected
  }

  /** With the flag set no further job is started, and a job that was started stays so. */
  lemma StartedStep(c: Config, s: State, a: Action, id: nat)
    requires s.exitFlag && Enabled(c, s, a)
    ensures Started(Apply(c, s, a), id) <==> Started(s, id)
  {
    var s' := Apply(c, s, a);
    match a
    case Send =>
    case Collect =>
      assert s.output == [s.output[0]] + s'.output;
    case Join =>
    case Take(w) => WorkerStep(s.workers, w, s'.workers[w]);
    case LookAtFlag(w) => WorkerStep(s.workers, w, s'.workers[w]);
    case Finish(w) => WorkerStep(s.workers, w, s'.workers[w]);
    case Put(w) => WorkerStep(s.workers, w, s'.workers[w]);
    case Interrupt =>
  }

  /** What changes when one worker moves from x to y. */
  lemma WorkerStep(ws: seq<Worker>, w: nat, y: Worker)
    requires w < |ws|
    ensures forall x :: x in ws[w := y] ==> x == y || x in ws
    ensures forall x :: x in ws ==> x == ws[w] || x in ws[w := y]
    ensures y in ws[w := y] && ws[w] in ws
  {
    assert ws[w := y][w] == y;
    forall x | x in ws ensures x == ws[w] || x in ws[w := y] {
      var i :| 0 <= i < |ws| && ws[i] == x;
      assert i != w ==> ws[w := y][i] == x;
    }
  }

  lemma {:induction false} StartedRun(c: Config, s: State, actions: seq<Action>, id: nat)
    requires s.exitFlag && Runs(c, s, actions)
    ensures Started(After(c, s, actions), id) <==> Started(s, id)
    decreases |actions|
  {
    hide Started;
    if actions != [] {
      StartedStep(c, s, actions[0], id);
      StartedRun(c, Apply(c, s, actions[0]), actions[1..], id);
    }
  }

  /** After an interrupt, however the run goes on to its end, a job comes back with a result exactly when a worker
      had started it before the interrupt; every other job comes back as a break. */
  lemma InterruptBreaksTheRest(c: Config, s: State, actions: seq<Action>, id: nat)
    requires Reachable(c, s) && id < c.N && Runs(c, Apply(c, s, Interrupt), actions)
    requires Done(c, After(c, Apply(c, s, Interrupt), actions))
    ensures var collected := After(c, Apply(c, s, Interrupt), actions).collected;
            && (Report(id, false) in collected <==> Started(s, id))
            && (Report(id, true) in collected <==> !Started(s, id))
  {
    var s' := Apply(c, s, Interrupt);
    var end := After(c, s', actions);
    ReachableStep(c, s, Interrupt);
    ReachableRun(c, s', actions);
    StartedRun(c, s', actions, id);
    EndOfRun(c, end);
    OneReport(end.collected, id);
  }

  lemma ReachableStep(c: Config, s: State, a: Action)
    requires Reachable(c, s) && Enabled(c, s, a)
    ensures Reachable(c, Apply(c, s, a))
  {
    var actions :| Runs(c, Init(c), actions) && After(c, Init(c), actions) == s;
    RunsConcat(c, Init(c), actions, [a]);
    assert [a][1..] == [];
    assert Runs(c, s, [a]) && After(c, s, [a]) == Apply(c, s, a);
  }

  lemma ReachableRun(c: Config, s: State, actions: seq<Action>)
    requires Reachable(c, s) && Runs(c, s, actions)
    ensures Reachable(c, After(c, s, actions))
  {
    var before :| Runs(c, Init(c), before) && After(c, Init(c), before) == s;
    RunsConcat(c, Init(c), before, actions);
  }

  lemma {:induction false} RunsConcat(c: Config, s: State, before: seq<Action>, after: seq<Action>)
    requires Runs(c, s, before)
    ensures Runs(c, s, before + after) <==> Runs(c, After(c, s, before), after)
    ensures Runs(c, s, before + after) ==>
              After(c, s, before + after) == After(c, After(c, s, before), after)
    decreases |before|
  {
    if before == [] {
      assert before + after == after;
    } else {
      assert (before + after)[1..] == before[1..] + after;
      RunsConcat(c, Apply(c, s, before[0]), before[1..], after);
    }
  }

  /** A job reported once is reported in one way. */
  lemma {:induction false} OneReport(rs: seq<Report>, id: nat)
    requires Occurrences(rs, id) <= 1
    ensures !(Report(id, false) in rs && Report(id, true) in rs)
    ensures Occurrences(rs, id) == 1 <==> Report(id, false) in rs || Report(id, true) in rs
  {
    if rs != [] {
      OneReport(rs[1..], id);
      assert rs == [rs[0]] + rs[1..];
    }
  }

  // ---- Reports are collected in the order in which they are put ----

  /** The reports put during a run, in order. */
  function Puts(c: Config, s: State, actions: seq<Action>): seq<Report>
    requires Runs(c, s, actions)
    decreases |actions|
  {
    if actions == [] then []
    else
      (if actions[0].Put? then [s.workers[actions[0].w].report] else []) +
      Puts(c, Apply(c, s, actions[0]), actions[1..])
  }

  /** What has been collected and what is queued are together the reports put, first in, first out. */
  lemma {:induction false} CollectedInOrder(c: Config, s: State, actions: seq<Action>)
    requires Runs(c, s, actions)
    ensures var s' := After(c, s, actions);
            s'.collected + s'.output == s.collected + s.output + Puts(c, s, actions)
    decreases |actions|
  {
    if actions != [] {
      var next := Apply(c, s, actions[0]);
      CollectedInOrder(c, next, actions[1..]);
      if actions[0].Collect? {
        assert s.output == [s.output[0]] + s.output[1..];
      }
    }
  }

  lemma {:induction false} OccurrencesConcat(a: seq<Report>, b: seq<Report>, id: nat)
    ensures Occurrences(a + b, id) == Occurrences(a, id) + Occurrences(b, id)
  {
    if a == [] {
      assert a + b == b;
    } else {
      OccurrencesConcat(a[1..], b, id);
      assert (a + b)[1..] == a[1..] + b;
    }
  }
}
