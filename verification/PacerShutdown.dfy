/**
 The shutdown of the pacer: the main thread, the timer thread and the signal handler as
 interleaved atomic steps over the flag `shutdown_global`, the field `thread_started` and
 the two heap blocks that the threads share.
 */
module PacerShutdown {

  /** Where the main thread stands, from the set-up of the thread to its exit. */
  datatype MainPc =
    | Setup      // stat->thread_started = 1
    | Create     // pthread_create
    | Waiting    // while (!shutdown_global)
    | CheckKill  // if (thread_started > 0)
    | Kill       // pthread_kill
    | CheckJoin  // if (thread_started)
    | Join       // pthread_join
    | FreeStats
    | FreeParam
    | Finished

  /** Where the timer thread stands; `Increment` holds the value that `thread_started++` read. */
  datatype WorkerPc =
    | Absent
    | Start
    | Read
    | Increment(value: int)
    | Head       // while (!shutdown_global)
    | Sleep
    | Tick       // the statistics, including cycles++
    | Send
    | Limit      // if (max_cycles && max_cycles == cycles)
    | Report
    | SetFlag    // shutdown_global = 1
    | Retire     // thread_started = -1
    | Gone

  /**
   `late` counts the cycles completed after the flag was set.  `fault` records that a freed
   block was touched or freed again, or a joined or missing thread was signalled or joined.
   */
  datatype State = State(
    shutdown: bool, started: int, main: MainPc, worker: WorkerPc,
    statsFreed: bool, paramFreed: bool, joined: bool, late: nat, fault: bool)

  const INITIAL: State := State(false, 0, Setup, Absent, false, false, false, 0, false)

  function TouchStats(s: State): State {
    s.(fault := s.fault || s.statsFreed)
  }

  function TouchParam(s: State): State {
    s.(fault := s.fault || s.paramFreed)
  }

  /** The handler runs, in whichever thread, as long as there is a process. */
  predicate Signal(s: State, s': State) {
    s.main != Finished && s' == s.(shutdown := true)
  }

  /** One step of the main thread; waiting in vain is a step that changes nothing. */
  predicate MainStep(s: State, s': State) {
    match s.main
    case Setup => s' == TouchStats(s).(started := 1, main := Create)
    case Create => s' == s.(worker := Start, main := Waiting)
    case Waiting => s' == if s.shutdown then s.(main := CheckKill) else s
    case CheckKill => s' == TouchParam(TouchStats(s)).(main := if s.started > 0 then Kill else CheckJoin)
    case Kill =>
      var t := TouchParam(TouchStats(s));
      s' == t.(main := CheckJoin, fault := t.fault || s.joined || s.worker == Absent)
    case CheckJoin => s' == TouchParam(TouchStats(s)).(main := if s.started != 0 then Join else FreeStats)
    case Join =>
      var t := TouchParam(TouchStats(s));
      s.worker == Gone && s' == t.(main := FreeStats, joined := true, fault := t.fault || s.joined)
    case FreeStats => s' == TouchParam(TouchStats(s)).(main := FreeParam, statsFreed := true)
    case FreeParam => s' == TouchParam(s).(main := Finished, paramFreed := true)
    case Finished => false
  }

  /** One step of the timer thread, with either outcome where a system call decides. */
  predicate WorkerStep(s: State, s': State) {
    s.main != Finished &&
    match s.worker
    case Absent => false
    case Start => s' == TouchParam(s).(worker := Read) || s' == TouchParam(s).(worker := SetFlag)
    case Read => s' == TouchStats(s).(worker := Increment(s.started))
    case Increment(value) => s' == TouchStats(s).(started := value + 1, worker := Head)
    case Head => s' == s.(worker := if s.shutdown then Report else Sleep)
    case Sleep => s' == s.(worker := Tick) || s' == s.(worker := SetFlag)
    case Tick => s' == TouchStats(s).(worker := Send, late := if s.shutdown then s.late + 1 else s.late)
    case Send => s' == TouchParam(s).(worker := Limit)
    case Limit =>
      var t := TouchStats(TouchParam(s));
      s' == t.(worker := Head) || s' == t.(worker := Report)
    case Report => s' == TouchStats(s).(worker := SetFlag)
    case SetFlag => s' == s.(shutdown := true, worker := Retire)
    case Retire => s' == TouchStats(s).(started := -1, worker := Gone)
    case Gone => false
  }

  predicate Next(s: State, s': State) {
    Signal(s, s') || MainStep(s, s') || WorkerStep(s, s')
  }

  predicate IsRun(run: seq<State>) {
    run != [] && run[0] == INITIAL && forall i :: 0 <= i < |run| - 1 ==> Next(run[i], run[i + 1])
  }

  // ------------------------------------------------------------------
  // Safety

  /** The thread has been created. */
  predicate Created(s: State) {
    !s.main.Setup? && !s.main.Create?
  }

  predicate Safe(s: State) {
    && !s.fault
    && s.late <= 1
    && (Created(s) ==> s.started != 0)
    && (s.statsFreed || s.paramFreed ==> s.joined && s.worker == Gone)
    && (s.main == Finished ==> s.joined && s.statsFreed && s.paramFreed)
  }

  /** What every step keeps, and what makes the rest hold. */
  predicate Inv(s: State) {
    && !s.fault
    && (s.worker == Absent <==> !Created(s))
    && (s.main.Create? ==> s.started == 1)
    && (Created(s) ==>
        match s.worker
        case Increment(value) => value == 1 && s.started == 1
        case Start => s.started == 1
        case Read => s.started == 1
        case Gone => s.started == -1
        case _ => s.started == 1 || s.started == 2)
    && (s.joined ==> s.worker == Gone)
    && (s.joined <==> s.main.FreeStats? || s.main.FreeParam? || s.main.Finished?)
    && (s.statsFreed <==> s.main.FreeParam? || s.main.Finished?)
    && (s.paramFreed <==> s.main.Finished?)
    && (s.worker == Gone || s.worker == Retire ==> s.shutdown)
    && (s.late > 0 ==> s.shutdown)
    && (s.worker == Sleep || s.worker == Tick ==> s.late == 0)
    && s.late <= 1
    && (Created(s) && s.main != Waiting ==> s.shutdown)
  }

  lemma MainKeeps(s: State, s': State)
    requires Inv(s) && MainStep(s, s')
    ensures Inv(s') && (s.shutdown ==> s'.shutdown)
  {
  }

  lemma WorkerKeeps(s: State, s': State)
    requires Inv(s) && WorkerStep(s, s')
    ensures Inv(s') && (s.shutdown ==> s'.shutdown)
  {
  }

  lemma InvNext(s: State, s': State)
    requires Inv(s) && Next(s, s')
    ensures Inv(s') && (s.shutdown ==> s'.shutdown)
  {
    if MainStep(s, s') {
      MainKeeps(s, s');
    } else if WorkerStep(s, s') {
      WorkerKeeps(s, s');
    }
  }

  lemma {:induction false} InvAlways(run: seq<State>, i: nat)
    requires IsRun(run) && i < |run|
    ensures Inv(run[i])
  {
    if i > 0 {
      InvAlways(run, i - 1);
      assert Next(run[i - 1], run[i - 1 + 1]);
      InvNext(run[i - 1], run[i]);
    }
  }

  /** In every interleaving, every state is safe. */
  lemma ShutdownIsSafe(run: seq<State>, i: nat)
    requires IsRun(run) && i < |run|
    ensures Safe(run[i])
  {
    InvAlways(run, i);
  }

  // ------------------------------------------------------------------
  // Once the flag is set, the process ends

  function MainRank(pc: MainPc): nat {
    match pc
    case Setup => 9 case Create => 8 case Waiting => 7 case CheckKill => 6 case Kill => 5
    case CheckJoin => 4 case Join => 3 case FreeStats => 2 case FreeParam => 1 case Finished => 0
  }

  function WorkerRank(pc: WorkerPc): nat {
    match pc
    case Absent => 12 case Start => 11 case Read => 10 case Increment(_) => 9 case Sleep => 8 case Tick => 7
    case Send => 6 case Limit => 5 case Head => 4 case Report => 3 case SetFlag => 2 case Retire => 1 case Gone => 0
  }

  function Remaining(s: State): nat {
    MainRank(s.main) + WorkerRank(s.worker)
  }

  lemma StepsRunOut(s: State, s': State)
    requires Inv(s) && s.shutdown && (MainStep(s, s') || WorkerStep(s, s'))
    ensures Remaining(s') < Remaining(s)
  {
  }

  /** No deadlock: with the flag set, a thread can move until main has finished. */
  lemma SomeThreadMoves(s: State) returns (s': State)
    requires Inv(s) && s.shutdown && s.main != Finished
    ensures MainStep(s, s') || WorkerStep(s, s')
  {
    if s.main.Join? && s.worker != Gone {
      match s.worker
      case Start => s' := TouchParam(s).(worker := Read);
      case Read => s' := TouchStats(s).(worker := Increment(s.started));
      case Increment(value) => s' := TouchStats(s).(started := value + 1, worker := Head);
      case Head => s' := s.(worker := Report);
      case Sleep => s' := s.(worker := Tick);
      case Tick => s' := TouchStats(s).(worker := Send, late := s.late + 1);
      case Send => s' := TouchParam(s).(worker := Limit);
      case Limit => s' := TouchStats(TouchParam(s)).(worker := Head);
      case Report => s' := TouchStats(s).(worker := SetFlag);
      case SetFlag => s' := s.(shutdown := true, worker := Retire);
      case Retire => s' := TouchStats(s).(started := -1, worker := Gone);
    } else {
      match s.main
      case Setup => s' := TouchStats(s).(started := 1, main := Create);
      case Create => s' := s.(worker := Start, main := Waiting);
      case Waiting => s' := s.(main := CheckKill);
      case CheckKill => s' := TouchParam(TouchStats(s)).(main := if s.started > 0 then Kill else CheckJoin);
      case Kill => s' := TouchParam(TouchStats(s)).(main := CheckJoin);
      case CheckJoin => s' := TouchParam(TouchStats(s)).(main := if s.started != 0 then Join else FreeStats);
      case Join => s' := TouchParam(TouchStats(s)).(main := FreeStats, joined := true);
      case FreeStats => s' := TouchParam(TouchStats(s)).(main := FreeParam, statsFreed := true);
      case FreeParam => s' := TouchParam(s).(main := Finished, paramFreed := true);
    }
  }

  /** Signals are free; a step of one of the two threads costs one. */
  function Cost(s: State, s': State): nat {
    if Signal(s, s') then 0 else 1
  }

  /** How many steps from i to j were taken by the two threads rather than the handler. */
  function ThreadSteps(run: seq<State>, i: nat, j: nat): nat
    requires i <= j < |run|
  {
    if i == j then 0 else ThreadSteps(run, i, j - 1) + Cost(run[j - 1], run[j])
  }

  predicate Shrinks(s: State, s': State) {
    s.shutdown ==> s'.shutdown && Remaining(s') + Cost(s, s') <= Remaining(s)
  }

  lemma NextShrinks(s: State, s': State)
    requires Inv(s) && Next(s, s')
    ensures Shrinks(s, s')
  {
    InvNext(s, s');
    if s.shutdown && !Signal(s, s') {
      StepsRunOut(s, s');
    }
  }

  lemma {:induction false} Descent(run: seq<State>, i: nat, j: nat)
    requires forall k :: 0 <= k < |run| - 1 ==> Shrinks(run[k], run[k + 1])
    requires i <= j < |run| && run[i].shutdown
    ensures run[j].shutdown && ThreadSteps(run, i, j) + Remaining(run[j]) <= Remaining(run[i])
  {
    if i < j {
      Descent(run, i, j - 1);
      assert Shrinks(run[j - 1], run[j - 1 + 1]);
    }
  }

  lemma RunShrinks(run: seq<State>)
    requires IsRun(run)
    ensures forall k :: 0 <= k < |run| - 1 ==> Shrinks(run[k], run[k + 1])
  {
    forall k | 0 <= k < |run| - 1
      ensures Shrinks(run[k], run[k + 1])
    {
      InvAlways(run, k);
      NextShrinks(run[k], run[k + 1]);
    }
  }

  /**
   The flag never goes back, and after it is set the two threads take at most 21 more steps,
   whatever signals come in.
   */
  lemma ShutdownTerminates(run: seq<State>, i: nat, j: nat)
    requires IsRun(run) && i <= j < |run| && run[i].shutdown
    ensures run[j].shutdown
    ensures ThreadSteps(run, i, j) + Remaining(run[j]) <= Remaining(run[i]) <= 21
  {
    RunShrinks(run);
    Descent(run, i, j);
  }

  /** At most one more cycle completes after the flag is set, and main finishes only by joining. */
  lemma FinishedMeansJoined(run: seq<State>, i: nat)
    requires IsRun(run) && i < |run| && run[i].main == Finished
    ensures run[i].joined && run[i].worker == Gone && run[i].late <= 1
    ensures exists k :: 0 <= k < i && run[k].main == Join && run[k].worker == Gone
  {
    InvAlways(run, i);
    RunJoinsProperly(run);
    FirstJoin(run, i);
  }

  /** Only a join on a thread that is gone sets the field. */
  predicate JoinsProperly(s: State, s': State) {
    s'.joined ==> s.joined || (s.main == Join && s.worker == Gone)
  }

  lemma RunJoinsProperly(run: seq<State>)
    requires IsRun(run)
    ensures !run[0].joined && forall k :: 0 <= k < |run| - 1 ==> JoinsProperly(run[k], run[k + 1])
  {
    forall k | 0 <= k < |run| - 1
      ensures JoinsProperly(run[k], run[k + 1])
    {
      NextJoins(run[k], run[k + 1]);
    }
  }

  lemma NextJoins(s: State, s': State)
    requires Next(s, s')
    ensures JoinsProperly(s, s')
  {
    if MainStep(s, s') {
      MainJoins(s, s');
    } else if WorkerStep(s, s') {
      WorkerJoinsNothing(s, s');
    }
  }

  lemma MainJoins(s: State, s': State)
    requires MainStep(s, s')
    ensures JoinsProperly(s, s')
  {
  }

  lemma WorkerJoinsNothing(s: State, s': State)
    requires WorkerStep(s, s')
    ensures s'.joined == s.joined
  {
  }

  lemma {:induction false} FirstJoin(run: seq<State>, i: nat)
    requires i < |run| && run[i].joined && !run[0].joined
    requires forall k :: 0 <= k < |run| - 1 ==> JoinsProperly(run[k], run[k + 1])
    ensures exists k :: 0 <= k < i && run[k].main == Join && run[k].worker == Gone
  {
    assert JoinsProperly(run[i - 1], run[i - 1 + 1]);
    if run[i - 1].joined {
      FirstJoin(run, i - 1);
    }
  }
}
