/** Sessions on the worker threads: each run of a task is what SessionTurns says, and the events it
    asks for are the requests that the event thread arms. */
module Server {
  import opened Basics
  import opened Bytes
  import opened Events
  import opened Options
  import opened SessionTurns
  import opened Stages
  import SessionRuns
  import Tasks = Scheduler
  import Threads = EventThreads
  import History = SchedulerEvents

  type Task = Tasks.Task
  type WorkerId = Tasks.WorkerId

  /** How far a worker is in the run of a session: Due after DequeEvents with the events it returned;
      Owing after the work, with the requests for events still to be made and the socket perhaps still
      to be closed, what Run returns and whether it asks at all. A session that closes its socket
      sends no more, and so closes it after its requests. */
  datatype Duty =
    | NoDuty
    | Due(events: set<int>)
    | Owing(reading: nat, writing: nat, closing: bool, ret: int, asks: bool)

  datatype State = State(threads: Threads.State, session: Task -> SessionState, duty: WorkerId -> Duty)

  datatype Step = Thread(step: Threads.Step) | Work(w: WorkerId, world: World)

  ghost predicate Init(s: State) {
    Threads.Init(s.threads)
  }

  ghost function Running(s: State, w: WorkerId): Task
    requires s.threads.tasks.work(w).Ran?
  {
    s.threads.tasks.work(w).t
  }

  /** The program as it is: no repaired steps, and a worker lets go of a session as its Run says. */
  ghost predicate Enabled(s: State, step: Step) {
    match step
    case Work(w, _) => s.threads.tasks.work(w).Ran? && !s.threads.server(Running(s, w)) && s.duty(w).Due?
    case Thread(st) =>
      Threads.Enabled(s.threads, st) &&
      match st
      case Ask(w, write) => s.duty(w).Owing? && if write then s.duty(w).writing > 0 else s.duty(w).reading > 0
      case Close(w) => s.duty(w).Owing? && s.duty(w).closing && s.duty(w).reading == s.duty(w).writing == 0
      case Protocol(p) =>
        !p.LockedAttach? && !p.CheckedDetach? &&
        (p.Detach? || p.Delete? || p.Park? ==> s.threads.server(Running(s, p.w)) || LetGo(s.duty(p.w), p))
      case _ => true
  }

  /** Entry's choice after Run. */
  predicate LetGo(d: Duty, p: Tasks.Step) {
    && d.Owing? && d.reading == d.writing == 0 && !d.closing
    && match p
       case Detach(_) => d.ret == 0
       case Delete(_) => d.ret < 0
       case _ => d.ret > 0
  }

  function Added(now: nat, before: nat): nat {
    if now >= before then now - before else 0
  }

  /** What the work of a run leaves its worker to do. */
  function DutyAfter(x: SessionState, events: set<int>, world: World): Duty {
    var (x', ret) := AfterRun(x, events, world);
    Owing(Added(x'.readAsks, x.readAsks), Added(x'.stage.asks, x.stage.asks), x'.stage.closed && !x.stage.closed,
          ret, Asks(x') > Asks(x))
  }

  ghost function Next(s: State, step: Step): State
    requires Enabled(s, step)
  {
    match step
    case Work(w, world) =>
      var t := Running(s, w);
      s.(session := Put(s.session, t, AfterRun(s.session(t), s.duty(w).events, world).0),
         duty := Put(s.duty, w, DutyAfter(s.session(t), s.duty(w).events, world)))
    case Thread(st) =>
      s.(threads := Threads.Next(s.threads, st), duty := DutyNext(s, st))
  }

  ghost function DutyNext(s: State, st: Threads.Step): WorkerId -> Duty
    requires Enabled(s, Thread(st))
  {
    match st
    case Ask(w, write) =>
      var d := s.duty(w);
      Put(s.duty, w, if write then d.(writing := d.writing - 1) else d.(reading := d.reading - 1))
    case Close(w) => Put(s.duty, w, s.duty(w).(closing := false))
    case Protocol(p) => if p.Deque? then Put(s.duty, p.w, Due(s.threads.tasks.events(s.threads.tasks.work(p.w).t))) else s.duty
    case _ => s.duty
  }

  datatype Run = Run(states: seq<State>, steps: seq<Step>)

  ghost predicate IsRun(r: Run) {
    && |r.states| == |r.steps| + 1
    && Init(r.states[0])
    && forall k :: 0 <= k < |r.steps| ==>
        Enabled(r.states[k], r.steps[k]) && r.states[k + 1] == Next(r.states[k], r.steps[k])
  }

  // ---------- the run of the event thread's protocol inside ----------

  ghost function Inside(r: Run, n: nat): Threads.Run
    requires IsRun(r) && n <= |r.steps|
  {
    if n == 0 then Threads.Run([r.states[0].threads], [])
    else
      var q := Inside(r, n - 1);
      match r.steps[n - 1]
      case Work(_, _) => q
      case Thread(st) => Threads.Run(q.states + [r.states[n].threads], q.steps + [st])
  }

  lemma OneMore(q: Threads.Run, st: Threads.Step)
    requires Threads.IsRun(q) && Threads.Enabled(q.states[|q.steps|], st)
    ensures Threads.IsRun(Threads.Run(q.states + [Threads.Next(q.states[|q.steps|], st)], q.steps + [st]))
  {
    hide Threads.Next, Threads.Enabled, Threads.Init;
  }

  lemma NoSteps(s: Threads.State)
    requires Threads.Init(s)
    ensures Threads.IsRun(Threads.Run([s], []))
  {
  }

  lemma ThreadsNext(s: State, step: Step)
    requires Enabled(s, step)
    ensures match step
      case Work(_, _) => Next(s, step).threads == s.threads
      case Thread(st) => Threads.Enabled(s.threads, st) && Next(s, step).threads == Threads.Next(s.threads, st)
  {
    hide Threads.Next, Threads.Enabled;
  }

  lemma {:induction false} InsideIsRun(r: Run, n: nat)
    requires IsRun(r) && n <= |r.steps|
    ensures var q := Inside(r, n);
      Threads.IsRun(q) && |q.states| == |q.steps| + 1 && q.states[|q.steps|] == r.states[n].threads
  {
    hide Next, Enabled, Threads.IsRun;
    if n == 0 {
      NoSteps(r.states[0].threads);
    } else {
      InsideIsRun(r, n - 1);
      ThreadsNext(r.states[n - 1], r.steps[n - 1]);
      if r.steps[n - 1].Thread? { OneMore(Inside(r, n - 1), r.steps[n - 1].step); }
    }
  }

  // ---------- who asked ----------

  /** A worker's session has asked so far exactly if its work asks and not all requests are still owed. */
  ghost predicate DutyExact(s: State, w: WorkerId) {
    s.threads.tasks.work(w).Ran? && !s.threads.server(Running(s, w)) ==>
      match s.duty(w)
      case NoDuty => false
      case Due(_) => !s.threads.asked(w)
      case Owing(reading, writing, _, _, asks) => asks <==> s.threads.asked(w) || reading + writing > 0
  }

  lemma KeepsDuty(s: State, step: Step, w: WorkerId)
    requires Enabled(s, step) && DutyExact(s, w)
    ensures DutyExact(Next(s, step), w)
  {
    hide AfterRun, DutyAfter;
    match step
    case Work(v, world) =>
      hide Threads.Next, Threads.Enabled;
      MoreAsks(s.session(Running(s, v)), s.duty(v).events, world);
    case Thread(st) => ThreadKeepsDuty(s, st, w);
  }

  lemma RanBefore(s: Tasks.State, p: Tasks.Step, w: WorkerId)
    requires Tasks.Enabled(s, p)
    ensures var s' := Tasks.Next(s, p);
      s'.work(w).Ran? ==>
        if p == Tasks.Deque(w) then s.work(w).Ready? && s'.work(w).t == s.work(w).t else s'.work(w) == s.work(w)
  {
  }

  lemma ThreadKeepsDuty(s: State, st: Threads.Step, w: WorkerId)
    requires Enabled(s, Thread(st)) && DutyExact(s, w)
    ensures DutyExact(Next(s, Thread(st)), w)
  {
    hide AfterRun, DutyAfter;
    match st
    case Protocol(p) =>
      hide Threads.SilentAfter, Tasks.Next, Tasks.Enabled;
      RanBefore(s.threads.tasks, p, w);
    case Ask(v, write) => hide Tasks.Next, Tasks.Enabled;
    case Close(v) => hide Tasks.Next, Tasks.Enabled;
    case Post => hide Tasks.Enabled;
    case _ => hide Tasks.Next, Tasks.Enabled;
  }

  lemma MoreAsks(x: SessionState, events: set<int>, world: World)
    ensures var d := DutyAfter(x, events, world); d.Owing? && (d.asks <==> d.reading + d.writing > 0)
  {
    hide AfterRun;
    AsksGrow(x, events, world);
  }

  lemma InvAt(r: Run, n: nat)
    requires IsRun(r) && n <= |r.steps|
    ensures Tasks.Inv(r.states[n].threads.tasks)
  {
    hide Threads.IsRun, Tasks.Inv;
    InsideIsRun(r, n);
    Threads.TasksInv(Inside(r, n), |Inside(r, n).steps|);
  }

  lemma {:induction false} DutyAt(r: Run, n: nat, w: WorkerId)
    requires IsRun(r) && n <= |r.steps|
    ensures DutyExact(r.states[n], w)
  {
    hide Next, Enabled, DutyExact;
    if n == 0 {
      NobodyRunsAtFirst(r.states[0], w);
    } else {
      DutyAt(r, n - 1, w);
      KeepsDuty(r.states[n - 1], r.steps[n - 1], w);
    }
  }

  lemma NobodyRunsAtFirst(s: State, w: WorkerId)
    requires Init(s)
    ensures DutyExact(s, w) && !s.threads.tasks.work(w).Ran? && forall t :: !s.threads.silent(t)
  {
  }

  /** The step is DequeEvents in a run of t. */
  ghost predicate Dequeues(s: State, step: Step, t: Task) {
    step.Thread? && Threads.Runs(s.threads, step.step, t)
  }

  /** Step j is the work of session t, and nobody has dequeued events of t since. */
  ghost predicate LastWork(r: Run, j: nat, n: nat, t: Task)
    requires IsRun(r) && n <= |r.steps|
  {
    && j < n && r.steps[j].Work? && Running(r.states[j], r.steps[j].w) == t
    && forall k :: j < k < n ==> !Dequeues(r.states[k], r.steps[k], t)
  }

  /** What the work at step j made of its session, and returned. */
  ghost function Worked(r: Run, j: nat): (SessionState, int)
    requires IsRun(r) && j < |r.steps| && r.steps[j].Work?
  {
    var s, w := r.states[j], r.steps[j].w;
    AfterRun(s.session(Running(s, w)), s.duty(w).events, r.steps[j].world)
  }

  ghost function WorkedOn(r: Run, j: nat): SessionState
    requires IsRun(r) && j < |r.steps| && r.steps[j].Work?
  {
    r.states[j].session(Running(r.states[j], r.steps[j].w))
  }

  /** The work at step j found the socket open and left it closed. */
  ghost predicate ClosesSocket(r: Run, j: nat)
    requires IsRun(r) && j < |r.steps| && r.steps[j].Work?
  {
    !WorkedOn(r, j).stage.closed && Worked(r, j).0.stage.closed
  }

  /** What d owes comes from the work at step j. */
  ghost predicate OwedSince(r: Run, j: nat, n: nat, t: Task, d: Duty)
    requires IsRun(r) && n <= |r.steps|
  {
    && LastWork(r, j, n, t) && d.Owing? && d.ret == Worked(r, j).1
    && (d.asks <==> Asks(Worked(r, j).0) > Asks(WorkedOn(r, j)))
    && (d.closing ==> ClosesSocket(r, j))
  }

  lemma RanBeforeHere(s: State, step: Step, w: WorkerId)
    requires Enabled(s, step) && Next(s, step).threads.tasks.work(w).Ran?
    requires step != Thread(Threads.Protocol(Tasks.Deque(w)))
    ensures Next(s, step).threads.tasks.work(w) == s.threads.tasks.work(w)
  {
    hide AfterRun, DutyAfter, DutyNext, Tasks.Next, Tasks.Enabled, Threads.SilentAfter, Threads.AskedAfter;
    if step.Thread? && Threads.TaskStep(s.threads, step.step).Some? {
      RanBefore(s.threads.tasks, Threads.TaskStep(s.threads, step.step).value, w);
    }
  }

  lemma OwedBefore(s: State, step: Step, w: WorkerId)
    requires Enabled(s, step) && Next(s, step).duty(w).Owing? && !(step.Work? && step.w == w)
    ensures step != Thread(Threads.Protocol(Tasks.Deque(w)))
    ensures s.duty(w).Owing? && s.duty(w).ret == Next(s, step).duty(w).ret && s.duty(w).asks == Next(s, step).duty(w).asks
    ensures Next(s, step).duty(w).closing ==> s.duty(w).closing
  {
    hide AfterRun, DutyAfter, Tasks.Next, Tasks.Enabled, Threads.Next, Threads.Enabled;
  }

  lemma NotReadyToo(s: Tasks.State, w: WorkerId, t: Task)
    requires Tasks.Inv(s) && s.work(w) == Tasks.Ran(t)
    ensures forall v :: s.work(v) != Tasks.Ready(t)
  {
    assert Tasks.At(s, t, Tasks.Running(w));
    forall v | s.work(v) == Tasks.Ready(t) ensures Tasks.At(s, t, Tasks.Running(v)) {}
  }

  lemma OwedStep(s: State, step: Step, w: WorkerId, t: Task)
    requires Enabled(s, step) && Tasks.Inv(s.threads.tasks)
    requires Next(s, step).duty(w).Owing? && Next(s, step).threads.tasks.work(w) == Tasks.Ran(t)
    requires !(step.Work? && step.w == w)
    ensures s.duty(w).Owing? && s.threads.tasks.work(w) == Tasks.Ran(t) && !Dequeues(s, step, t)
    ensures s.duty(w).ret == Next(s, step).duty(w).ret && s.duty(w).asks == Next(s, step).duty(w).asks
    ensures Next(s, step).duty(w).closing ==> s.duty(w).closing
  {
    hide Enabled, Next, Tasks.Inv;
    OwedBefore(s, step, w);
    RanBeforeHere(s, step, w);
    NotReadyToo(s.threads.tasks, w, t);
  }

  lemma ServerStays(s: State, step: Step, t: Task)
    requires Enabled(s, step)
    ensures Next(s, step).threads.server(t) == s.threads.server(t)
  {
    hide Tasks.Next, Tasks.Enabled, AfterRun, DutyAfter;
  }

  lemma {:induction false} OwingFromWork(r: Run, n: nat, w: WorkerId, t: Task) returns (j: nat)
    requires IsRun(r) && n <= |r.steps|
    requires r.states[n].duty(w).Owing? && r.states[n].threads.tasks.work(w) == Tasks.Ran(t) && !r.states[n].threads.server(t)
    ensures OwedSince(r, j, n, t, r.states[n].duty(w))
  {
    hide AfterRun, Tasks.Inv, Tasks.Next, Tasks.Enabled, Threads.Next, Threads.Enabled;
    NobodyRunsAtFirst(r.states[0], w);
    assert n > 0;
    var m := n - 1;
    ServerStays(r.states[m], r.steps[m], t);
    if r.steps[m].Work? && r.steps[m].w == w {
      j := m;
    } else {
      InvAt(r, m);
      OwedStep(r.states[m], r.steps[m], w, t);
      j := OwingFromWork(r, m, w, t);
    }
  }

  // ---------- why a session is lost ----------

  /** The last work of t returned 0 and asked for no event. */
  ghost predicate WorkedSilently(r: Run, j: nat, n: nat, t: Task)
    requires IsRun(r) && n <= |r.steps|
  {
    LastWork(r, j, n, t) && Worked(r, j).1 == 0 && Asks(Worked(r, j).0) == Asks(WorkedOn(r, j))
  }

  /** A step that marks t silent ends a run that owes nothing and did not ask. */
  lemma SilencedByLettingGo(s: State, step: Step, t: Task)
    requires Enabled(s, step) && !s.threads.server(t)
    requires !s.threads.silent(t) && Next(s, step).threads.silent(t)
    ensures step.Thread? && step.step.Protocol? && (step.step.step.Detach? || step.step.step.Park?)
    ensures var w := step.step.step.w;
      s.threads.tasks.work(w) == Tasks.Ran(t) && !s.threads.asked(w) && LetGo(s.duty(w), step.step.step)
  {
    hide Tasks.Next, AfterRun, DutyAfter;
  }

  /** A session is marked silent only by a run whose work asked for nothing. */
  lemma {:induction false} SilentCause(r: Run, n: nat, t: Task) returns (j: nat)
    requires IsRun(r) && n <= |r.steps| && r.states[n].threads.silent(t) && !r.states[n].threads.server(t)
    ensures WorkedSilently(r, j, n, t)
  {
    hide AfterRun, Tasks.Next, Tasks.Enabled, Next, Enabled, Tasks.Inv;
    NobodyRunsAtFirst(r.states[0], 0);
    assert n > 0;
    var m := n - 1;
    var s, step := r.states[m], r.steps[m];
    ServerStays(s, step, t);
    if s.threads.silent(t) {
      StaysSilent(s, step, t);
      j := SilentCause(r, m, t);
    } else {
      SilencedByLettingGo(s, step, t);
      var w := step.step.step.w;
      DutyAt(r, m, w);
      j := OwingFromWork(r, m, w, t);
      WorkedMore(r, j);
    }
  }

  lemma WorkedMore(r: Run, j: nat)
    requires IsRun(r) && j < |r.steps| && r.steps[j].Work?
    ensures Worked(r, j).1 <= 0 && Asks(Worked(r, j).0) >= Asks(WorkedOn(r, j))
  {
    hide AfterRun, Next;
    var events, world := r.states[j].duty(r.steps[j].w).events, r.steps[j].world;
    AsksGrow(WorkedOn(r, j), events, world);
    RunReturns(WorkedOn(r, j), events, world);
  }

  lemma StaysSilent(s: State, step: Step, t: Task)
    requires Enabled(s, step) && Next(s, step).threads.silent(t)
    ensures s.threads.silent(t) ==> !Dequeues(s, step, t)
  {
    hide Tasks.Next, AfterRun, DutyAfter;
  }

  // ---------- who closed ----------

  /** The work at step j was t's, closed the socket, and Run returned 0 all the same. */
  ghost predicate ClosedAndReturned(r: Run, j: nat, t: Task)
    requires IsRun(r) && j < |r.steps|
  {
    r.steps[j].Work? && Running(r.states[j], r.steps[j].w) == t && ClosesSocket(r, j) && Worked(r, j).1 == 0
  }

  /** Worker w is in a run of t that will end in its deletion. */
  ghost predicate Failing(s: State, w: WorkerId, t: Task) {
    s.threads.tasks.work(w) == Tasks.Ran(t) && s.duty(w).Owing? && s.duty(w).ret < 0
  }

  lemma FailingStays(s: State, step: Step, w: WorkerId, t: Task)
    requires Enabled(s, step) && Failing(s, w, t) && !s.threads.server(t)
    requires Tasks.Inv(s.threads.tasks) && Next(s, step).threads.tasks.live(t)
    ensures Failing(Next(s, step), w, t)
  {
    hide AfterRun, DutyAfter;
    match step
    case Work(_, _) =>
    case Thread(st) =>
      match st
      case Protocol(p) => FailingEnds(s.threads.tasks, p, w, t);
      case Post => hide Tasks.Enabled;
      case _ => hide Tasks.Next, Tasks.Enabled;
  }

  /** A step that takes t off worker w, which has done DequeEvents, lets go of it. */
  lemma FailingEnds(s: Tasks.State, p: Tasks.Step, w: WorkerId, t: Task)
    requires Tasks.Enabled(s, p) && s.work(w) == Tasks.Ran(t)
    ensures Tasks.Next(s, p).work(w) == Tasks.Ran(t)
         || ((p.Detach? || p.CheckedDetach? || p.Park? || p.Delete?) && p.w == w)
    ensures p == Tasks.Delete(w) ==> !Tasks.Next(s, p).live(t)
    ensures p != Tasks.Deque(w)
  {
  }

  lemma LiveBefore(s: State, step: Step, t: Task)
    requires Enabled(s, step) && Next(s, step).threads.tasks.live(t)
    ensures s.threads.tasks.live(t)
  {
    hide AfterRun, DutyAfter, Threads.AskedAfter, Threads.SilentAfter;
  }

  /** A socket is closed by a run whose work closed it. */
  lemma ClosedByRun(s: State, step: Step, t: Task)
    requires Enabled(s, step) && !s.threads.closed(t) && Next(s, step).threads.closed(t)
    ensures step.Thread? && step.step.Close?
    ensures var w := step.step.w;
      s.threads.tasks.work(w) == Tasks.Ran(t) && s.duty(w).Owing? && s.duty(w).closing && !s.threads.server(t)
    ensures Next(s, step).threads.tasks == s.threads.tasks && Next(s, step).duty(step.step.w).Owing?
    ensures Next(s, step).duty(step.step.w).ret == s.duty(step.step.w).ret
  {
    hide Tasks.Next, Tasks.Enabled, AfterRun, DutyAfter;
  }

  /** A live session whose socket is closed had it closed by a run that returned 0, or is still in the
      run that closed it and will be deleted. */
  lemma {:induction false} ClosedCause(r: Run, n: nat, t: Task)
    requires IsRun(r) && n <= |r.steps| && r.states[n].threads.closed(t) && r.states[n].threads.tasks.live(t)
    requires !r.states[n].threads.server(t)
    ensures (exists j :: 0 <= j < n && ClosedAndReturned(r, j, t)) || exists w :: Failing(r.states[n], w, t)
  {
    hide AfterRun, Next, Enabled, Tasks.Inv, Failing, Worked;
    NothingClosedAtFirst(r.states[0], t);
    assert n > 0;
    var m := n - 1;
    var s, step := r.states[m], r.steps[m];
    ServerStays(s, step, t);
    LiveBefore(s, step, t);
    if s.threads.closed(t) {
      ClosedCause(r, m, t);
      if w :| Failing(s, w, t) {
        InvAt(r, m);
        FailingStays(s, step, w, t);
      }
    } else {
      ClosedByRun(s, step, t);
      var w := step.step.w;
      var j := OwingFromWork(r, m, w, t);
      WorkedMore(r, j);
      if Worked(r, j).1 == 0 {
        assert ClosedAndReturned(r, j, t);
      } else {
        FailingNow(r.states[n], w, t);
      }
    }
  }

  lemma FailingNow(s: State, w: WorkerId, t: Task)
    requires s.threads.tasks.work(w) == Tasks.Ran(t) && s.duty(w).Owing? && s.duty(w).ret < 0
    ensures Failing(s, w, t)
  {
  }

  lemma NothingClosedAtFirst(s: State, t: Task)
    requires Init(s)
    ensures !s.threads.closed(t)
  {
  }

  /** A lost session had a post stranded on it; or its last run asked for nothing, the exact condition
      for which is SilentIff; or a run of it returned 0 although it had closed the socket, the exact
      condition for which is ClosesAndReturnsIff. */
  lemma LostCause(r: Run, n: nat, t: Task)
    requires IsRun(r) && n <= |r.steps| && !r.states[n].threads.server(t) && Threads.Deaf(r.states[n].threads, t)
    ensures var q := Inside(r, n);
      Threads.IsRun(q) &&
      var p := Threads.Inside(q, |q.steps|);
      Tasks.IsRun(p) &&
      ((exists j :: WorkedSilently(r, j, n, t))
       || (exists j :: 0 <= j < n && ClosedAndReturned(r, j, t))
       || exists b, x, e :: History.Stranded(p, |p.steps|, t, b, x, e))
  {
    hide *;
    StateAt(r, n);
    var q := Inside(r, n);
    InsideIsRun(r, n);
    Threads.DeafUnlessClosed(q, |q.steps|, t);
    if r.states[n].threads.silent(t) {
      var j := SilentCause(r, n, t);
    } else if r.states[n].threads.closed(t) {
      DeafFailsNot(r.states[n], t);
      ClosedCause(r, n, t);
    }
  }

  lemma StateAt(r: Run, n: nat)
    requires IsRun(r) && n <= |r.steps|
    ensures n < |r.states|
  {
  }

  lemma DeafFailsNot(s: State, t: Task)
    requires Threads.Deaf(s.threads, t)
    ensures s.threads.tasks.live(t) && forall w :: !Failing(s, w, t)
  {
    forall w ensures !Failing(s, w, t) {
      if s.threads.tasks.work(w).Ran? { Threads.QuietRunsNot(s.threads.tasks, w, t); }
    }
  }

  // ---------- a truncated response is truncated for good ----------

  predicate WriteOnly(events: set<int>) {
    WRITE_BIT in events && READ_BIT !in events && ERROR_BIT !in events && CONTINUE_BIT !in events
  }

  /** Worker w runs session t with nothing on its way to t, and the run's work is a write-only one
      that is still to be done, or is done and left nothing to do but detach. */
  ghost predicate Leaving(s: State, t: Task, w: WorkerId) {
    && s.threads.tasks.work(w) == Tasks.Ran(t) && s.threads.tasks.live(t) && !s.threads.server(t) && s.threads.born(t)
    && Threads.Unwatched(s.threads, t) && (forall a :: s.threads.tasks.post(a) != Tasks.Ored(t))
    && match s.duty(w)
       case NoDuty => false
       case Due(events) => WriteOnly(events)
       case Owing(reading, writing, closing, ret, _) => reading == writing == ret == 0 && !closing
  }

  /** Bytes of t's response are left behind, and t is lost or about to be. */
  ghost predicate Doomed(s: State, t: Task) {
    SessionRuns.Truncated(s.session(t).stage) && (Threads.Deaf(s.threads, t) || exists w :: Leaving(s, t, w))
  }

  ghost predicate SameBytes(s: State, s': State, t: Task) {
    s'.session(t).stage.sent == s.session(t).stage.sent && s'.session(t).stage.rest == s.session(t).stage.rest
  }

  lemma RunsAlone(s: Tasks.State, w: WorkerId, v: WorkerId, t: Task)
    requires Tasks.Inv(s) && s.work(w) == Tasks.Ran(t) && s.work(v) != Tasks.Waiting && s.work(v).t == t
    ensures v == w
  {
    assert Tasks.At(s, t, Tasks.Running(w)) && Tasks.At(s, t, Tasks.Running(v));
  }

  /** A run goes on, and nobody posts to its task, until its own worker ends it. */
  lemma RunGoesOn(s: Tasks.State, p: Tasks.Step, w: WorkerId, t: Task)
    requires Tasks.Enabled(s, p) && Tasks.Inv(s) && s.work(w) == Tasks.Ran(t) && s.live(t)
    requires (forall a :: s.post(a) != Tasks.Ored(t)) && !(p.Or? && p.t == t)
    requires p.Detach? || p.CheckedDetach? || p.Park? || p.Delete? ==> p.w != w
    ensures var s' := Tasks.Next(s, p);
      s'.work(w) == Tasks.Ran(t) && s'.live(t) && forall a :: s'.post(a) != Tasks.Ored(t)
  {
    forall v | s.work(v) != Tasks.Waiting && s.work(v).t == t ensures v == w { RunsAlone(s, w, v, t); }
  }

  lemma LeavingByThread(s: State, st: Threads.Step, t: Task, w: WorkerId)
    requires Enabled(s, Thread(st)) && Tasks.Inv(s.threads.tasks) && Leaving(s, t, w)
    requires st != Threads.Poll(t, {HANGUP_BIT})
    ensures if st == Threads.Protocol(Tasks.Detach(w)) then Threads.Deaf(Next(s, Thread(st)).threads, t)
            else Leaving(Next(s, Thread(st)), t, w)
  {
    hide Tasks.Next, Tasks.Enabled, Tasks.Inv, AfterRun, DutyAfter, Threads.AskedAfter, Threads.SilentAfter;
    var p := Threads.TaskStep(s.threads, st);
    if st == Threads.Protocol(Tasks.Detach(w)) {
      Threads.LosingDeafens(s.threads, st, t);
    } else {
      if st.Ask? || st.Close? { if Running(s, st.w) == t { RunsAlone(s.threads.tasks, w, st.w, t); } }
      if p.Some? {
        if st.Protocol? { LetGoOnlyByDetach(s, st, t, w); }
        RunGoesOn(s.threads.tasks, p.value, w, t);
      }
    }
  }

  lemma LetGoOnlyByDetach(s: State, st: Threads.Step, t: Task, w: WorkerId)
    requires Enabled(s, Thread(st)) && Leaving(s, t, w) && st.Protocol?
    ensures st.step.Detach? || st.step.CheckedDetach? || st.step.Park? || st.step.Delete? ==>
              st.step.w != w || st.step == Tasks.Detach(w)
    ensures st.step != Tasks.Deque(w)
  {
    hide Tasks.Next;
  }

  lemma LeavingByWork(s: State, v: WorkerId, world: World, t: Task, w: WorkerId)
    requires Enabled(s, Work(v, world)) && Tasks.Inv(s.threads.tasks) && Leaving(s, t, w)
    requires SessionRuns.Truncated(s.session(t).stage)
    ensures var s' := Next(s, Work(v, world));
      Leaving(s', t, w) && SessionRuns.Truncated(s'.session(t).stage) && SameBytes(s, s', t)
  {
    hide Tasks.Next, Tasks.Enabled, Tasks.Inv, AfterRun;
    if v == w {
      SessionRuns.TruncatedRunIsSilent(s.session(t), s.duty(w).events, world);
    } else if Running(s, v) == t {
      RunsAlone(s.threads.tasks, w, v, t);
    }
  }

  lemma DoomedStays(s: State, step: Step, t: Task)
    requires Enabled(s, step) && Tasks.Inv(s.threads.tasks) && Doomed(s, t)
    requires step != Thread(Threads.Poll(t, {HANGUP_BIT}))
    ensures Doomed(Next(s, step), t) && SameBytes(s, Next(s, step), t)
  {
    hide AfterRun, DutyAfter, Threads.Next, Threads.Enabled, Tasks.Inv, Threads.Deaf, Leaving, SessionRuns.Truncated;
    if Threads.Deaf(s.threads, t) {
      match step
      case Work(v, _) => DeafRunsNot(s, v, t);
      case Thread(st) => Threads.StaysDeaf(s.threads, st, t);
    } else {
      var w :| Leaving(s, t, w);
      match step
      case Work(v, world) => LeavingByWork(s, v, world, t, w);
      case Thread(st) => LeavingByThread(s, st, t, w);
    }
  }

  lemma DeafRunsNot(s: State, v: WorkerId, t: Task)
    requires Threads.Deaf(s.threads, t) && s.threads.tasks.work(v).Ran?
    ensures Running(s, v) != t
  {
    Threads.QuietRunsNot(s.threads.tasks, v, t);
  }

  /** Once a session with bytes left behind is lost, or in a write-only run with nothing on its way to
      it, those bytes are never sent, whatever happens short of a hang-up. */
  lemma {:induction false} TruncatedForever(r: Run, m: nat, n: nat, t: Task)
    requires IsRun(r) && m <= n <= |r.steps| && Doomed(r.states[m], t)
    requires forall k :: m <= k < n ==> r.steps[k] != Thread(Threads.Poll(t, {HANGUP_BIT}))
    ensures Doomed(r.states[n], t) && SameBytes(r.states[m], r.states[n], t)
    decreases n
  {
    hide Doomed, Next, Enabled, Tasks.Inv;
    if n > m {
      TruncatedForever(r, m, n - 1, t);
      InvAt(r, n - 1);
      DoomedStays(r.states[n - 1], r.steps[n - 1], t);
    }
  }

  // ---------- a run in which that happens ----------

  lemma Extend(r: Run, step: Step) returns (r': Run)
    requires IsRun(r) && Enabled(r.states[|r.steps|], step)
    ensures IsRun(r') && r'.states == r.states + [Next(r.states[|r.steps|], step)] && r'.steps == r.steps + [step]
  {
    hide Next, Enabled, Init;
    r' := Run(r.states + [Next(r.states[|r.steps|], step)], r.steps + [step]);
  }

  ghost function End(r: Run): State
    requires IsRun(r)
  {
    r.states[|r.steps|]
  }

  /** Nothing is going on, and t's watch is armed for watch. */
  ghost predicate Calm(s: State, t: Task, watch: set<int>) {
    && s.threads.tasks.live(t) && s.threads.tasks.thread(t) == None && s.threads.tasks.events(t) == {}
    && (forall a :: s.threads.tasks.post(a) == Tasks.NoPost)
    && (forall w :: s.threads.tasks.queue(w) == s.threads.tasks.parked(w) == [] && s.threads.tasks.work(w) == Tasks.Waiting)
    && Threads.Session(s.threads, t, watch)
  }

  /** The event thread has disarmed t and posts bits to it next. */
  ghost predicate InHandOnly(s: State, t: Task, bits: set<int>) {
    && Calm(s.(threads := s.threads.(hand := None)), t, {}) && s.threads.hand == Some((t, bits))
  }

  lemma ReportTo(r: Run, t: Task, watch: set<int>, bits: set<int>) returns (r': Run)
    requires IsRun(r) && Calm(End(r), t, watch) && bits != {} && bits <= watch
    ensures IsRun(r') && r.states <= r'.states && InHandOnly(End(r'), t, bits) && End(r').session == End(r).session
  {
    r' := Extend(r, Thread(Threads.Poll(t, bits)));
    r' := Extend(r', Thread(Threads.Report(t)));
  }

  lemma PostTo(r: Run, t: Task, watch: set<int>, bits: set<int>) returns (r': Run)
    requires IsRun(r) && Calm(End(r), t, watch) && bits != {} && bits <= watch
    ensures IsRun(r') && r.states <= r'.states && Threads.JustPosted(End(r').threads, t)
    ensures End(r').threads.tasks.events(t) == bits && End(r').session == End(r).session
  {
    r' := ReportTo(r, t, watch, bits);
    r' := Extend(r', Thread(Threads.Post));
    assert {} + bits == bits;
  }

  /** The event thread has stored worker 0 in t and appends it next. */
  ghost predicate JustStored(s: Tasks.State, t: Task) {
    && s.live(t) && s.thread(t) == Some(0) && s.post(Tasks.Poster(0)) == Tasks.Stored(t, 0)
    && (forall a :: a != Tasks.Poster(0) ==> s.post(a) == Tasks.NoPost)
    && (forall w :: s.queue(w) == s.parked(w) == [] && s.work(w) == Tasks.Waiting)
  }

  lemma StoreIn(r: Run, t: Task) returns (r': Run)
    requires IsRun(r) && Threads.JustPosted(End(r).threads, t)
    ensures IsRun(r') && r.states <= r'.states && JustStored(End(r').threads.tasks, t)
    ensures Threads.Session(End(r').threads, t, {}) && End(r').session == End(r).session
    ensures End(r').threads.tasks.events == End(r).threads.tasks.events
  {
    r' := Extend(r, Thread(Threads.Protocol(Tasks.Test(Tasks.Poster(0)))));
    r' := Extend(r', Thread(Threads.Protocol(Tasks.Store(Tasks.Poster(0), 0))));
  }

  lemma AttachTo(r: Run, t: Task) returns (r': Run)
    requires IsRun(r) && Threads.JustPosted(End(r).threads, t)
    ensures IsRun(r') && r.states <= r'.states && Tasks.WithWorker(End(r').threads.tasks, t, [t], Tasks.Waiting)
    ensures Threads.Session(End(r').threads, t, {}) && End(r').session == End(r).session
    ensures End(r').threads.tasks.events == End(r).threads.tasks.events
  {
    r' := StoreIn(r, t);
    r' := Extend(r', Thread(Threads.Protocol(Tasks.Append(Tasks.Poster(0)))));
  }

  /** t is in a run on worker 0 and has done DequeEvents. */
  ghost predicate InRun(s: State, t: Task, watch: set<int>) {
    Tasks.WithWorker(s.threads.tasks, t, [], Tasks.Ran(t)) && s.threads.tasks.events(t) == {} && Threads.Session(s.threads, t, watch)
  }

  lemma TakeUp(r: Run, t: Task) returns (r': Run)
    requires IsRun(r) && Tasks.WithWorker(End(r).threads.tasks, t, [t], Tasks.Waiting) && Threads.Session(End(r).threads, t, {})
    ensures IsRun(r') && r.states <= r'.states && Tasks.WithWorker(End(r').threads.tasks, t, [], Tasks.Ready(t))
    ensures Threads.Session(End(r').threads, t, {}) && End(r').session == End(r).session
    ensures End(r').threads.tasks.events == End(r).threads.tasks.events
  {
    r' := Extend(r, Thread(Threads.Protocol(Tasks.Take(0))));
  }

  lemma StartRun(r: Run, t: Task) returns (r': Run)
    requires IsRun(r) && Tasks.WithWorker(End(r).threads.tasks, t, [t], Tasks.Waiting) && Threads.Session(End(r).threads, t, {})
    ensures IsRun(r') && r.states <= r'.states && InRun(End(r'), t, {})
    ensures End(r').duty(0) == Due(End(r).threads.tasks.events(t)) && End(r').session == End(r).session
    ensures !End(r').threads.asked(0)
  {
    r' := TakeUp(r, t);
    r' := Extend(r', Thread(Threads.Protocol(Tasks.Deque(0))));
  }

  /** epoll reports bits, and t is run with them. */
  lemma RunWith(r: Run, t: Task, watch: set<int>, bits: set<int>) returns (r': Run)
    requires IsRun(r) && Calm(End(r), t, watch) && bits != {} && bits <= watch
    ensures IsRun(r') && r.states <= r'.states && InRun(End(r'), t, {})
    ensures End(r').duty(0) == Due(bits) && End(r').session == End(r).session && !End(r').threads.asked(0)
  {
    r' := PostTo(r, t, watch, bits);
    r' := AttachTo(r', t);
    r' := StartRun(r', t);
  }

  lemma Join(s: State, t: Task) returns (r: Run)
    requires Init(s) && s.threads.tasks.live(t) && !s.threads.server(t)
    ensures IsRun(r) && r.states[0] == s && Calm(End(r), t, {READ_BIT}) && End(r).session == s.session
  {
    r := Run([s], []);
    r := Extend(r, Thread(Threads.Birth(t)));
    r := Extend(r, Thread(Threads.Arm(t)));
  }

  lemma WorkInPart(r: Run, t: Task, before: Fields, garbage: int, u: seq<Byte>, world: World) returns (r': Run)
    requires IsRun(r) && InRun(End(r), t, {}) && End(r).duty(0) == Due({READ_BIT})
    requires End(r).session(t) == New(before, garbage) && SessionRuns.SentInPart(u, world)
    ensures IsRun(r') && r.states <= r'.states && InRun(End(r'), t, {})
    ensures End(r').duty(0) == Owing(1, 1, false, 0, true)
    ensures End(r').session(t) == AfterRun(New(before, garbage), {READ_BIT}, world).0
    ensures SessionRuns.Truncated(End(r').session(t).stage) && !End(r').session(t).stage.closed
  {
    hide AfterRun, SessionRuns.Truncated, SessionRuns.SentInPart;
    SessionRuns.TruncatedByFirstRun(before, garbage, u, world);
    r' := Extend(r, Work(0, world));
  }

  /** The run has asked to read and then to write too, and is done. */
  ghost predicate AskedTwice(s: State, t: Task) {
    && Tasks.WithWorker(s.threads.tasks, t, [], Tasks.Ran(t)) && s.threads.tasks.events(t) == {}
    && s.threads.asked(0) && s.duty(0) == Owing(0, 0, false, 0, true)
    && Owed(s, t)
  }

  ghost predicate Owed(s: State, t: Task) {
    && s.threads.rearms == multiset{t, t} && s.threads.mask(t) == {READ_BIT, WRITE_BIT}
    && s.threads.hand == None && s.threads.ready(t) == {} && s.threads.born(t)
    && !s.threads.server(t) && !s.threads.silent(t) && !s.threads.closed(t)
  }

  lemma AskTwice(r: Run, t: Task) returns (r': Run)
    requires IsRun(r) && InRun(End(r), t, {}) && End(r).duty(0) == Owing(1, 1, false, 0, true)
    ensures IsRun(r') && r.states <= r'.states && AskedTwice(End(r'), t) && End(r').session == End(r).session
  {
    r' := Extend(r, Thread(Threads.Ask(0, false)));
    r' := Extend(r', Thread(Threads.Ask(0, true)));
  }

  lemma DetachAsked(r: Run, t: Task) returns (r': Run)
    requires IsRun(r) && AskedTwice(End(r), t)
    ensures IsRun(r') && r.states <= r'.states && Owed(End(r'), t) && End(r').session == End(r).session
    ensures var s := End(r').threads.tasks;
      && s.live(t) && s.thread(t) == None && s.events(t) == {} && (forall a :: s.post(a) == Tasks.NoPost)
      && forall w :: s.queue(w) == s.parked(w) == [] && s.work(w) == Tasks.Waiting
  {
    r' := Extend(r, Thread(Threads.Protocol(Tasks.Detach(0))));
  }

  lemma ArmTwice(r: Run, t: Task) returns (r': Run)
    requires IsRun(r) && Owed(End(r), t)
    requires End(r).threads.tasks.live(t) && End(r).threads.tasks.post(Tasks.Poster(0)) == Tasks.NoPost
    ensures IsRun(r') && r.states <= r'.states && End(r').threads.tasks == End(r).threads.tasks && End(r').session == End(r).session
    ensures Threads.Session(End(r').threads, t, {READ_BIT, WRITE_BIT})
  {
    r' := Extend(r, Thread(Threads.Arm(t)));
    r' := Extend(r', Thread(Threads.Arm(t)));
  }

  lemma DetachAndArm(r: Run, t: Task) returns (r': Run)
    requires IsRun(r) && AskedTwice(End(r), t)
    ensures IsRun(r') && r.states <= r'.states && Calm(End(r'), t, {READ_BIT, WRITE_BIT}) && End(r').session == End(r).session
  {
    hide AskedTwice, Owed, IsRun;
    r' := DetachAsked(r, t);
    r' := ArmTwice(r', t);
  }

  lemma WriteInVain(r: Run, t: Task, world: World) returns (r': Run)
    requires IsRun(r) && InRun(End(r), t, {}) && End(r).duty(0) == Due({WRITE_BIT})
    requires SessionRuns.Truncated(End(r).session(t).stage)
    ensures IsRun(r') && r.states <= r'.states && End(r').threads == End(r).threads
    ensures End(r').duty(0) == Owing(0, 0, false, 0, false)
    ensures SessionRuns.Truncated(End(r').session(t).stage) && SameBytes(End(r), End(r'), t)
  {
    hide AfterRun;
    SessionRuns.TruncatedRunIsSilent(End(r).session(t), {WRITE_BIT}, world);
    r' := Extend(r, Work(0, world));
  }

  lemma DetachSilent(r: Run, t: Task) returns (r': Run)
    requires IsRun(r) && InRun(End(r), t, {}) && End(r).duty(0) == Owing(0, 0, false, 0, false) && !End(r).threads.asked(0)
    ensures IsRun(r') && r.states <= r'.states && Threads.Deaf(End(r').threads, t) && End(r').threads.silent(t)
    ensures End(r').session == End(r).session
  {
    r' := Extend(r, Thread(Threads.Protocol(Tasks.Detach(0))));
  }

  /** The program as it is: a new session whose first response goes out only in part is run once more,
      sends nothing, asks for nothing and is lost. By TruncatedForever the rest is never sent. */
  lemma TruncatedAndLost(s: State, t: Task, before: Fields, garbage: int, u: seq<Byte>, world: World, later: World) returns (r: Run)
    requires Init(s) && s.threads.tasks.live(t) && !s.threads.server(t) && s.session(t) == New(before, garbage)
    requires SessionRuns.SentInPart(u, world)
    ensures IsRun(r) && r.states[0] == s
    ensures Doomed(End(r), t) && Threads.Deaf(End(r).threads, t) && End(r).threads.silent(t)
    ensures var first := AfterRun(New(before, garbage), {READ_BIT}, world).0.stage;
      End(r).session(t).stage.sent == first.sent && End(r).session(t).stage.rest == first.rest && SessionRuns.Truncated(first)
  {
    hide AfterRun, SessionRuns.SentInPart, SessionRuns.Truncated, InRun, Calm, AskedTwice, IsRun, Threads.Deaf, Leaving;
    r := Join(s, t);
    r := RunWith(r, t, {READ_BIT}, {READ_BIT});
    r := WorkInPart(r, t, before, garbage, u, world);
    r := AskTwice(r, t);
    r := DetachAndArm(r, t);
    r := RunWith(r, t, {READ_BIT, WRITE_BIT}, {WRITE_BIT});
    r := WriteInVain(r, t, later);
    r := DetachSilent(r, t);
  }

  // ---------- a run in which a closed socket loses the session ----------

  lemma WorkAndClose(r: Run, t: Task, word: seq<Byte>, u: seq<Byte>, world: World) returns (r': Run)
    requires IsRun(r) && InRun(End(r), t, {}) && End(r).duty(0) == Due({READ_BIT, WRITE_BIT})
    requires SessionRuns.Truncated(End(r).session(t).stage) && !End(r).session(t).stage.closed
    requires SessionRuns.Brings(End(r).session(t).received, word, u, world) && word != ['G', 'E', 'T'] && world.sends(0) == Broken
    ensures IsRun(r') && r.states <= r'.states && InRun(End(r'), t, {})
    ensures End(r').duty(0) == Owing(1, 0, true, 0, true)
    ensures End(r').session(t).stage == End(r).session(t).stage.(open := None, closed := true)
  {
    hide AfterRun, SessionRuns.Brings;
    SessionRuns.ClosedAndKept(End(r).session(t), word, u, world);
    r' := Extend(r, Work(0, world));
  }

  /** The run has asked to read and closed its socket. */
  ghost predicate AskedAndClosed(s: State, t: Task) {
    && Tasks.WithWorker(s.threads.tasks, t, [], Tasks.Ran(t)) && s.threads.tasks.events(t) == {}
    && s.threads.asked(0) && s.duty(0) == Owing(0, 0, false, 0, true)
    && s.threads.closed(t) && s.threads.watch(t) == s.threads.ready(t) == {} && s.threads.hand == None
    && s.threads.born(t) && !s.threads.server(t) && !s.threads.silent(t)
  }

  lemma AskAndClose(r: Run, t: Task) returns (r': Run)
    requires IsRun(r) && InRun(End(r), t, {}) && End(r).duty(0) == Owing(1, 0, true, 0, true)
    ensures IsRun(r') && r.states <= r'.states && AskedAndClosed(End(r'), t) && End(r').session == End(r).session
  {
    r' := Extend(r, Thread(Threads.Ask(0, false)));
    r' := Extend(r', Thread(Threads.Close(0)));
  }

  lemma DetachClosed(r: Run, t: Task) returns (r': Run)
    requires IsRun(r) && AskedAndClosed(End(r), t)
    ensures IsRun(r') && r.states <= r'.states && End(r').session == End(r).session
    ensures Threads.Deaf(End(r').threads, t) && End(r').threads.closed(t) && !End(r').threads.silent(t)
    ensures End(r').threads.tasks.events(t) == {}
  {
    r' := Extend(r, Thread(Threads.Protocol(Tasks.Detach(0))));
  }

  /** The program as it is, from the start: a truncated session is asked something that it does not
      answer, its socket breaks, and the run, which also writes, returns 0. The session is lost although
      its last run asked for events and no post was stranded; by ClosedDeafForever nothing brings it back. */
  lemma ClosedAndLost(s: State, t: Task, before: Fields, garbage: int, u: seq<Byte>, world: World,
                      word: seq<Byte>, u': seq<Byte>, later: World) returns (r: Run)
    requires Init(s) && s.threads.tasks.live(t) && !s.threads.server(t) && s.session(t) == New(before, garbage)
    requires SessionRuns.SentInPart(u, world)
    requires word != ['G', 'E', 'T'] && later.sends(0) == Broken
    ensures IsRun(r) && r.states[0] == s
    ensures SessionRuns.Brings(AfterRun(New(before, garbage), {READ_BIT}, world).0.received, word, u', later) ==>
      && Threads.Deaf(End(r).threads, t) && End(r).threads.closed(t) && !End(r).threads.silent(t)
      && End(r).threads.tasks.events(t) == {} && End(r).session(t).stage.rest != []
  {
    hide AfterRun, SessionRuns.SentInPart, SessionRuns.Brings, InRun, Calm, AskedTwice, AskedAndClosed, IsRun, Threads.Deaf;
    r := Join(s, t);
    r := RunWith(r, t, {READ_BIT}, {READ_BIT});
    r := WorkInPart(r, t, before, garbage, u, world);
    r := AskTwice(r, t);
    r := DetachAndArm(r, t);
    r := RunWith(r, t, {READ_BIT, WRITE_BIT}, {READ_BIT, WRITE_BIT});
    if SessionRuns.Brings(End(r).session(t).received, word, u', later) {
      r := WorkAndClose(r, t, word, u', later);
      r := AskAndClose(r, t);
      r := DetachClosed(r, t);
    }
  }
}
