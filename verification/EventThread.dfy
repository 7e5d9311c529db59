/** The event thread around the task protocol: it disarms the watch of the session epoll reports and
    posts to it; the session's run asks for its next events, and the birth angel arms the watch again
    unless the run has closed the socket. */
module EventThreads {
  import opened Basics
  import opened Events
  import opened Options
  import Tasks = Scheduler
  import History = SchedulerEvents

  type Task = Tasks.Task
  type WorkerId = Tasks.WorkerId

  /** The event thread is the only poster besides the workers. */
  const EVENT_THREAD := 0

  datatype State = State(
    tasks: Tasks.State,
    server: Task -> bool,
    born: Task -> bool,
    mask: Task -> set<int>,               // m_event_mask
    watch: Task -> set<int>,              // what epoll watches the socket for; {} is disarmed
    ready: Task -> set<int>,              // what epoll_wait returned for t and is still to be processed
    rearms: multiset<Task>,               // what the birth angel has still to hand over
    hand: Option<(Task, set<int>)>,       // disarmed, and about to be posted
    closed: Task -> bool,                 // m_SockFd is -1
    asked: WorkerId -> bool,              // the run that worker w is in has asked for events
    silent: Task -> bool)                 // a run of t ended without asking since its last DequeEvents

  datatype Step =
    | Listen(t: Task)                     // TcpServer::Init
    | Birth(t: Task)                      // TcpSession::Init
    | Arm(t: Task)                        // the birth angel hands t to AddWatch or ModifyWatch
    | Poll(t: Task, bits: set<int>)       // epoll_wait returns an event of t, in a batch of Polls
    | Report(t: Task)                     // the event thread comes to it
    | Post
    | Ask(w: WorkerId, write: bool)       // RequestEvent by the running session
    | Close(w: WorkerId)                  // SendData by the running session
    | Protocol(step: Tasks.Step)

  /** Between two epoll results. */
  ghost predicate Free(s: State) {
    s.hand == None && s.tasks.post(Tasks.Poster(EVENT_THREAD)) == Tasks.NoPost
  }

  ghost predicate Init(s: State) {
    && Tasks.Init(s.tasks)
    && s.rearms == multiset{} && s.hand == None
    && forall t :: !s.born(t) && s.watch(t) == s.ready(t) == {} && !s.silent(t) && !s.closed(t)
  }

  /** The birth angel runs on the event thread too. A hang-up is reported even when disarmed, but
      nothing of a closed socket is; what epoll_wait returned before is still processed. */
  ghost predicate Enabled(s: State, step: Step) {
    match step
    case Listen(t) => s.tasks.live(t) && !s.born(t) && s.server(t) && !s.closed(t)
    case Birth(t) => s.tasks.live(t) && !s.born(t) && !s.server(t) && !s.closed(t)
    case Arm(t) => Free(s) && s.tasks.live(t) && t in s.rearms
    case Poll(t, bits) =>
      && Free(s) && s.tasks.live(t) && s.born(t) && !s.closed(t) && s.ready(t) == {}
      && bits != {} && bits <= s.watch(t) + {HANGUP_BIT}
    case Report(t) => Free(s) && s.tasks.live(t) && s.ready(t) != {}
    case Post => s.hand.Some? && Tasks.Enabled(s.tasks, PostStep(s))
    case Ask(w, _) => s.tasks.work(w).Ran? && !s.server(s.tasks.work(w).t) && !s.closed(s.tasks.work(w).t)
    case Close(w) => s.tasks.work(w).Ran? && !s.server(s.tasks.work(w).t) && !s.closed(s.tasks.work(w).t)
    case Protocol(step) => !step.Or? && Tasks.Enabled(s.tasks, step)
  }

  ghost function PostStep(s: State): Tasks.Step
    requires s.hand.Some?
  {
    Tasks.Or(EVENT_THREAD, s.hand.value.0, s.hand.value.1)
  }

  ghost function Next(s: State, step: Step): State
    requires Enabled(s, step)
  {
    match step
    case Listen(t) => s.(born := Put(s.born, t, true), watch := Put(s.watch, t, {READ_BIT}))
    case Birth(t) =>
      s.(born := Put(s.born, t, true), mask := Put(s.mask, t, {READ_BIT}),
         rearms := s.rearms + multiset{t})
    case Arm(t) =>
      s.(watch := if s.closed(t) then s.watch else Put(s.watch, t, s.mask(t)), rearms := s.rearms - multiset{t})
    case Poll(t, bits) => s.(ready := Put(s.ready, t, bits))
    case Report(t) =>
      s.(watch := if s.server(t) then s.watch else Put(s.watch, t, {}), ready := Put(s.ready, t, {}),
         hand := Some((t, s.ready(t))))
    case Post => s.(tasks := Tasks.Next(s.tasks, PostStep(s)), hand := None)
    case Ask(w, write) =>
      var t := s.tasks.work(w).t;
      s.(mask := Put(s.mask, t, if write then {READ_BIT, WRITE_BIT} else {READ_BIT}),
         rearms := s.rearms + multiset{t}, asked := Put(s.asked, w, true))
    case Close(w) =>
      var t := s.tasks.work(w).t;
      s.(closed := Put(s.closed, t, true), watch := Put(s.watch, t, {}))
    case Protocol(step) =>
      s.(tasks := Tasks.Next(s.tasks, step), asked := AskedAfter(s, step), silent := SilentAfter(s, step))
  }

  /** asked and silent after a step of the protocol. */
  ghost function AskedAfter(s: State, step: Tasks.Step): WorkerId -> bool {
    if step.Deque? then Put(s.asked, step.w, false) else s.asked
  }

  ghost function SilentAfter(s: State, step: Tasks.Step): Task -> bool
    requires Tasks.Enabled(s.tasks, step)
  {
    match step
    case Deque(w) => Put(s.silent, s.tasks.work(w).t, false)
    case Detach(w) => RunEnded(s, w)
    case CheckedDetach(w) => RunEnded(s, w)
    case Park(w) => RunEnded(s, w)
    case _ => s.silent
  }

  ghost function RunEnded(s: State, w: WorkerId): Task -> bool
    requires s.tasks.work(w).Ran?
  {
    var t := s.tasks.work(w).t;
    Put(s.silent, t, s.silent(t) || !s.asked(w))
  }

  // ---------- what every step keeps ----------

  ghost predicate InHand(s: State, t: Task) {
    s.hand.Some? && s.hand.value.0 == t
  }

  /** t is in a run that has not asked for events yet. */
  ghost predicate YetToAsk(s: State, t: Task) {
    exists w :: s.tasks.work(w) == Tasks.Ran(t) && !s.asked(w)
  }

  /** The birth angel is about to arm the watch of t. */
  ghost predicate Rearming(s: State, t: Task) {
    t in s.rearms && !s.closed(t)
  }

  /** Something will still bring t to run, or a run of it ended without asking for events, or one has
      closed its socket. */
  ghost predicate Reachable(s: State, t: Task) {
    || s.closed(t)
    || s.watch(t) != {} || s.ready(t) != {} || Rearming(s, t) || InHand(s, t) || s.tasks.events(t) != {} || YetToAsk(s, t) || s.silent(t)
  }

  /** Every request names an event, and an armed watch with no request on its way is for the events
      the session asked for last. */
  ghost predicate MaskCurrent(s: State, t: Task) {
    && (t in s.rearms ==> !s.server(t) && READ_BIT in s.mask(t))
    && (!s.server(t) && t !in s.rearms && s.watch(t) != {} ==> s.watch(t) == s.mask(t))
    && (InHand(s, t) ==> s.hand.value.1 != {})
    && (s.closed(t) ==> !s.server(t) && s.watch(t) == {})
  }

  lemma KeepsMask(s: State, step: Step, t: Task)
    requires Enabled(s, step) && MaskCurrent(s, t)
    ensures MaskCurrent(Next(s, step), t)
  {
    hide Tasks.Next, Tasks.Enabled, AskedAfter, SilentAfter;
  }

  lemma KeepsReachable(s: State, step: Step, t: Task)
    requires Enabled(s, step) && MaskCurrent(s, t)
    requires s.born(t) && s.tasks.live(t) ==> Reachable(s, t)
    requires Next(s, step).born(t) && Next(s, step).tasks.live(t)
    ensures Reachable(Next(s, step), t)
  {
    match step
    case Protocol(st) => ProtocolKeepsReachable(s, st, t);
    case Post =>
    case _ => hide Tasks.Next, Tasks.Enabled;
  }

  lemma ProtocolKeepsReachable(s: State, st: Tasks.Step, t: Task)
    requires Enabled(s, Protocol(st)) && s.born(t)
    requires s.tasks.live(t) ==> Reachable(s, t)
    requires Tasks.Next(s.tasks, st).live(t)
    ensures Reachable(Next(s, Protocol(st)), t)
  {
    var s' := Next(s, Protocol(st));
    if st.Deque? {
      var u := s.tasks.work(st.w).t;
      assert s'.tasks.work(st.w) == Tasks.Ran(u) && !s'.asked(st.w);
      assert YetToAsk(s', u);
    }
    if YetToAsk(s, t) {
      var w :| s.tasks.work(w) == Tasks.Ran(t) && !s.asked(w);
      if s'.tasks.work(w) == Tasks.Ran(t) && !s'.asked(w) { assert YetToAsk(s', t); }
    }
  }

  // ---------- runs ----------

  datatype Run = Run(states: seq<State>, steps: seq<Step>)

  ghost predicate IsRun(r: Run) {
    && |r.states| == |r.steps| + 1
    && Init(r.states[0])
    && forall k :: 0 <= k < |r.steps| ==>
        Enabled(r.states[k], r.steps[k]) && r.states[k + 1] == Next(r.states[k], r.steps[k])
  }

  lemma {:induction false} ReachableAt(r: Run, n: nat, t: Task)
    requires IsRun(r) && n <= |r.steps|
    ensures MaskCurrent(r.states[n], t)
    ensures r.states[n].born(t) && r.states[n].tasks.live(t) ==> Reachable(r.states[n], t)
  {
    hide Next, Reachable, MaskCurrent;
    if n == 0 {
      InitReachable(r.states[0], t);
    } else {
      ReachableAt(r, n - 1, t);
      KeepsMask(r.states[n - 1], r.steps[n - 1], t);
      if r.states[n].born(t) && r.states[n].tasks.live(t) {
        KeepsReachable(r.states[n - 1], r.steps[n - 1], t);
      }
    }
  }

  /** A server's watch: none before it listens, and from then on EVENT_READ. */
  ghost predicate Listens(s: State, t: Task, since: bool) {
    s.born(t) == since && s.watch(t) == if since then {READ_BIT} else {}
  }

  lemma KeepsListening(s: State, step: Step, t: Task, since: bool)
    requires Enabled(s, step) && MaskCurrent(s, t) && s.server(t) && Listens(s, t, since)
    ensures Next(s, step).server(t) && Listens(Next(s, step), t, since || step == Listen(t))
  {
    hide Tasks.Next, Tasks.Enabled, AskedAfter, SilentAfter;
  }

  /** From the step on with which a server starts to listen, and never before, its watch is armed for
      EVENT_READ, whatever happens. */
  lemma {:induction false} ServerListens(r: Run, n: nat, t: Task)
    requires IsRun(r) && n <= |r.steps| && r.states[0].server(t)
    ensures r.states[n].server(t) && Listens(r.states[n], t, exists k :: 0 <= k < n && r.steps[k] == Listen(t))
  {
    hide Next, Enabled, MaskCurrent, Listens;
    if n == 0 {
      InitListens(r.states[0], t);
    } else {
      ReachableAt(r, n - 1, t);
      ServerListens(r, n - 1, t);
      KeepsListening(r.states[n - 1], r.steps[n - 1], t, exists k :: 0 <= k < n - 1 && r.steps[k] == Listen(t));
      assert (exists k :: 0 <= k < n && r.steps[k] == Listen(t))
        == ((exists k :: 0 <= k < n - 1 && r.steps[k] == Listen(t)) || r.steps[n - 1] == Listen(t));
    }
  }

  lemma InitListens(s: State, t: Task)
    requires Init(s)
    ensures Listens(s, t, false)
  {
  }

  lemma InitReachable(s: State, t: Task)
    requires Init(s)
    ensures MaskCurrent(s, t) && !s.born(t)
  {
  }

  /** The step of the task protocol that a step here takes, if any. */
  ghost function TaskStep(s: State, step: Step): Option<Tasks.Step>
    requires Enabled(s, step)
  {
    match step
    case Post => Some(PostStep(s))
    case Protocol(st) => Some(st)
    case _ => None
  }

  /** The run of the task protocol inside a run. */
  ghost function Inside(r: Run, n: nat): Tasks.Run
    requires IsRun(r) && n <= |r.steps|
  {
    if n == 0 then Tasks.Run([r.states[0].tasks], [])
    else
      var q := Inside(r, n - 1);
      match TaskStep(r.states[n - 1], r.steps[n - 1])
      case None => q
      case Some(st) => Tasks.Run(q.states + [r.states[n].tasks], q.steps + [st])
  }

  lemma {:induction false} InsideIsRun(r: Run, n: nat)
    requires IsRun(r) && n <= |r.steps|
    ensures var q := Inside(r, n);
      && Tasks.IsRun(q) && Tasks.OnePoster(q, EVENT_THREAD)
      && |q.states| == |q.steps| + 1 && q.states[|q.steps|] == r.states[n].tasks
  {
    hide Next, Enabled, TaskStep, Tasks.IsRun, Tasks.OnePoster;
    if n == 0 {
      NoSteps(r.states[0].tasks);
    } else {
      var q, st := Inside(r, n - 1), TaskStep(r.states[n - 1], r.steps[n - 1]);
      InsideIsRun(r, n - 1);
      TaskStepTaken(r.states[n - 1], r.steps[n - 1]);
      if st.Some? { OneMore(q, st.value); }
    }
  }

  lemma NoSteps(s: Tasks.State)
    requires Tasks.Init(s)
    ensures Tasks.IsRun(Tasks.Run([s], [])) && Tasks.OnePoster(Tasks.Run([s], []), EVENT_THREAD)
  {
  }

  lemma TaskStepTaken(s: State, step: Step)
    requires Enabled(s, step)
    ensures match TaskStep(s, step)
      case None => Next(s, step).tasks == s.tasks
      case Some(st) => Tasks.Enabled(s.tasks, st) && Next(s, step).tasks == Tasks.Next(s.tasks, st)
                       && (st.Or? ==> st.p == EVENT_THREAD)
  {
    hide Tasks.Next, Tasks.Enabled;
  }

  lemma OneMore(q: Tasks.Run, st: Tasks.Step)
    requires Tasks.IsRun(q) && Tasks.OnePoster(q, EVENT_THREAD) && Tasks.Enabled(q.states[|q.steps|], st)
    requires st.Or? ==> st.p == EVENT_THREAD
    ensures var q' := Tasks.Run(q.states + [Tasks.Next(q.states[|q.steps|], st)], q.steps + [st]);
      Tasks.IsRun(q') && Tasks.OnePoster(q', EVENT_THREAD)
  {
    hide Tasks.Next, Tasks.Enabled, Tasks.Init;
  }

  // ---------- sessions that nothing reaches any more ----------

  /** t is idle and nobody is posting to it. */
  ghost predicate Quiet(s: Tasks.State, t: Task) {
    s.live(t) && Tasks.Idle(s, t) && forall a :: s.post(a) != Tasks.Ored(t)
  }

  /** The watch of t is disarmed, nothing of it was reported, and nothing is about to arm it or to be
      posted to t. */
  ghost predicate Unwatched(s: State, t: Task) {
    s.watch(t) == {} && s.ready(t) == {} && !Rearming(s, t) && !InHand(s, t)
  }

  ghost predicate Deaf(s: State, t: Task) {
    s.born(t) && Quiet(s.tasks, t) && Unwatched(s, t)
  }

  /** Step k is a run of t closing the socket. */
  ghost predicate Closes(r: Run, k: nat, t: Task)
    requires IsRun(r) && k < |r.steps|
  {
    r.steps[k].Close? && r.states[k].tasks.work(r.steps[k].w) == Tasks.Ran(t)
  }

  lemma {:induction false} ClosedBy(r: Run, n: nat, t: Task)
    requires IsRun(r) && n <= |r.steps| && r.states[n].closed(t)
    ensures exists k :: 0 <= k < n && Closes(r, k, t)
  {
    hide Tasks.Next, Tasks.Enabled, AskedAfter, SilentAfter;
    assert n > 0;
    var m := n - 1;
    assert Enabled(r.states[m], r.steps[m]) && r.states[n] == Next(r.states[m], r.steps[m]);
    if r.states[m].closed(t) { ClosedBy(r, m, t); } else { assert Closes(r, m, t); }
  }

  /** A deaf session whose socket is open got there in one of two ways: a post was stranded on it, or
      its last run ended without asking for events. */
  lemma DeafUnlessClosed(r: Run, n: nat, t: Task)
    requires IsRun(r) && n <= |r.steps| && Deaf(r.states[n], t)
    ensures Tasks.IsRun(Inside(r, n))
    ensures r.states[n].silent(t) || r.states[n].closed(t)
         || exists b, x, e :: History.Stranded(Inside(r, n), |Inside(r, n).steps|, t, b, x, e)
  {
    hide Tasks.IsRun, Tasks.NoClash, Tasks.OnePoster, History.Stranded;
    var s, q := r.states[n], Inside(r, n);
    InsideIsRun(r, n);
    ReachableAt(r, n, t);
    if YetToAsk(s, t) {
      var w :| s.tasks.work(w) == Tasks.Ran(t) && !s.asked(w);
      QuietRunsNot(s.tasks, w, t);
    }
    if !s.closed(t) && !s.silent(t) {
      StrandedOn(q, t);
    }
  }

  /** A deaf session got there in one of three ways: one of these two, or a run closed its socket. */
  lemma DeafCause(r: Run, n: nat, t: Task)
    requires IsRun(r) && n <= |r.steps| && Deaf(r.states[n], t)
    ensures Tasks.IsRun(Inside(r, n))
    ensures r.states[n].silent(t)
         || (exists k :: 0 <= k < n && Closes(r, k, t))
         || exists b, x, e :: History.Stranded(Inside(r, n), |Inside(r, n).steps|, t, b, x, e)
  {
    hide Tasks.IsRun, History.Stranded, Closes, Deaf;
    DeafUnlessClosed(r, n, t);
    if r.states[n].closed(t) { ClosedBy(r, n, t); }
  }

  lemma StrandedOn(q: Tasks.Run, t: Task)
    requires Tasks.IsRun(q) && Tasks.OnePoster(q, EVENT_THREAD)
    requires Quiet(q.states[|q.steps|], t) && q.states[|q.steps|].events(t) != {}
    ensures exists b, x, e :: History.Stranded(q, |q.steps|, t, b, x, e)
  {
    hide History.Stranded;
    Tasks.OnePosterNoClash(q, EVENT_THREAD, |q.steps|);
    if forall b, x, e :: !History.Stranded(q, |q.steps|, t, b, x, e) {
      forall b ensures b !in q.states[|q.steps|].events(t) { History.StrandedIff(q, |q.steps|, t, b); }
    }
  }

  /** Only an OR from outside ends the quiet. */
  lemma StaysQuiet(s: Tasks.State, st: Tasks.Step, t: Task)
    requires Tasks.Enabled(s, st) && Quiet(s, t) && !(st.Or? && st.t == t)
    ensures Quiet(Tasks.Next(s, st), t) && Tasks.Next(s, st).events(t) == s.events(t)
    ensures st.Deque? ==> s.work(st.w) != Tasks.Ready(t)
  {
    forall w ensures s.work(w) != Tasks.Waiting ==> s.work(w).t != t {
      assert !Tasks.At(s, t, Tasks.Running(w));
    }
    forall p ensures !Tasks.At(Tasks.Next(s, st), t, p) {
      if Tasks.At(Tasks.Next(s, st), t, p) { Tasks.FromWasThere(s, st, t, p); }
    }
  }

  lemma StaysDeaf(s: State, step: Step, t: Task)
    requires Enabled(s, step) && Deaf(s, t) && step != Poll(t, {HANGUP_BIT})
    ensures Deaf(Next(s, step), t) && Next(s, step).tasks.events(t) == s.tasks.events(t)
    ensures step.Protocol? && step.step.Deque? ==> s.tasks.work(step.step.w) != Tasks.Ready(t)
  {
    hide Quiet, Tasks.Next, Tasks.Enabled, AskedAfter, SilentAfter;
    TaskStepTaken(s, step);
    if TaskStep(s, step).Some? { StaysQuiet(s.tasks, TaskStep(s, step).value, t); }
    if step.Ask? || step.Close? { QuietRunsNot(s.tasks, step.w, t); }
    StaysUnwatched(s, step, t);
  }

  lemma StaysUnwatched(s: State, step: Step, t: Task)
    requires Enabled(s, step) && s.born(t) && Unwatched(s, t) && step != Poll(t, {HANGUP_BIT})
    requires step.Ask? || step.Close? ==> s.tasks.work(step.w).t != t
    ensures Next(s, step).born(t) && Unwatched(Next(s, step), t)
  {
    hide Tasks.Next, Tasks.Enabled, AskedAfter, SilentAfter;
  }

  lemma QuietRunsNot(s: Tasks.State, w: WorkerId, t: Task)
    requires Quiet(s, t) && s.work(w).Ran?
    ensures s.work(w).t != t
  {
    assert !Tasks.At(s, t, Tasks.Running(w));
  }

  /** Whatever happens afterwards short of a hang-up, a deaf session never runs again and never
      sees the events that were posted to it. */
  lemma {:induction false} DeafForever(r: Run, m: nat, n: nat, t: Task)
    requires IsRun(r) && m <= n <= |r.steps| && Deaf(r.states[m], t)
    requires forall k :: m <= k < n ==> r.steps[k] != Poll(t, {HANGUP_BIT})
    ensures Deaf(r.states[n], t) && r.states[n].tasks.events(t) == r.states[m].tasks.events(t)
    ensures forall k :: m <= k < n ==> !Runs(r.states[k], r.steps[k], t)
    decreases n
  {
    hide Deaf, Next, Enabled;
    if n > m {
      DeafForever(r, m, n - 1, t);
      StaysDeaf(r.states[n - 1], r.steps[n - 1], t);
    }
  }

  /** The step is a worker's DequeEvents in a run of t. */
  ghost predicate Runs(s: State, step: Step, t: Task) {
    step.Protocol? && step.step.Deque? && s.tasks.work(step.step.w) == Tasks.Ready(t)
  }

  /** A deaf session whose socket was closed is not even reached by a hang-up. */
  lemma {:induction false} ClosedDeafForever(r: Run, m: nat, n: nat, t: Task)
    requires IsRun(r) && m <= n <= |r.steps| && Deaf(r.states[m], t) && r.states[m].closed(t)
    ensures Deaf(r.states[n], t) && r.states[n].closed(t)
    ensures forall k :: m <= k < n ==> !Runs(r.states[k], r.steps[k], t)
    decreases n
  {
    hide Deaf, Next, Enabled;
    if n > m {
      ClosedDeafForever(r, m, n - 1, t);
      ClosedStays(r.states[n - 1], r.steps[n - 1], t);
      StaysDeaf(r.states[n - 1], r.steps[n - 1], t);
    }
  }

  lemma ClosedStays(s: State, step: Step, t: Task)
    requires Enabled(s, step) && s.closed(t)
    ensures Next(s, step).closed(t) && !(step.Poll? && step.t == t)
  {
    hide Tasks.Next, Tasks.Enabled, AskedAfter, SilentAfter;
  }

  /** Once the event thread has come to an event of a session, epoll does not return another, but for
      hang-ups, before its watch was armed again. */
  lemma {:induction false} ReportsNeedArming(r: Run, i: nat, j: nat, t: Task)
    requires IsRun(r) && i < j < |r.steps| && !r.states[i].server(t) && r.states[i].born(t)
    requires r.steps[i] == Report(t)
    requires r.steps[j].Poll? && r.steps[j].t == t && r.steps[j].bits != {HANGUP_BIT}
    ensures exists k :: i < k < j && r.steps[k] == Arm(t)
  {
    if forall k :: i < k < j ==> r.steps[k] != Arm(t) {
      StaysDisarmed(r, i, j, t);
    }
  }

  lemma {:induction false} StaysDisarmed(r: Run, i: nat, n: nat, t: Task)
    requires IsRun(r) && i < n <= |r.steps| && !r.states[i].server(t) && r.states[i].born(t)
    requires r.steps[i] == Report(t)
    requires forall k :: i < k < n ==> r.steps[k] != Arm(t)
    ensures Disarmed(r.states[n], t)
  {
    hide Next, Enabled, Disarmed;
    assert Enabled(r.states[n - 1], r.steps[n - 1]) && r.states[n] == Next(r.states[n - 1], r.steps[n - 1]);
    if n - 1 > i { StaysDisarmed(r, i, n - 1, t); }
    DisarmedStep(r.states[n - 1], r.steps[n - 1], t);
  }

  ghost predicate Disarmed(s: State, t: Task) {
    s.watch(t) == {} && !s.server(t) && s.born(t)
  }

  lemma DisarmedStep(s: State, step: Step, t: Task)
    requires Enabled(s, step) && step != Arm(t)
    requires Disarmed(s, t) || (step == Report(t) && !s.server(t) && s.born(t))
    ensures Disarmed(Next(s, step), t)
  {
    hide Tasks.Next, Tasks.Enabled, AskedAfter, SilentAfter;
  }

  /** The Detach that ends a run of a session makes it deaf exactly when at that moment its watch is
      disarmed, nothing is about to arm it and no post to it is in progress. */
  lemma DetachDeafensIff(s: State, w: WorkerId, t: Task)
    requires Enabled(s, Protocol(Tasks.Detach(w))) && Tasks.Inv(s.tasks)
    requires s.tasks.work(w) == Tasks.Ran(t) && s.born(t)
    ensures Deaf(Next(s, Protocol(Tasks.Detach(w))), t)
       <==> Unwatched(s, t) && forall a :: s.tasks.post(a) != Tasks.Ored(t)
  {
    var s' := Next(s, Protocol(Tasks.Detach(w)));
    assert Tasks.At(s.tasks, t, Tasks.Running(w));
    forall p ensures !Tasks.At(s'.tasks, t, p) {
      if Tasks.At(s'.tasks, t, p) { assert Tasks.At(s.tasks, t, p); }
    }
  }

  /** The step ends a run of session t that is disarmed, with nothing about to arm it and no post to
      it in progress. */
  ghost predicate Loses(s: State, step: Step, t: Task) {
    && step.Protocol? && (step.step.Detach? || (step.step.CheckedDetach? && s.tasks.events(t) == {}))
    && s.tasks.work(step.step.w) == Tasks.Ran(t) && s.born(t)
    && Unwatched(s, t) && forall a :: s.tasks.post(a) != Tasks.Ored(t)
  }

  lemma LosingDeafens(s: State, step: Step, t: Task)
    requires Enabled(s, step) && Tasks.Inv(s.tasks) && Loses(s, step, t)
    ensures Deaf(Next(s, step), t)
  {
    var w, s' := step.step.w, Next(s, step);
    assert Tasks.At(s.tasks, t, Tasks.Running(w));
    forall p ensures !Tasks.At(s'.tasks, t, p) {
      if Tasks.At(s'.tasks, t, p) { assert Tasks.At(s.tasks, t, p); }
    }
  }

  lemma OredStaysLoud(s: Tasks.State, st: Tasks.Step, t: Task, a: Tasks.Agent)
    requires Tasks.Enabled(s, st) && Tasks.Inv(s) && s.live(t) && Tasks.Idle(s, t) && s.post(a) == Tasks.Ored(t)
    ensures !Quiet(Tasks.Next(s, st), t)
  {
    var s' := Tasks.Next(s, st);
    assert s.thread(t) == None;
    if st == Tasks.Test(a) {
      assert Tasks.At(s', t, Tasks.Attaching(a));
    } else if st.LockedAttach? && st.a == a {
      assert Tasks.At(s', t, Tasks.Queued(st.w, |s.queue(st.w)|));
    } else {
      assert s'.post(a) == Tasks.Ored(t);
    }
  }

  /** A step of the task protocol after which t is quiet, though it was not, lets go of it. */
  lemma QuietedByLettingGo(s: Tasks.State, st: Tasks.Step, t: Task)
    requires Tasks.Enabled(s, st) && Tasks.Inv(s) && !Quiet(s, t) && Quiet(Tasks.Next(s, st), t)
    ensures (st.Detach? || (st.CheckedDetach? && s.events(t) == {})) && s.work(st.w) == Tasks.Ran(t)
    ensures forall a :: s.post(a) != Tasks.Ored(t)
  {
    if p :| Tasks.At(s, t, p) {
      if !Tasks.LetsGo(s, st, p) { Tasks.OnwardIsThere(s, st, t, p); }
      assert Tasks.LetsGo(s, st, p);
    } else {
      var a :| s.post(a) == Tasks.Ored(t);
      OredStaysLoud(s, st, t, a);
    }
  }

  lemma DeafenedByLosing(s: State, step: Step, t: Task)
    requires Enabled(s, step) && Tasks.Inv(s.tasks) && MaskCurrent(s, t)
    requires !Deaf(s, t) && Deaf(Next(s, step), t)
    ensures Loses(s, step, t)
  {
    hide Quiet, Tasks.Next, Tasks.Enabled, Tasks.Inv, AskedAfter, SilentAfter;
    TaskStepTaken(s, step);
    if step.Post? && InHand(s, t) { PostIsHeard(s, t); }
    if step.Close? && Quiet(s.tasks, t) { QuietRunsNot(s.tasks, step.w, t); }
    if TaskStep(s, step).Some? && !Quiet(s.tasks, t) { QuietedByLettingGo(s.tasks, TaskStep(s, step).value, t); }
    if !step.Protocol? && !step.Post? { NoWatchLost(s, step, t); }
  }

  /** Only the task protocol, or a run closing its own socket, can leave t without anything to come. */
  lemma NoWatchLost(s: State, step: Step, t: Task)
    requires Enabled(s, step) && MaskCurrent(s, t) && !step.Protocol? && !step.Post?
    requires Next(s, step).born(t) && Unwatched(Next(s, step), t)
    requires step.Close? ==> s.tasks.work(step.w).t != t
    ensures s.born(t) && Unwatched(s, t)
  {
    hide Tasks.Next, Tasks.Enabled, AskedAfter, SilentAfter;
  }

  lemma PostIsHeard(s: State, t: Task)
    requires Enabled(s, Post) && InHand(s, t)
    ensures !Quiet(Next(s, Post).tasks, t)
  {
    assert Next(s, Post).tasks.post(Tasks.Poster(EVENT_THREAD)) == Tasks.Ored(t);
  }

  ghost predicate NeverDeaf(r: Run)
    requires IsRun(r)
  {
    forall n, t :: 0 <= n <= |r.steps| ==> !Deaf(r.states[n], t)
  }

  ghost predicate NeverLoses(r: Run)
    requires IsRun(r)
  {
    forall k, t :: 0 <= k < |r.steps| ==> !Loses(r.states[k], r.steps[k], t)
  }

  lemma TasksInv(r: Run, n: nat)
    requires IsRun(r) && n <= |r.steps|
    ensures Tasks.Inv(r.states[n].tasks)
  {
    hide Tasks.IsRun, Tasks.OnePoster, Tasks.Inv;
    var q := Inside(r, n);
    InsideIsRun(r, n);
    Tasks.OnePosterNoClash(q, EVENT_THREAD, |q.steps|);
    Tasks.InvAt(q, |q.steps|);
  }

  lemma {:induction false} DeafOnlyByLosing(r: Run, n: nat, t: Task)
    requires IsRun(r) && NeverLoses(r) && n <= |r.steps|
    ensures !Deaf(r.states[n], t)
  {
    hide Next, Enabled, Deaf, Loses, MaskCurrent, Tasks.Inv;
    if n == 0 {
      NobodyDeafAtFirst(r.states[0], t);
    } else {
      DeafOnlyByLosing(r, n - 1, t);
      TasksInv(r, n - 1);
      ReachableAt(r, n - 1, t);
      if Deaf(r.states[n], t) { DeafenedByLosing(r.states[n - 1], r.steps[n - 1], t); }
    }
  }

  lemma NobodyDeafAtFirst(s: State, t: Task)
    requires Init(s)
    ensures !Deaf(s, t)
  {
  }

  /** No state of a run has a lost session exactly when no run of a session ends while its watch is
      disarmed, nothing is about to arm it and no post to it is in progress. */
  lemma NeverDeafIff(r: Run)
    requires IsRun(r)
    ensures NeverDeaf(r) <==> NeverLoses(r)
  {
    hide Next, Enabled, Deaf, Loses, Tasks.Inv;
    if NeverLoses(r) {
      forall n, t | 0 <= n <= |r.steps| ensures !Deaf(r.states[n], t) { DeafOnlyByLosing(r, n, t); }
    } else {
      var k, t :| 0 <= k < |r.steps| && Loses(r.states[k], r.steps[k], t);
      TasksInv(r, k);
      LosingDeafens(r.states[k], r.steps[k], t);
      assert Deaf(r.states[k + 1], t);
    }
  }

  lemma {:induction false} InsideChecked(r: Run, n: nat)
    requires IsRun(r) && n <= |r.steps|
    requires forall k, w :: 0 <= k < n ==> r.steps[k] != Protocol(Tasks.Detach(w))
    ensures History.AllChecked(Inside(r, n))
  {
    hide Next, Enabled;
    if n > 0 { InsideChecked(r, n - 1); }
  }

  /** With the repaired Detach a session goes deaf only by a run that did not ask for events, or by one
      that closed its socket. */
  lemma CheckedDeafIsSilent(r: Run, n: nat, t: Task)
    requires IsRun(r) && n <= |r.steps| && Deaf(r.states[n], t)
    requires forall k, w :: 0 <= k < n ==> r.steps[k] != Protocol(Tasks.Detach(w))
    ensures r.states[n].silent(t) || exists k :: 0 <= k < n && Closes(r, k, t)
  {
    hide Tasks.IsRun, Tasks.NoClash, Tasks.OnePoster, History.AllChecked, Closes;
    var s, q := r.states[n], Inside(r, n);
    InsideIsRun(r, n);
    InsideChecked(r, n);
    Tasks.OnePosterNoClash(q, EVENT_THREAD, |q.steps|);
    History.CheckedNeverStrands(q, |q.steps|, t);
    if s.closed(t) { ClosedBy(r, n, t); }
    ReachableAt(r, n, t);
    if YetToAsk(s, t) {
      var w :| s.tasks.work(w) == Tasks.Ran(t) && !s.asked(w);
      QuietRunsNot(s.tasks, w, t);
    }
  }

  // ---------- a session that the code as it is loses ----------

  lemma Extend(r: Run, step: Step) returns (r': Run)
    requires IsRun(r) && Enabled(r.states[|r.steps|], step)
    ensures IsRun(r') && r'.steps == r.steps + [step]
    ensures r'.states == r.states + [Next(r.states[|r.steps|], step)]
  {
    r' := Run(r.states + [Next(r.states[|r.steps|], step)], r.steps + [step]);
  }

  /** Only t is about, an event was ORed into it and the attach test is next. */
  ghost predicate JustPosted(s: State, t: Task) {
    && s.tasks.live(t) && s.tasks.thread(t) == None && s.tasks.post(Tasks.Poster(0)) == Tasks.Ored(t)
    && (forall a :: a != Tasks.Poster(0) ==> s.tasks.post(a) == Tasks.NoPost)
    && (forall w :: s.tasks.queue(w) == s.tasks.parked(w) == [] && s.tasks.work(w) == Tasks.Waiting)
    && Session(s, t, {})
  }

  /** What the event thread knows of t, with nothing on its way. */
  ghost predicate Session(s: State, t: Task, watch: set<int>) {
    && !s.server(t) && s.born(t) && s.watch(t) == watch && s.ready(t) == {} && s.rearms == multiset{} && s.hand == None
    && !s.silent(t) && !s.closed(t)
  }

  lemma RunUntilPosted(s: State, t: Task) returns (r: Run)
    requires Init(s) && s.tasks.live(t) && !s.server(t)
    ensures IsRun(r) && r.states[0] == s && JustPosted(r.states[|r.steps|], t)
  {
    r := Run([s], []);
    r := Extend(r, Birth(t));
    r := Extend(r, Arm(t));
    r := Extend(r, Poll(t, {READ_BIT}));
    r := Extend(r, Report(t));
    r := Extend(r, Post);
  }

  lemma RunUntilQueued(s: State, t: Task) returns (r: Run)
    requires Init(s) && s.tasks.live(t) && !s.server(t)
    ensures IsRun(r) && r.states[0] == s
    ensures var s' := r.states[|r.steps|]; Tasks.WithWorker(s'.tasks, t, [t], Tasks.Waiting) && Session(s', t, {})
  {
    r := RunUntilPosted(s, t);
    r := Extend(r, Protocol(Tasks.Test(Tasks.Poster(0))));
    r := Extend(r, Protocol(Tasks.Store(Tasks.Poster(0), 0)));
    r := Extend(r, Protocol(Tasks.Append(Tasks.Poster(0))));
  }

  lemma RunUntilDequeued(s: State, t: Task) returns (r: Run)
    requires Init(s) && s.tasks.live(t) && !s.server(t)
    ensures IsRun(r) && r.states[0] == s
    ensures var s' := r.states[|r.steps|];
      Tasks.WithWorker(s'.tasks, t, [], Tasks.Ran(t)) && s'.tasks.events(t) == {} && Session(s', t, {})
  {
    r := RunUntilQueued(s, t);
    r := Extend(r, Protocol(Tasks.Take(0)));
    r := Extend(r, Protocol(Tasks.Deque(0)));
  }

  lemma RunUntilAsked(s: State, t: Task) returns (r: Run)
    requires Init(s) && s.tasks.live(t) && !s.server(t)
    ensures IsRun(r) && r.states[0] == s
    ensures var s' := r.states[|r.steps|];
      && Tasks.WithWorker(s'.tasks, t, [], Tasks.Ran(t)) && s'.tasks.events(t) == {}
      && Session(s', t, {READ_BIT}) && s'.asked(0)
  {
    r := RunUntilDequeued(s, t);
    r := Extend(r, Ask(0, false));
    r := Extend(r, Arm(t));
  }

  lemma RunUntilRaced(s: State, t: Task) returns (r: Run)
    requires Init(s) && s.tasks.live(t) && !s.server(t)
    ensures IsRun(r) && r.states[0] == s
    ensures var s' := r.states[|r.steps|];
      && s'.tasks.post(Tasks.Poster(0)) == Tasks.Ored(t)
      && Tasks.WithWorker(s'.tasks.(post := Put(s'.tasks.post, Tasks.Poster(0), Tasks.NoPost)), t, [], Tasks.Ran(t))
      && s'.tasks.events(t) == {READ_BIT} && Session(s', t, {}) && s'.asked(0)
  {
    r := RunUntilAsked(s, t);
    r := Extend(r, Poll(t, {READ_BIT}));
    r := Extend(r, Report(t));
    r := Extend(r, Post);
  }

  /** The session's only run so far asks for events, more data arrives before it detaches, and the
      session is deaf with the data unread. */
  lemma AskedRunGoesDeaf(s: State, t: Task) returns (r: Run)
    requires Init(s) && s.tasks.live(t) && !s.server(t)
    ensures IsRun(r) && r.states[0] == s
    ensures var s' := r.states[|r.steps|]; Deaf(s', t) && !s'.silent(t) && s'.tasks.events(t) == {READ_BIT}
  {
    r := RunUntilRaced(s, t);
    r := Extend(r, Protocol(Tasks.Test(Tasks.Poster(0))));
    r := Extend(r, Protocol(Tasks.Detach(0)));
  }
}
