/** The task protocol as interleaved steps: EnqueEvents is an atomic OR followed by Attach's test,
    store and queue append, each a step of its own; a worker takes a task from its queue or its
    timer heap, runs it (one DequeEvents), then detaches, parks or deletes it. */
module Scheduler {
  import opened Basics
  import opened Events
  import opened Options

  type Task = int
  type WorkerId = int

  /** Who may call EnqueEvents: a posting thread, or a worker on the task it took from its heap. */
  datatype Agent = Poster(id: int) | Worker(index: WorkerId)

  /** How far a call of EnqueEvents has got. */
  datatype Post = NoPost | Ored(t: Task) | Tested(t: Task) | Stored(t: Task, w: WorkerId)

  /** How far a worker's loop has got; Ran means DequeEvents is done and Run has not returned. */
  datatype Work = Waiting | Resumed(t: Task) | Ready(t: Task) | Ran(t: Task)

  datatype State = State(
    live: Task -> bool,
    events: Task -> set<int>,
    thread: Task -> Option<WorkerId>,
    queue: WorkerId -> seq<Task>,
    parked: WorkerId -> seq<Task>,
    work: WorkerId -> Work,
    post: Agent -> Post)

  datatype Step =
    | Or(p: int, t: Task, bits: set<int>)
    | Test(a: Agent)
    | Store(a: Agent, w: WorkerId)
    | Append(a: Agent)
    | LockedAttach(a: Agent, w: WorkerId)   // the repaired Attach: test, store and append under one lock
    | Take(w: WorkerId)
    | Resume(w: WorkerId, k: nat)
    | OrContinue(w: WorkerId)
    | Deque(w: WorkerId)
    | Detach(w: WorkerId)
    | CheckedDetach(w: WorkerId)            // the repaired Detach: back into the queue if events were posted meanwhile
    | Park(w: WorkerId)
    | Delete(w: WorkerId)

  ghost predicate Init(s: State) {
    && (forall t :: s.events(t) == {} && s.thread(t) == None)
    && (forall w :: s.queue(w) == [] && s.parked(w) == [] && s.work(w) == Waiting)
    && (forall a :: s.post(a) == NoPost)
  }

  /** No step is taken on a deleted task. */
  ghost predicate Enabled(s: State, step: Step) {
    match step
    case Or(p, t, bits) => s.post(Poster(p)) == NoPost && s.live(t)
    case Test(a) => s.post(a).Ored? && s.live(s.post(a).t)
    case Store(a, w) => s.post(a).Tested? && s.live(s.post(a).t)
    case Append(a) => s.post(a).Stored? && s.live(s.post(a).t)
    case LockedAttach(a, w) => s.post(a).Ored? && s.live(s.post(a).t)
    case Take(w) => s.work(w) == Waiting && s.queue(w) != []
    case Resume(w, k) => s.work(w) == Waiting && k < |s.parked(w)|
    case OrContinue(w) => s.work(w).Resumed? && s.post(Worker(w)) == NoPost
    case Deque(w) => s.work(w).Ready? && s.post(Worker(w)) == NoPost
    case Detach(w) => s.work(w).Ran?
    case CheckedDetach(w) => s.work(w).Ran?
    case Park(w) => s.work(w).Ran?
    case Delete(w) => s.work(w).Ran?
  }

  ghost function Next(s: State, step: Step): State
    requires Enabled(s, step)
  {
    match step
    case Or(p, t, bits) =>
      s.(events := Put(s.events, t, s.events(t) + bits), post := Put(s.post, Poster(p), Ored(t)))
    case Test(a) =>
      var t := s.post(a).t;
      s.(post := Put(s.post, a, if s.thread(t) == None then Tested(t) else NoPost))
    case Store(a, w) =>
      var t := s.post(a).t;
      s.(thread := Put(s.thread, t, Some(w)), post := Put(s.post, a, Stored(t, w)))
    case Append(a) =>
      var Stored(t, w) := s.post(a);
      s.(queue := Put(s.queue, w, s.queue(w) + [t]), post := Put(s.post, a, NoPost))
    case LockedAttach(a, w) =>
      var t := s.post(a).t;
      if s.thread(t) == None then
        s.(thread := Put(s.thread, t, Some(w)), queue := Put(s.queue, w, s.queue(w) + [t]),
           post := Put(s.post, a, NoPost))
      else s.(post := Put(s.post, a, NoPost))
    case Take(w) =>
      s.(queue := Put(s.queue, w, s.queue(w)[1..]), work := Put(s.work, w, Ready(s.queue(w)[0])))
    case Resume(w, k) =>
      s.(parked := Put(s.parked, w, s.parked(w)[..k] + s.parked(w)[k + 1..]),
         work := Put(s.work, w, Resumed(s.parked(w)[k])))
    case OrContinue(w) =>
      var t := s.work(w).t;
      s.(events := Put(s.events, t, s.events(t) + {CONTINUE_BIT}),
         post := Put(s.post, Worker(w), Ored(t)), work := Put(s.work, w, Ready(t)))
    case Deque(w) =>
      var t := s.work(w).t;
      s.(events := Put(s.events, t, {}), work := Put(s.work, w, Ran(t)))
    case Detach(w) =>
      s.(thread := Put(s.thread, s.work(w).t, None), work := Put(s.work, w, Waiting))
    case CheckedDetach(w) =>
      var t := s.work(w).t;
      if s.events(t) == {} then s.(thread := Put(s.thread, t, None), work := Put(s.work, w, Waiting))
      else s.(queue := Put(s.queue, w, s.queue(w) + [t]), work := Put(s.work, w, Waiting))
    case Park(w) =>
      s.(parked := Put(s.parked, w, s.parked(w) + [s.work(w).t]), work := Put(s.work, w, Waiting))
    case Delete(w) =>
      s.(live := Put(s.live, s.work(w).t, false), work := Put(s.work, w, Waiting))
  }

  // ---------- where a task is ----------

  datatype Place = Attaching(a: Agent) | Queued(w: WorkerId, k: nat) | Parked(w: WorkerId, k: nat) | Running(w: WorkerId)

  ghost predicate At(s: State, t: Task, p: Place) {
    match p
    case Attaching(a) => (s.post(a).Tested? || s.post(a).Stored?) && s.post(a).t == t
    case Queued(w, k) => k < |s.queue(w)| && s.queue(w)[k] == t
    case Parked(w, k) => k < |s.parked(w)| && s.parked(w)[k] == t
    case Running(w) => s.work(w) != Waiting && s.work(w).t == t
  }

  ghost predicate Idle(s: State, t: Task) {
    forall p :: !At(s, t, p)
  }

  /** What m_task_thread says of a task that is at p: NULL only until Attach has stored it. */
  ghost function ThreadFor(s: State, p: Place): Option<WorkerId> {
    match p
    case Attaching(a) => if s.post(a).Stored? then Some(s.post(a).w) else None
    case Queued(w, _) => Some(w)
    case Parked(w, _) => Some(w)
    case Running(w) => Some(w)
  }

  /** Every task is in at most one place, its m_task_thread names the worker it is with, and
      m_task_thread of a live task is NULL exactly while it is idle or tested but not yet stored. */
  ghost predicate SinglePlacement(s: State) {
    && (forall t, p, q :: At(s, t, p) && At(s, t, q) ==> p == q)
    && (forall t, p :: At(s, t, p) ==> s.live(t) && s.thread(t) == ThreadFor(s, p))
    && (forall t :: s.live(t) && Idle(s, t) ==> s.thread(t) == None)
  }

  /** A worker posts only to the task it is about to run. */
  ghost predicate OwnPosts(s: State) {
    forall w :: s.post(Worker(w)) != NoPost ==>
      s.post(Worker(w)).Ored? && s.work(w) == Ready(s.post(Worker(w)).t)
  }

  ghost predicate Inv(s: State) {
    SinglePlacement(s) && OwnPosts(s)
  }

  /** An Attach whose test passes while another Attach of the same task is past its own test. */
  ghost predicate Clash(s: State, step: Step) {
    && (step.Test? || step.LockedAttach?)
    && s.post(step.a).Ored?
    && s.thread(s.post(step.a).t) == None
    && exists b :: At(s, s.post(step.a).t, Attaching(b))
  }

  // ---------- one step keeps the invariant ----------

  /** Where the task that is at p after the step was before it. */
  ghost function From(s: State, step: Step, p: Place): Place
    requires Enabled(s, step)
  {
    match step
    case Append(a) => if p == Queued(s.post(a).w, |s.queue(s.post(a).w)|) then Attaching(a) else p
    case Take(w) =>
      if p == Running(w) then Queued(w, 0)
      else if p.Queued? && p.w == w then Queued(w, p.k + 1) else p
    case Resume(w, k) =>
      if p == Running(w) then Parked(w, k)
      else if p.Parked? && p.w == w && p.k >= k then Parked(w, p.k + 1) else p
    case CheckedDetach(w) => if p == Queued(w, |s.queue(w)|) then Running(w) else p
    case Park(w) => if p == Parked(w, |s.parked(w)|) then Running(w) else p
    case _ => p
  }

  /** The place a passing attach test creates. */
  ghost predicate Created(s: State, step: Step, t: Task, p: Place)
    requires Enabled(s, step)
  {
    match step
    case Test(a) => s.thread(s.post(a).t) == None && t == s.post(a).t && p == Attaching(a)
    case LockedAttach(a, w) =>
      s.thread(s.post(a).t) == None && t == s.post(a).t && p == Queued(w, |s.queue(w)|)
    case _ => false
  }

  lemma FromWasThere(s: State, step: Step, t: Task, p: Place)
    requires Enabled(s, step) && At(Next(s, step), t, p)
    ensures Created(s, step, t, p) || At(s, t, From(s, step, p))
  {
  }

  lemma FromInjective(s: State, step: Step, t: Task, p: Place, q: Place)
    requires Enabled(s, step) && At(Next(s, step), t, p) && At(Next(s, step), t, q)
    requires From(s, step, p) == From(s, step, q)
    ensures p == q
  {
  }

  lemma KeepsUnique(s: State, step: Step, t: Task, p: Place, q: Place)
    requires Enabled(s, step) && Inv(s) && !Clash(s, step)
    requires At(Next(s, step), t, p) && At(Next(s, step), t, q)
    ensures p == q
  {
    FromWasThere(s, step, t, p);
    FromWasThere(s, step, t, q);
    if !Created(s, step, t, p) && !Created(s, step, t, q) {
      FromInjective(s, step, t, p, q);
    }
  }

  lemma KeepsThread(s: State, step: Step, t: Task, p: Place)
    requires Enabled(s, step) && Inv(s) && !Clash(s, step)
    requires At(Next(s, step), t, p)
    ensures Next(s, step).live(t) && Next(s, step).thread(t) == ThreadFor(Next(s, step), p)
  {
    FromWasThere(s, step, t, p);
    match step
    case Detach(w) => assert At(s, s.work(w).t, Running(w));
    case CheckedDetach(w) => assert At(s, s.work(w).t, Running(w));
    case Delete(w) => assert At(s, s.work(w).t, Running(w));
    case Store(a, w) => assert At(s, s.post(a).t, Attaching(a));
    case _ =>
  }

  /** The step ends the task's stay with the worker that runs it. */
  ghost predicate LetsGo(s: State, step: Step, p: Place)
    requires Enabled(s, step)
  {
    match step
    case Detach(w) => p == Running(w)
    case CheckedDetach(w) => p == Running(w) && s.events(s.work(w).t) == {}
    case Delete(w) => p == Running(w)
    case _ => false
  }

  /** Where a task that is not let go of by this step is afterwards. */
  ghost function Onward(s: State, step: Step, p: Place): Place
    requires Enabled(s, step)
  {
    match step
    case Append(a) => if p == Attaching(a) then Queued(s.post(a).w, |s.queue(s.post(a).w)|) else p
    case Take(w) =>
      if p == Queued(w, 0) then Running(w)
      else if p.Queued? && p.w == w then Queued(w, p.k - 1) else p
    case Resume(w, k) =>
      if p == Parked(w, k) then Running(w)
      else if p.Parked? && p.w == w && p.k > k then Parked(w, p.k - 1) else p
    case CheckedDetach(w) => if p == Running(w) then Queued(w, |s.queue(w)|) else p
    case Park(w) => if p == Running(w) then Parked(w, |s.parked(w)|) else p
    case _ => p
  }

  lemma OnwardIsThere(s: State, step: Step, t: Task, p: Place)
    requires Enabled(s, step) && OwnPosts(s) && At(s, t, p)
    requires !LetsGo(s, step, p)
    ensures At(Next(s, step), t, Onward(s, step, p))
  {
  }

  lemma KeepsIdleNull(s: State, step: Step, t: Task)
    requires Enabled(s, step) && Inv(s) && !Clash(s, step)
    requires Next(s, step).live(t) && Idle(Next(s, step), t)
    ensures Next(s, step).thread(t) == None
  {
    if !Idle(s, t) {
      var p :| At(s, t, p);
      if !LetsGo(s, step, p) {
        OnwardIsThere(s, step, t, p);
      }
    } else {
      match step
      case Store(a, w) => assert At(s, s.post(a).t, Attaching(a));
      case LockedAttach(a, w) =>
        assert s.thread(s.post(a).t) == None ==> At(Next(s, step), s.post(a).t, Queued(w, |s.queue(w)|));
      case _ =>
    }
  }

  lemma KeepsOwnPosts(s: State, step: Step)
    requires Enabled(s, step) && Inv(s)
    ensures OwnPosts(Next(s, step))
  {
    forall w | Next(s, step).post(Worker(w)) != NoPost
      ensures Next(s, step).post(Worker(w)).Ored?
      ensures Next(s, step).work(w) == Ready(Next(s, step).post(Worker(w)).t)
    {
      assert s.post(Worker(w)).Ored? ==> At(s, s.post(Worker(w)).t, Running(w));
    }
  }

  lemma KeepsInv(s: State, step: Step)
    requires Enabled(s, step) && Inv(s) && !Clash(s, step)
    ensures Inv(Next(s, step))
  {
    var s' := Next(s, step);
    forall t, p, q | At(s', t, p) && At(s', t, q) ensures p == q { KeepsUnique(s, step, t, p, q); }
    forall t, p | At(s', t, p) ensures s'.live(t) && s'.thread(t) == ThreadFor(s', p) { KeepsThread(s, step, t, p); }
    forall t | s'.live(t) && Idle(s', t) ensures s'.thread(t) == None { KeepsIdleNull(s, step, t); }
    KeepsOwnPosts(s, step);
  }

  /** A clash puts its task in two places. */
  lemma ClashBreaks(s: State, step: Step)
    requires Enabled(s, step) && Clash(s, step)
    ensures !SinglePlacement(Next(s, step))
  {
    var s' := Next(s, step);
    var t := s.post(step.a).t;
    var b :| At(s, t, Attaching(b));
    assert b != step.a;
    assert At(s', t, Attaching(b));
    match step
    case Test(a) => assert At(s', t, Attaching(a));
    case LockedAttach(a, w) => assert At(s', t, Queued(w, |s.queue(w)|));
  }

  // ---------- runs ----------

  /** A run: states[k] is the state before steps[k]. */
  datatype Run = Run(states: seq<State>, steps: seq<Step>)

  ghost predicate IsRun(r: Run) {
    && |r.states| == |r.steps| + 1
    && Init(r.states[0])
    && forall k :: 0 <= k < |r.steps| ==>
        Enabled(r.states[k], r.steps[k]) && r.states[k + 1] == Next(r.states[k], r.steps[k])
  }

  ghost predicate NoClash(r: Run)
    requires IsRun(r)
  {
    forall k :: 0 <= k < |r.steps| ==> !Clash(r.states[k], r.steps[k])
  }

  lemma InitInv(s: State)
    requires Init(s)
    ensures Inv(s)
  {
    forall t, p ensures !At(s, t, p) {}
  }

  lemma {:induction false} InvAt(r: Run, n: nat)
    requires IsRun(r) && n <= |r.steps|
    requires forall k :: 0 <= k < n ==> !Clash(r.states[k], r.steps[k])
    ensures Inv(r.states[n])
  {
    if n == 0 {
      InitInv(r.states[0]);
    } else {
      InvAt(r, n - 1);
      KeepsInv(r.states[n - 1], r.steps[n - 1]);
    }
  }

  /** Every task is in one place throughout a run exactly when no passing attach test meets
      another attach in progress. */
  lemma SinglePlacementIff(r: Run)
    requires IsRun(r)
    ensures (forall n :: 0 <= n < |r.states| ==> SinglePlacement(r.states[n])) <==> NoClash(r)
  {
    if NoClash(r) {
      forall n | 0 <= n < |r.states| ensures SinglePlacement(r.states[n]) { InvAt(r, n); }
    } else {
      var k :| 0 <= k < |r.steps| && Clash(r.states[k], r.steps[k]);
      ClashBreaks(r.states[k], r.steps[k]);
      assert !SinglePlacement(r.states[k + 1]);
    }
  }

  /** Only poster p posts, besides the workers' own CONTINUE. */
  ghost predicate OnePoster(r: Run, p: int) {
    forall k :: 0 <= k < |r.steps| && r.steps[k].Or? ==> r.steps[k].p == p
  }

  lemma {:induction false} OtherPostersSilent(r: Run, p: int, n: nat)
    requires IsRun(r) && OnePoster(r, p) && n <= |r.steps|
    ensures forall q :: q != p ==> r.states[n].post(Poster(q)) == NoPost
  {
    if n > 0 { OtherPostersSilent(r, p, n - 1); }
  }

  lemma OnePosterStep(s: State, step: Step, p: int)
    requires Inv(s) && (forall q :: q != p ==> s.post(Poster(q)) == NoPost)
    ensures !Clash(s, step)
  {
    if (step.Test? || step.LockedAttach?) && s.post(step.a).Ored? {
      match step.a
      case Worker(w) => assert At(s, s.post(step.a).t, Running(w));
      case Poster(q) =>
        forall b ensures !At(s, s.post(step.a).t, Attaching(b)) {
          match b
          case Worker(w) =>
          case Poster(q') =>
        }
    }
  }

  /** With one posting thread the unlocked Attach never clashes. */
  lemma {:induction false} OnePosterNoClash(r: Run, p: int, n: nat)
    requires IsRun(r) && OnePoster(r, p) && n <= |r.steps|
    ensures forall k :: 0 <= k < n ==> !Clash(r.states[k], r.steps[k])
  {
    if n > 0 {
      OnePosterNoClash(r, p, n - 1);
      InvAt(r, n - 1);
      OtherPostersSilent(r, p, n - 1);
      OnePosterStep(r.states[n - 1], r.steps[n - 1], p);
    }
  }

  /** With Attach made atomic, any number of posters never clash. */
  ghost predicate AllLocked(r: Run) {
    forall k :: 0 <= k < |r.steps| ==> !r.steps[k].Test?
  }

  lemma {:induction false} LockedNeverTested(r: Run, n: nat)
    requires IsRun(r) && AllLocked(r) && n <= |r.steps|
    ensures forall a :: r.states[n].post(a).NoPost? || r.states[n].post(a).Ored?
  {
    if n > 0 {
      LockedNeverTested(r, n - 1);
      assert Enabled(r.states[n - 1], r.steps[n - 1]) && !r.steps[n - 1].Test?;
    }
  }

  lemma LockedNoClash(r: Run)
    requires IsRun(r) && AllLocked(r)
    ensures NoClash(r)
  {
    forall k | 0 <= k < |r.steps| ensures !Clash(r.states[k], r.steps[k]) {
      LockedNeverTested(r, k);
    }
  }

  /** One posting thread, or an atomic Attach: in every state of every run each live task is in
      exactly one place, m_task_thread is NULL exactly while no worker has it, and no two workers
      hold the same task. */
  lemma PlacementTheorem(r: Run, p: int, n: nat, t: Task)
    requires IsRun(r) && (OnePoster(r, p) || AllLocked(r))
    requires n < |r.states| && r.states[n].live(t)
    ensures var s := r.states[n];
      && (Idle(s, t) || exists q :: At(s, t, q) && forall q' :: At(s, t, q') ==> q' == q)
      && (s.thread(t) == None <==> Idle(s, t) || exists a :: s.post(a) == Tested(t))
      && (forall w, v :: At(s, t, Running(w)) && At(s, t, Running(v)) ==> w == v)
  {
    if AllLocked(r) { LockedNoClash(r); } else { OnePosterNoClash(r, p, |r.steps|); }
    InvAt(r, n);
    var s := r.states[n];
    if !Idle(s, t) {
      var q :| At(s, t, q);
      assert s.thread(t) == ThreadFor(s, q);
      if s.thread(t) == None { assert s.post(q.a) == Tested(t); }
    }
    if a :| s.post(a) == Tested(t) { assert At(s, t, Attaching(a)); }
    forall w, v | At(s, t, Running(w)) && At(s, t, Running(v)) ensures w == v {
      assert Running(w) == Running(v);
    }
  }

  /** A worker about to park its task finds it in no timer heap and no queue, so inserting its timer
      element without a check never changes an element that a heap holds. */
  lemma ParkIsSafe(r: Run, p: int, n: nat, w: WorkerId)
    requires IsRun(r) && (OnePoster(r, p) || AllLocked(r))
    requires n < |r.steps| && r.steps[n] == Park(w)
    ensures var s := r.states[n];
      forall q :: At(s, s.work(w).t, q) ==> q == Running(w)
  {
    if AllLocked(r) { LockedNoClash(r); } else { OnePosterNoClash(r, p, |r.steps|); }
    InvAt(r, n);
    assert At(r.states[n], r.states[n].work(w).t, Running(w));
  }

  // ---------- runs that show what the conditions exclude ----------

  lemma Extend(r: Run, step: Step) returns (r': Run)
    requires IsRun(r) && Enabled(r.states[|r.steps|], step)
    ensures IsRun(r') && r'.steps == r.steps + [step]
    ensures r'.states == r.states + [Next(r.states[|r.steps|], step)]
  {
    r' := Run(r.states + [Next(r.states[|r.steps|], step)], r.steps + [step]);
  }

  lemma BothTested(s: State, t: Task) returns (r: Run)
    requires Init(s) && s.live(t)
    ensures IsRun(r) && r.states[0] == s
    ensures var s' := r.states[|r.steps|];
      && s'.live(t) && s'.post(Poster(0)) == s'.post(Poster(1)) == Tested(t)
      && forall w :: s'.queue(w) == [] && s'.work(w) == Waiting
  {
    r := Run([s], []);
    r := Extend(r, Or(0, t, {READ_BIT}));
    r := Extend(r, Or(1, t, {WRITE_BIT}));
    r := Extend(r, Test(Poster(0)));
    r := Extend(r, Test(Poster(1)));
  }

  /** Two posting threads and the unlocked Attach: two workers end up running the same task. */
  lemma TwoPostersDoubleRun(s: State, t: Task) returns (r: Run)
    requires Init(s) && s.live(t)
    ensures IsRun(r) && r.states[0] == s
    ensures At(r.states[|r.steps|], t, Running(0)) && At(r.states[|r.steps|], t, Running(1))
  {
    r := BothTested(s, t);
    r := Extend(r, Store(Poster(0), 0));
    r := Extend(r, Append(Poster(0)));
    r := Extend(r, Store(Poster(1), 1));
    r := Extend(r, Append(Poster(1)));
    r := Extend(r, Take(0));
    r := Extend(r, Take(1));
  }

  /** The state in which t is with worker 0 as work says, nobody is posting and all else is idle. */
  ghost predicate WithWorker(s: State, t: Task, queued: seq<Task>, work: Work) {
    && s.live(t) && s.thread(t) == Some(0)
    && (forall w :: s.queue(w) == (if w == 0 then queued else []) && s.parked(w) == [])
    && (forall w :: s.work(w) == if w == 0 then work else Waiting)
    && (forall a :: s.post(a) == NoPost)
  }

  lemma RunUntilQueued(s: State, t: Task) returns (r: Run)
    requires Init(s) && s.live(t)
    ensures IsRun(r) && r.states[0] == s && OnePoster(r, 0)
    ensures WithWorker(r.states[|r.steps|], t, [t], Waiting)
  {
    r := Run([s], []);
    r := Extend(r, Or(0, t, {READ_BIT}));
    r := Extend(r, Test(Poster(0)));
    r := Extend(r, Store(Poster(0), 0));
    r := Extend(r, Append(Poster(0)));
  }

  lemma RunUntilDequeued(s: State, t: Task) returns (r: Run)
    requires Init(s) && s.live(t)
    ensures IsRun(r) && r.states[0] == s && OnePoster(r, 0)
    ensures WithWorker(r.states[|r.steps|], t, [], Ran(t)) && r.states[|r.steps|].events(t) == {}
  {
    r := RunUntilQueued(s, t);
    r := Extend(r, Take(0));
    r := Extend(r, Deque(0));
  }

  /** t is idle with these bits and nobody is posting to anything. */
  ghost predicate LeftWith(s: State, t: Task, bits: set<int>) {
    s.live(t) && Idle(s, t) && (forall a :: s.post(a) == NoPost) && s.events(t) == bits
  }

  /** One posting thread: a post between DequeEvents and Detach leaves its bit on an idle task. */
  lemma PostCanStrand(s: State, t: Task) returns (r: Run)
    requires Init(s) && s.live(t)
    ensures IsRun(r) && r.states[0] == s && OnePoster(r, 0)
    ensures LeftWith(r.states[|r.steps|], t, {WRITE_BIT})
  {
    r := RunUntilDequeued(s, t);
    r := Extend(r, Or(0, t, {WRITE_BIT}));
    r := Extend(r, Test(Poster(0)));
    r := Extend(r, Detach(0));
  }
}
