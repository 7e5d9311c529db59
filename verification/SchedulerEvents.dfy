/** What becomes of posted event bits over a run of the task protocol: none is lost or invented,
    and exactly which posts are left stranded on an idle task. */
module SchedulerEvents {
  import opened Events
  import opened Options
  import opened Scheduler

  /** Step i ORs bit b into the events of t. */
  ghost predicate PostsBit(r: Run, i: nat, t: Task, b: int)
    requires |r.states| == |r.steps| + 1 && i < |r.steps|
  {
    match r.steps[i]
    case Or(_, u, bits) => u == t && b in bits
    case OrContinue(w) => r.states[i].work(w).Resumed? && r.states[i].work(w).t == t && b == CONTINUE_BIT
    case _ => false
  }

  /** Step j is the DequeEvents of t; it returns states[j].events(t). */
  ghost predicate Dequeues(r: Run, j: nat, t: Task)
    requires |r.states| == |r.steps| + 1 && j < |r.steps|
  {
    match r.steps[j]
    case Deque(w) => r.states[j].work(w) == Ready(t)
    case _ => false
  }

  ghost predicate NoDequeue(r: Run, i: int, n: nat, t: Task)
    requires |r.states| == |r.steps| + 1 && n <= |r.steps|
  {
    forall j :: 0 <= j < n && i < j ==> !Dequeues(r, j, t)
  }

  /** A bit posted at i and not dequeued before state n. */
  ghost predicate Pending(r: Run, i: nat, n: nat, t: Task, b: int)
    requires |r.states| == |r.steps| + 1 && n <= |r.steps|
  {
    i < n && PostsBit(r, i, t, b) && NoDequeue(r, i, n, t)
  }

  /** m_events holds exactly the bits posted since the last DequeEvents. */
  lemma {:induction false} EventsExact(r: Run, n: nat, t: Task, b: int)
    requires IsRun(r) && n <= |r.steps|
    ensures b in r.states[n].events(t) <==> exists i :: Pending(r, i, n, t, b)
  {
    if n > 0 {
      var m := n - 1;
      EventsExact(r, m, t, b);
      assert Enabled(r.states[m], r.steps[m]) && r.states[n] == Next(r.states[m], r.steps[m]);
      if PostsBit(r, m, t, b) {
        assert Pending(r, m, n, t, b);
      } else if !Dequeues(r, m, t) {
        if i :| Pending(r, i, m, t, b) { assert Pending(r, i, n, t, b); }
        if i :| Pending(r, i, n, t, b) { assert Pending(r, i, m, t, b); }
      }
    }
  }

  /** Every posted bit is still there or was returned by a later DequeEvents. */
  lemma {:induction false} EventConservation(r: Run, i: nat, n: nat, t: Task, b: int)
    requires IsRun(r) && i < n <= |r.steps| && PostsBit(r, i, t, b)
    ensures b in r.states[n].events(t)
         || exists j :: i < j < n && Dequeues(r, j, t) && b in r.states[j].events(t)
    decreases n
  {
    EventsExact(r, n, t, b);
    if b !in r.states[n].events(t) {
      assert !Pending(r, i, n, t, b);
      var j :| 0 <= j < n && i < j && Dequeues(r, j, t);
      EventConservation(r, i, j, t, b);
    }
  }

  // ---------- stranded posts ----------

  /** Step j is the attach test of agent a. */
  ghost predicate TestsAt(r: Run, j: nat, a: Agent)
    requires j < |r.steps|
  {
    r.steps[j] == Test(a) || (r.steps[j].LockedAttach? && r.steps[j].a == a)
  }

  ghost predicate NoTest(r: Run, i: int, n: nat, a: Agent)
    requires n <= |r.steps|
  {
    forall j :: 0 <= j < n && i < j ==> !TestsAt(r, j, a)
  }

  /** The agent whose EnqueEvents does its OR at step i. */
  ghost function PosterAt(r: Run, i: nat): Agent
    requires i < |r.steps|
  {
    match r.steps[i]
    case Or(p, _, _) => Poster(p)
    case OrContinue(w) => Worker(w)
    case _ => Poster(0)
  }

  /** Worker w dequeues t at step d, the OR comes at i, its attach test at j. */
  datatype Race = Race(w: WorkerId, d: nat, i: nat, j: nat)

  ghost predicate Raced(r: Run, n: nat, t: Task, b: int, x: Race)
    requires IsRun(r) && n <= |r.steps|
  {
    && x.d < x.i < x.j < n
    && r.steps[x.d] == Deque(x.w) && r.states[x.d].work(x.w) == Ready(t)
    && NoDequeue(r, x.d, n, t)
    && PostsBit(r, x.i, t, b)
    && TestsAt(r, x.j, PosterAt(r, x.i)) && NoTest(r, x.i, x.j, PosterAt(r, x.i))
  }

  /** ... and the same run of t ends in Detach at step e, after the test. */
  ghost predicate Stranded(r: Run, n: nat, t: Task, b: int, x: Race, e: nat)
    requires IsRun(r) && n <= |r.steps|
  {
    Raced(r, n, t, b, x) && x.j < e < n && r.steps[e] == Detach(x.w) && r.states[e].work(x.w) == Ran(t)
  }

  /** t is somewhere from which a worker will still dequeue it. */
  ghost predicate WillDequeue(s: State, t: Task, p: Place) {
    At(s, t, p) && (p.Running? ==> !s.work(p.w).Ran?)
  }

  /** What has become, by state n, of the bit b posted at i. */
  ghost predicate Fate(r: Run, n: nat, t: Task, b: int, i: nat)
    requires IsRun(r) && n <= |r.steps| && i < |r.steps|
  {
    var s := r.states[n];
    || !s.live(t)
    || (s.post(PosterAt(r, i)) == Ored(t) && NoTest(r, i, n, PosterAt(r, i)))
    || (exists p :: WillDequeue(s, t, p))
    || (exists x :: Raced(r, n, t, b, x) && s.work(x.w) == Ran(t))
    || (exists x, e :: Stranded(r, n, t, b, x, e))
  }

  lemma {:induction false} RanSince(r: Run, n: nat, w: WorkerId, t: Task) returns (d: nat)
    requires IsRun(r) && NoClash(r) && n <= |r.steps| && r.states[n].work(w) == Ran(t)
    ensures d < n && r.steps[d] == Deque(w) && r.states[d].work(w) == Ready(t) && NoDequeue(r, d, n, t)
  {
    var m := n - 1;
    assert n > 0;
    var s, step := r.states[m], r.steps[m];
    assert Enabled(s, step) && r.states[n] == Next(s, step);
    if step == Deque(w) {
      d := m;
    } else {
      assert s.work(w) == Ran(t);
      InvAt(r, m);
      assert At(s, t, Running(w));
      if Dequeues(r, m, t) {
        assert At(s, t, Running(step.w));
      }
      d := RanSince(r, m, w, t);
    }
  }

  /** The attach test of the post made at i: either it attaches, or the task is with a worker. */
  lemma FateOfTest(r: Run, n: nat, t: Task, b: int, i: nat)
    requires IsRun(r) && NoClash(r) && n < |r.steps| && Pending(r, i, n, t, b)
    requires r.states[n].post(PosterAt(r, i)) == Ored(t) && NoTest(r, i, n, PosterAt(r, i))
    requires TestsAt(r, n, PosterAt(r, i))
    ensures Fate(r, n + 1, t, b, i)
  {
    InvAt(r, n);
    var s, step, a := r.states[n], r.steps[n], PosterAt(r, i);
    var s' := r.states[n + 1];
    assert Enabled(s, step) && s' == Next(s, step);
    if s.thread(t) == None {
      assert WillDequeue(s', t, if step.Test? then Attaching(a) else Queued(step.w, |s.queue(step.w)|));
    } else {
      assert !Idle(s, t);
      var p :| At(s, t, p);
      OnwardIsThere(s, step, t, p);
      if p.Running? && s.work(p.w).Ran? {
        var d := RanSince(r, n, p.w, t);
        var x := Race(p.w, d, i, n);
        assert Dequeues(r, d, t);
        assert Raced(r, n + 1, t, b, x) && s'.work(x.w) == Ran(t);
      } else {
        assert WillDequeue(s', t, Onward(s, step, p));
      }
    }
  }

  lemma FateOfPlaced(r: Run, n: nat, t: Task, b: int, i: nat, p: Place)
    requires IsRun(r) && NoClash(r) && n < |r.steps| && i < n
    requires WillDequeue(r.states[n], t, p) && !Dequeues(r, n, t)
    ensures Fate(r, n + 1, t, b, i)
  {
    InvAt(r, n);
    assert Enabled(r.states[n], r.steps[n]) && r.states[n + 1] == Next(r.states[n], r.steps[n]);
    OnwardIsThere(r.states[n], r.steps[n], t, p);
    assert WillDequeue(r.states[n + 1], t, Onward(r.states[n], r.steps[n], p));
  }

  lemma FateOfRaced(r: Run, n: nat, t: Task, b: int, i: nat, x: Race)
    requires IsRun(r) && n < |r.steps| && i < n
    requires Raced(r, n, t, b, x) && r.states[n].work(x.w) == Ran(t) && !Dequeues(r, n, t)
    requires b in r.states[n].events(t)
    ensures Fate(r, n + 1, t, b, i)
  {
    var step, s' := r.steps[n], r.states[n + 1];
    assert Enabled(r.states[n], step) && s' == Next(r.states[n], step);
    assert Raced(r, n + 1, t, b, x);
    if step == Detach(x.w) {
      assert Stranded(r, n + 1, t, b, x, n);
    } else if step == CheckedDetach(x.w) {
      assert WillDequeue(s', t, Queued(x.w, |r.states[n].queue(x.w)|));
    } else if step == Park(x.w) {
      assert WillDequeue(s', t, Parked(x.w, |r.states[n].parked(x.w)|));
    } else if step != Delete(x.w) {
      assert s'.work(x.w) == Ran(t);
    }
  }

  lemma FateOfUntested(r: Run, n: nat, t: Task, b: int, i: nat)
    requires IsRun(r) && n < |r.steps| && i < n
    requires r.states[n].post(PosterAt(r, i)) == Ored(t) && NoTest(r, i, n, PosterAt(r, i))
    requires !TestsAt(r, n, PosterAt(r, i))
    ensures Fate(r, n + 1, t, b, i)
  {
    assert Enabled(r.states[n], r.steps[n]) && r.states[n + 1] == Next(r.states[n], r.steps[n]);
  }

  lemma FateOfDead(r: Run, n: nat, t: Task, b: int, i: nat)
    requires IsRun(r) && n < |r.steps| && i < n && !r.states[n].live(t)
    ensures Fate(r, n + 1, t, b, i)
  {
    assert Enabled(r.states[n], r.steps[n]) && r.states[n + 1] == Next(r.states[n], r.steps[n]);
  }

  lemma FateOfStranded(r: Run, n: nat, t: Task, b: int, i: nat, x: Race, e: nat)
    requires IsRun(r) && n < |r.steps| && i < n
    requires Stranded(r, n, t, b, x, e) && !Dequeues(r, n, t)
    ensures Fate(r, n + 1, t, b, i)
  {
    assert Stranded(r, n + 1, t, b, x, e);
  }

  lemma FateStep(r: Run, n: nat, t: Task, b: int, i: nat)
    requires IsRun(r) && NoClash(r) && n < |r.steps|
    requires Pending(r, i, n, t, b) && Fate(r, n, t, b, i) && !Dequeues(r, n, t)
    ensures Fate(r, n + 1, t, b, i)
  {
    var s, a := r.states[n], PosterAt(r, i);
    if !s.live(t) {
      FateOfDead(r, n, t, b, i);
    } else if s.post(a) == Ored(t) && NoTest(r, i, n, a) {
      if TestsAt(r, n, a) { FateOfTest(r, n, t, b, i); } else { FateOfUntested(r, n, t, b, i); }
    } else if p :| WillDequeue(s, t, p) {
      FateOfPlaced(r, n, t, b, i, p);
    } else if x :| Raced(r, n, t, b, x) && s.work(x.w) == Ran(t) {
      EventsExact(r, n, t, b);
      FateOfRaced(r, n, t, b, i, x);
    } else {
      var x, e :| Stranded(r, n, t, b, x, e);
      FateOfStranded(r, n, t, b, i, x, e);
    }
  }

  lemma FateOfFresh(r: Run, t: Task, b: int, i: nat)
    requires IsRun(r) && i < |r.steps| && PostsBit(r, i, t, b)
    ensures Fate(r, i + 1, t, b, i)
  {
    assert Enabled(r.states[i], r.steps[i]) && r.states[i + 1] == Next(r.states[i], r.steps[i]);
  }

  lemma PendingBefore(r: Run, i: nat, n: nat, t: Task, b: int)
    requires IsRun(r) && n < |r.steps| && i < n && Pending(r, i, n + 1, t, b)
    ensures Pending(r, i, n, t, b) && !Dequeues(r, n, t)
  {
  }

  lemma {:induction false} FateAt(r: Run, n: nat, t: Task, b: int, i: nat)
    requires IsRun(r) && NoClash(r) && n <= |r.steps| && Pending(r, i, n, t, b)
    ensures Fate(r, n, t, b, i)
    decreases n, 1
  {
    if i == n - 1 {
      FateOfFresh(r, t, b, i);
    } else {
      FateLater(r, n - 1, t, b, i);
    }
  }

  lemma FateLater(r: Run, m: nat, t: Task, b: int, i: nat)
    requires IsRun(r) && NoClash(r) && i < m < |r.steps| && Pending(r, i, m + 1, t, b)
    ensures Fate(r, m + 1, t, b, i)
    decreases m + 1, 0
  {
    PendingBefore(r, i, m, t, b);
    FateAt(r, m, t, b, i);
    FateStep(r, m, t, b, i);
  }

  /** On an idle live task that nobody is posting to, a bit is left in m_events exactly when some
      post did its OR after the last DequeEvents and its attach test before that run's Detach. */
  lemma StrandedIff(r: Run, n: nat, t: Task, b: int)
    requires IsRun(r) && NoClash(r) && n <= |r.steps|
    requires r.states[n].live(t) && Idle(r.states[n], t) && forall a :: r.states[n].post(a) != Ored(t)
    ensures b in r.states[n].events(t) <==> exists x, e :: Stranded(r, n, t, b, x, e)
  {
    EventsExact(r, n, t, b);
    if i :| Pending(r, i, n, t, b) {
      FateAt(r, n, t, b, i);
      if x :| Raced(r, n, t, b, x) && r.states[n].work(x.w) == Ran(t) {
        assert At(r.states[n], t, Running(x.w));
      }
    }
    if x, e :| Stranded(r, n, t, b, x, e) {
      assert Pending(r, x.i, n, t, b);
    }
  }

  /** No run of a task ends in the unchecked Detach. */
  ghost predicate AllChecked(r: Run) {
    forall k :: 0 <= k < |r.steps| ==> !r.steps[k].Detach?
  }

  /** With the repaired Detach no post is ever stranded. */
  lemma CheckedNeverStrands(r: Run, n: nat, t: Task)
    requires IsRun(r) && NoClash(r) && AllChecked(r) && n <= |r.steps|
    requires r.states[n].live(t) && Idle(r.states[n], t) && forall a :: r.states[n].post(a) != Ored(t)
    ensures r.states[n].events(t) == {}
  {
    forall b ensures b !in r.states[n].events(t) { StrandedIff(r, n, t, b); }
  }
}
