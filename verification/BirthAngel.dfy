/** The two queues that share one wake-up pipe, as interleaved steps of the enqueuing threads and
    of the event thread that drains them. */
module BirthAngel {
  import opened Basics

  type Task = int
  type Thread = int

  /** Birth entries are handed to AddWatch, Child entries to ModifyWatch. */
  datatype Kind = Birth | Child

  /** Where the event thread is in Run: GiveBirth and GiveChild each hold their mutex throughout;
      Reading has removed an entry and is about to read its byte from the pipe. */
  datatype Reader =
    | Asleep
    | Draining(kind: Kind)
    | Reading(kind: Kind, t: Task)
    | Handing(kind: Kind, t: Task)

  datatype State = State(
    queue: Kind -> seq<Task>,
    pipe: nat,
    edge: bool,                  // epoll still owes a wake-up for a byte written
    pending: map<Thread, Kind>,  // threads past their append and before their write
    reader: Reader,
    enqueued: Kind -> seq<Task>, // every entry ever appended, in order
    handed: Kind -> seq<Task>)   // every entry ever handed to the watch, in order

  datatype Step =
    | Enque(a: Thread, kind: Kind, t: Task)
    | Write(a: Thread)
    | Wake
    | Remove
    | Empty
    | Read
    | Hand

  ghost predicate Init(s: State) {
    && (forall k :: s.queue(k) == s.enqueued(k) == s.handed(k) == [])
    && s.pipe == 0 && !s.edge && s.pending == map[] && s.reader == Asleep
  }

  /** The mutex the event thread holds. */
  predicate Locked(s: State, k: Kind) {
    s.reader != Asleep && s.reader.kind == k
  }

  predicate Enabled(s: State, step: Step) {
    match step
    case Enque(a, k, _) => a !in s.pending && !Locked(s, k)
    case Write(a) => a in s.pending
    case Wake => s.reader == Asleep && s.edge
    case Remove => s.reader.Draining? && s.queue(s.reader.kind) != []
    case Empty => s.reader.Draining? && s.queue(s.reader.kind) == []
    case Read => s.reader.Reading? && s.pipe > 0
    case Hand => s.reader.Handing?
  }

  function Next(s: State, step: Step): State
    requires Enabled(s, step)
  {
    match step
    case Enque(a, k, t) =>
      s.(queue := Put(s.queue, k, s.queue(k) + [t]),
         enqueued := Put(s.enqueued, k, s.enqueued(k) + [t]),
         pending := s.pending[a := k])
    case Write(a) => s.(pipe := s.pipe + 1, edge := true, pending := s.pending - {a})
    case Wake => s.(edge := false, reader := Draining(Birth))
    case Remove =>
      var k := s.reader.kind;
      s.(queue := Put(s.queue, k, s.queue(k)[1..]), reader := Reading(k, s.queue(k)[0]))
    case Empty => s.(reader := if s.reader.kind == Birth then Draining(Child) else Asleep)
    case Read => s.(pipe := s.pipe - 1, reader := Handing(s.reader.kind, s.reader.t))
    case Hand =>
      var k := s.reader.kind;
      s.(handed := Put(s.handed, k, s.handed(k) + [s.reader.t]), reader := Draining(k))
  }

  /** The entry of kind k that the event thread has removed and not yet handed over. */
  function Held(s: State, k: Kind): seq<Task> {
    if (s.reader.Reading? || s.reader.Handing?) && s.reader.kind == k then [s.reader.t] else []
  }

  /** How many entries are queued. */
  function Waiting(s: State): nat {
    |s.queue(Birth)| + |s.queue(Child)|
  }

  /** Bytes in the pipe and bytes still to be written pay for the entries that are queued or
      removed with their byte unread. */
  ghost predicate Accounted(s: State) {
    s.pipe + |s.pending| == Waiting(s) + if s.reader.Reading? then 1 else 0
  }

  ghost predicate Fifo(s: State) {
    forall k :: s.enqueued(k) == s.handed(k) + Held(s, k) + s.queue(k)
  }

  /** The drain of queue k is still ahead in the current pass. */
  predicate WillDrain(s: State, k: Kind) {
    s.reader != Asleep && (s.reader.kind == Birth || k == Child)
  }

  /** Some thread has appended to queue k and not yet written. */
  ghost predicate WriteOwed(s: State, k: Kind) {
    exists a :: a in s.pending && s.pending[a] == k
  }

  /** A queue that this pass will not drain has a wake-up owed, or a thread about to cause one. */
  ghost predicate WakeOwed(s: State) {
    forall k :: s.queue(k) != [] && !WillDrain(s, k) ==> s.edge || WriteOwed(s, k)
  }

  ghost predicate Inv(s: State) {
    Accounted(s) && Fifo(s) && WakeOwed(s)
  }

  lemma WaitingAfter(s: State, step: Step)
    requires Enabled(s, step)
    ensures Waiting(Next(s, step)) == Waiting(s) + (if step.Enque? then 1 else 0) - (if step.Remove? then 1 else 0)
  {
    var queue' := Next(s, step).queue;
    if step.Enque? || step.Remove? {
      var k := if step.Enque? then step.kind else s.reader.kind;
      var other := if k == Birth then Child else Birth;
      assert queue'(other) == s.queue(other);
      assert |queue'(k)| == |s.queue(k)| + if step.Enque? then 1 else -1;
    }
  }

  lemma OnePending(m: map<Thread, Kind>, a: Thread, k: Kind)
    ensures a !in m ==> |m[a := k]| == |m| + 1
    ensures a in m ==> |m - {a}| == |m| - 1
  {
    assert a !in m ==> m[a := k].Keys == m.Keys + {a};
    assert (m - {a}).Keys == m.Keys - {a};
  }

  lemma KeepsAccounted(s: State, step: Step)
    requires Enabled(s, step) && Accounted(s)
    ensures Accounted(Next(s, step))
  {
    hide Waiting, Put;
    WaitingAfter(s, step);
    match step
    case Enque(a, k, _) => OnePending(s.pending, a, k);
    case Write(a) => OnePending(s.pending, a, Birth);
    case _ =>
  }

  lemma KeepsFifoOf(s: State, step: Step, k: Kind)
    requires Enabled(s, step) && s.enqueued(k) == s.handed(k) + Held(s, k) + s.queue(k)
    ensures var s' := Next(s, step); s'.enqueued(k) == s'.handed(k) + Held(s', k) + s'.queue(k)
  {
    match step
    case Remove =>
      if k == s.reader.kind { assert s.queue(k) == [s.queue(k)[0]] + s.queue(k)[1..]; }
    case _ =>
  }

  lemma KeepsFifo(s: State, step: Step)
    requires Enabled(s, step) && Fifo(s)
    ensures Fifo(Next(s, step))
  {
    forall k ensures Next(s, step).enqueued(k)
                     == Next(s, step).handed(k) + Held(Next(s, step), k) + Next(s, step).queue(k)
    {
      KeepsFifoOf(s, step, k);
    }
  }

  lemma KeepsWakeOwed(s: State, step: Step)
    requires Enabled(s, step) && WakeOwed(s)
    ensures WakeOwed(Next(s, step))
  {
    var s' := Next(s, step);
    forall k | s'.queue(k) != [] && !WillDrain(s', k) ensures s'.edge || WriteOwed(s', k) {
      match step
      case Enque(a, k', _) =>
        assert s'.pending[a] == k';
        if WriteOwed(s, k) {
          var b :| b in s.pending && s.pending[b] == k;
          assert s'.pending[b] == k;
        }
      case _ =>
    }
  }

  /** A run from the initial state. */
  ghost predicate IsRun(states: seq<State>, steps: seq<Step>) {
    && |states| == |steps| + 1
    && Init(states[0])
    && forall i :: 0 <= i < |steps| ==>
        Enabled(states[i], steps[i]) && states[i + 1] == Next(states[i], steps[i])
  }

  lemma {:induction false} RunKeepsInv(states: seq<State>, steps: seq<Step>, n: nat)
    requires IsRun(states, steps) && n < |states|
    ensures Inv(states[n])
  {
    if n > 0 {
      RunKeepsInv(states, steps, n - 1);
      KeepsAccounted(states[n - 1], steps[n - 1]);
      KeepsFifo(states[n - 1], steps[n - 1]);
      KeepsWakeOwed(states[n - 1], steps[n - 1]);
    }
  }

  lemma SomeKey<K, V>(m: map<K, V>) returns (a: K)
    requires m != map[]
    ensures a in m
  {
    assert m.Keys != {};
    a :| a in m.Keys;
  }

  /** In every reachable state the books balance, entries are handed over once each in the order
      they were enqueued, and a reader blocked on an empty pipe has a writer on its way. */
  lemma PipeAccounting(states: seq<State>, steps: seq<Step>, n: nat, k: Kind)
    requires IsRun(states, steps) && n < |states|
    ensures Accounted(states[n])
    ensures states[n].handed(k) <= states[n].enqueued(k)
    ensures states[n].enqueued(k)[|states[n].handed(k)|..] == Held(states[n], k) + states[n].queue(k)
    ensures states[n].reader.Reading? && states[n].pipe == 0 ==> exists a :: Enabled(states[n], Write(a))
  {
    RunKeepsInv(states, steps, n);
    var s := states[n];
    assert s.enqueued(k) == s.handed(k) + (Held(s, k) + s.queue(k));
    if s.reader.Reading? && s.pipe == 0 {
      var a := SomeKey(s.pending);
      assert Enabled(s, Write(a));
    }
  }

  /** Nothing is left to do: everything enqueued was handed over and the pipe is empty. */
  ghost predicate Settled(s: State) {
    s.pipe == 0 && s.pending == map[] && s.reader == Asleep && forall k :: s.handed(k) == s.enqueued(k)
  }

  /** No deadlock and no lost wake-up: unless everything has been handed over, some thread that is
      already past its append, or the event thread, can take a step. */
  lemma NeverStuck(states: seq<State>, steps: seq<Step>, n: nat)
    requires IsRun(states, steps) && n < |states|
    ensures Settled(states[n]) || exists step :: Enabled(states[n], step) && !step.Enque?
  {
    RunKeepsInv(states, steps, n);
    var s := states[n];
    if s.pending != map[] {
      var a := SomeKey(s.pending);
      assert Enabled(s, Write(a));
    } else {
      match s.reader
      case Asleep =>
        if s.edge {
          assert Enabled(s, Wake);
        } else {
          forall k ensures s.queue(k) == [] && s.handed(k) == s.enqueued(k) {
            assert !WillDrain(s, k);
          }
        }
      case Draining(k) => assert Enabled(s, Remove) || Enabled(s, Empty);
      case Reading(_, _) => assert Enabled(s, Read);
      case Handing(_, _) => assert Enabled(s, Hand);
    }
  }

  /** How many steps are left before everything is settled, at most. */
  function Rank(s: State): (r: nat) {
    10 * |s.pending| + 4 * Waiting(s) + (if s.edge then 5 else 0)
    + match s.reader
      case Asleep => 0
      case Draining(k) => if k == Birth then 4 else 2
      case Reading(k, _) => if k == Birth then 7 else 5
      case Handing(k, _) => if k == Birth then 6 else 4
  }

  /** Each step other than a new enqueue uses up some of the rank, so with no new work every
      run settles. */
  lemma StepsSettle(s: State, step: Step)
    requires Enabled(s, step) && !step.Enque?
    ensures Rank(Next(s, step)) < Rank(s)
  {
    hide Waiting, Put;
    WaitingAfter(s, step);
    match step
    case Write(a) => OnePending(s.pending, a, Birth);
    case _ =>
  }
}
