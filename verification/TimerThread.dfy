/** The idle timers: elements with a due time in one heap, popped when their time has come. */
module Timers {
  import opened Heap
  import opened HeapOrder
  import opened Options

  // ---------- what one pass pops ----------

  /** The slots a pass at time now pops, in order, and the heap it leaves. */
  function Due<E>(s: seq<Slot<E>>, now: int): (out: seq<Slot<E>>)
    decreases |s|
  {
    if s == [] || s[0].value > now then [] else [s[0]] + Due(Extract(s, 1), now)
  }

  function Left<E>(s: seq<Slot<E>>, now: int): (rest: seq<Slot<E>>)
    decreases |s|
  {
    if s == [] || s[0].value > now then s else Left(Extract(s, 1), now)
  }

  lemma {:induction false} PassKeepsAll<E>(s: seq<Slot<E>>, now: int)
    ensures multiset(Due(s, now)) + multiset(Left(s, now)) == multiset(s)
    decreases |s|
  {
    if s != [] && s[0].value <= now {
      hide Extract;
      var r := Extract(s, 1);
      ExtractMultiset(s, 1);
      PassKeepsAll(r, now);
      assert s[0] in multiset(s);
      assert multiset(s) == multiset{s[0]} + multiset(r);
      assert Due(s, now) == [s[0]] + Due(r, now) && Left(s, now) == Left(r, now);
    }
  }

  lemma {:induction false} PassLeavesLater<E>(s: seq<Slot<E>>, now: int)
    requires Ordered(s)
    ensures Ordered(Left(s, now)) && forall x :: x in Left(s, now) ==> x.value > now
    decreases |s|
  {
    hide Extract, Ordered;
    OrderedRootLeast(s);
    if s != [] && s[0].value <= now {
      ExtractOrderedIff(s, 1);
      PassLeavesLater(Extract(s, 1), now);
    }
  }

  lemma {:induction false} PassPopsSorted<E>(s: seq<Slot<E>>, now: int)
    requires Ordered(s)
    ensures Sorted(Due(s, now)) && forall x :: x in Due(s, now) ==> x.value <= now
    decreases |s|
  {
    hide Extract, Ordered;
    if s != [] && s[0].value <= now {
      var r := Extract(s, 1);
      ExtractOrderedIff(s, 1);
      PassPopsSorted(r, now);
      PassKeepsAll(r, now);
      ExtractMultiset(s, 1);
      OrderedRootLeast(s);
      assert multiset(r) <= multiset(s);
      SortedCons(s[0], Due(r, now), multiset(s));
    }
  }

  /** On an ordered heap a pass pops exactly the slots that are due, earliest first, and leaves an
      ordered heap of the others. */
  lemma PassExact<E>(s: seq<Slot<E>>, now: int)
    requires Ordered(s)
    ensures multiset(Due(s, now)) + multiset(Left(s, now)) == multiset(s)
    ensures Ordered(Left(s, now)) && Sorted(Due(s, now))
    ensures forall x :: x in Due(s, now) ==> x.value <= now
    ensures forall x :: x in Left(s, now) ==> x.value > now
  {
    PassKeepsAll(s, now);
    PassLeavesLater(s, now);
    PassPopsSorted(s, now);
  }

  // ---------- each element at most once ----------

  /** No element is in two slots, and all are known. */
  ghost predicate Once<E>(s: seq<Slot<E>>, known: set<E>) {
    && (forall x :: x in multiset(s) ==> multiset(s)[x] == 1 && x.elem in known)
    && (forall x, y :: x in multiset(s) && y in multiset(s) && x.elem == y.elem ==> x == y)
  }

  lemma HasMultiset<E>(s: seq<Slot<E>>, e: E)
    ensures Has(s, e) <==> exists x :: x in multiset(s) && x.elem == e
  {
    if i :| 0 <= i < |s| && s[i].elem == e { assert s[i] in multiset(s); }
  }

  lemma OnceInsert<E>(s: seq<Slot<E>>, x: Slot<E>, known: set<E>)
    requires Once(s, known) && !Has(s, x.elem)
    ensures Once(Insert(s, x), known + {x.elem})
  {
    hide Insert, Has;
    InsertCorrect(s, x);
    HasMultiset(s, x.elem);
  }

  lemma HasInsert<E>(s: seq<Slot<E>>, x: Slot<E>, e: E)
    ensures Has(Insert(s, x), e) <==> e == x.elem || Has(s, e)
  {
    hide Insert, Has;
    InsertCorrect(s, x);
    HasMultiset(s, e);
    HasMultiset(Insert(s, x), e);
    assert x in multiset(Insert(s, x));
  }

  lemma OnceExtract<E>(s: seq<Slot<E>>, i: nat, known: set<E>)
    requires 1 <= i <= |s| && Once(s, known)
    ensures Once(Extract(s, i), known)
  {
    hide Extract;
    ExtractMultiset(s, i);
  }

  lemma HasExtract<E>(s: seq<Slot<E>>, i: nat, known: set<E>, e: E)
    requires 1 <= i <= |s| && Once(s, known)
    ensures Has(Extract(s, i), e) <==> e != s[i - 1].elem && Has(s, e)
  {
    hide Extract, Has;
    ExtractMultiset(s, i);
    HasMultiset(s, e);
    HasMultiset(Extract(s, i), e);
    assert s[i - 1] in multiset(s);
  }

  // ---------- runs ----------

  /** SetTimeout, a pass of Entry, and CancelTimeout. */
  datatype Op<E> = Set(slot: Slot<E>) | Fire(now: int) | Cancel(elem: E)

  /** The idle heap after one of them. */
  ghost function Step<E>(s: seq<Slot<E>>, op: Op<E>): seq<Slot<E>> {
    match op
    case Set(x) => if Has(s, x.elem) then s else Insert(s, x)
    case Fire(now) => Left(s, now)
    case Cancel(e) => if FirstSlot(s, e) <= |s| then Extract(s, FirstSlot(s, e)) else s
  }

  /** ... and after a run from the start. */
  ghost function Slots<E>(ops: seq<Op<E>>): seq<Slot<E>> {
    if ops == [] then [] else Step(Slots(ops[..|ops| - 1]), ops[|ops| - 1])
  }

  /** A cancel takes nothing out, or something whose place the last leaf can take. */
  ghost predicate CancelFits<E>(s: seq<Slot<E>>, op: Op<E>) {
    op.Cancel? && FirstSlot(s, op.elem) <= |s| ==> LeafFits(s, FirstSlot(s, op.elem))
  }

  lemma StepOrderedIff<E>(s: seq<Slot<E>>, op: Op<E>)
    requires Ordered(s)
    ensures Ordered(Step(s, op)) <==> CancelFits(s, op)
  {
    match op
    case Set(x) => InsertCorrect(s, x);
    case Fire(now) => PassLeavesLater(s, now);
    case Cancel(e) => if FirstSlot(s, e) <= |s| { ExtractOrderedIff(s, FirstSlot(s, e)); }
  }

  ghost predicate AlwaysOrdered<E>(ops: seq<Op<E>>) {
    forall k :: 0 <= k <= |ops| ==> Ordered(Slots(ops[..k]))
  }

  ghost predicate CancelsFit<E>(ops: seq<Op<E>>) {
    forall k :: 0 <= k < |ops| ==> CancelFits(Slots(ops[..k]), ops[k])
  }

  lemma AlwaysOrderedLast<E>(ops: seq<Op<E>>, op: Op<E>)
    ensures AlwaysOrdered(ops + [op]) <==> AlwaysOrdered(ops) && Ordered(Slots(ops + [op]))
  {
    hide Slots, Ordered;
    var more := ops + [op];
    assert more[..|more|] == more;
    assert forall k :: 0 <= k <= |ops| ==> more[..k] == ops[..k];
  }

  lemma CancelsFitLast<E>(ops: seq<Op<E>>, op: Op<E>)
    ensures CancelsFit(ops + [op]) <==> CancelsFit(ops) && CancelFits(Slots(ops), op)
  {
    hide Slots, CancelFits;
    var more := ops + [op];
    assert more[..|ops|] == ops;
    assert forall k :: 0 <= k <= |ops| ==> more[..k] == ops[..k];
  }

  /** Over every run the heap stays ordered, and so every pass is exact, exactly when every cancel
      fits. */
  lemma {:induction false} RunOrderedIff<E>(ops: seq<Op<E>>)
    ensures AlwaysOrdered(ops) <==> CancelsFit(ops)
    decreases |ops|
  {
    hide Step, CancelFits, Ordered, AlwaysOrdered, CancelsFit;
    if ops == [] {
      StartOrdered<E>();
    } else {
      var init, op := ops[..|ops| - 1], ops[|ops| - 1];
      assert ops == init + [op];
      RunOrderedIff(init);
      AlwaysOrderedLast(init, op);
      CancelsFitLast(init, op);
      if AlwaysOrdered(init) {
        AlwaysEnds(init);
        StepOrderedIff(Slots(init), op);
      }
    }
  }

  lemma AlwaysEnds<E>(ops: seq<Op<E>>)
    requires AlwaysOrdered(ops)
    ensures Ordered(Slots(ops))
  {
    hide Slots, Ordered;
    assert ops[..|ops|] == ops;
  }

  lemma StartOrdered<E>()
    ensures AlwaysOrdered<E>([]) && CancelsFit<E>([])
  {
  }

  /** In a run whose cancels fit, any further pass fires exactly what is due, earliest first. */
  lemma RunPassExact<E>(ops: seq<Op<E>>, now: int)
    requires CancelsFit(ops)
    ensures var s := Slots(ops);
      && multiset(Due(s, now)) + multiset(Step(s, Fire(now))) == multiset(s) && Sorted(Due(s, now))
      && (forall x :: x in Due(s, now) ==> x.value <= now) && (forall x :: x in Step(s, Fire(now)) ==> x.value > now)
  {
    hide CancelsFit, AlwaysOrdered, Ordered, Slots;
    RunOrderedIff(ops);
    AlwaysEnds(ops);
    PassExact(Slots(ops), now);
  }

  // ---------- the timer thread ----------

  /** A wait of d milliseconds as the condition variable gets it: through u_int32_t and int32_t,
      where 0 means for ever. */
  function WaitArgument(d: int): int {
    var u := d % 0x1_0000_0000;
    if u < 0x8000_0000 then u else u - 0x1_0000_0000
  }

  /** The wait fits into 32 bits with a sign, differs by a multiple of 2^32, and is for ever exactly on
      such a multiple. */
  lemma WaitWraps(d: int)
    ensures var w := WaitArgument(d);
      -0x8000_0000 <= w < 0x8000_0000 && (w - d) % 0x1_0000_0000 == 0 && (w == 0 <==> d % 0x1_0000_0000 == 0)
  {
  }

  class TimerThread {
    const idleHeap: OSHeap
    /** Every element that was ever given a timeout. */
    ghost var known: set<OSHeapElem>

    /** An element says it is in a heap exactly when the idle heap holds it. */
    ghost predicate Exact()
      reads this, idleHeap, known
    {
      forall e :: e in known ==> (e.current != null <==> Has(idleHeap.slots, e))
    }

    /** ... and then only once. */
    ghost predicate Valid()
      reads this, idleHeap, idleHeap.heap, idleHeap.heap[..], known
    {
      idleHeap.Valid() && Once(idleHeap.slots, known) && Exact()
    }

    constructor ()
      ensures Valid() && known == {} && fresh(idleHeap) && fresh(idleHeap.heap) && idleHeap.slots == []
    {
      idleHeap := new OSHeap(1024);
      known := {};
    }

    /** The elements that say they are in a heap after x was inserted. */
    ghost predicate ExactWith(s: seq<ElemSlot>, elem: OSHeapElem)
      reads this, known
    {
      forall e :: e in known ==> (e.current != null <==> e == elem || Has(s, e))
    }

    lemma ExactAfterInsert(s: seq<ElemSlot>, x: ElemSlot)
      requires idleHeap.slots == Insert(s, x) && ExactWith(s, x.elem)
      ensures Exact()
    {
      hide Insert, Has;
      forall e | e in known ensures e.current != null <==> Has(idleHeap.slots, e) { HasInsert(s, x, e); }
    }

    /** Puts an element with a new value into the heap. */
    method Arm(elem: OSHeapElem, value: int)
      requires idleHeap.Valid() && Exact() && elem in known && elem.current == null
      modifies idleHeap, idleHeap.heap, elem`value, elem`current
      ensures idleHeap.Valid() && Exact()
      ensures idleHeap.heap == old(idleHeap.heap) || fresh(idleHeap.heap)
      ensures idleHeap.slots == Insert(old(idleHeap.slots), Slot(elem, value)) && !old(Has(idleHeap.slots, elem))
    {
      hide Insert, Has;
      elem.SetValue(value);
      idleHeap.OthersKeep(elem);
      idleHeap.Insert(elem);
      ExactAfterInsert(old(idleHeap.slots), Slot(elem, value));
    }

    /** Gives the element a timeout unless it already has one. */
    method SetTimeout(elem: OSHeapElem, now: int, msec: int) returns (ret: int)
      requires Valid() && (elem !in known ==> elem.current == null)
      modifies this`known, idleHeap, idleHeap.heap, elem`value, elem`current
      ensures Valid() && known == old(known) + {elem}
      ensures idleHeap.heap == old(idleHeap.heap) || fresh(idleHeap.heap)
      ensures ret == if old(elem.current) != null then -1 else 0
      ensures idleHeap.slots == if ret < 0 then old(idleHeap.slots)
                                else Insert(old(idleHeap.slots), Slot(elem, now + msec))
      ensures idleHeap.slots == Step(old(idleHeap.slots), Set(Slot(elem, now + msec)))
    {
      hide Insert, Has;
      ghost var s := idleHeap.slots;
      if elem !in known { UnknownNotHeld(s, known, elem); }
      known := known + {elem};
      if elem.current != null {
        return -1;
      }
      Arm(elem, now + msec);
      OnceInsert(s, Slot(elem, now + msec), old(known));
      ret := 0;
    }

    lemma ExactAfterExtract(s: seq<ElemSlot>, i: nat)
      requires 1 <= i <= |s| && Once(s, known) && idleHeap.slots == Extract(s, i)
      requires forall e :: e in known ==> (e.current != null <==> e != s[i - 1].elem && Has(s, e))
      ensures Exact() && Once(idleHeap.slots, known)
    {
      hide Extract, Has;
      OnceExtract(s, i, known);
      forall e | e in known ensures e.current != null <==> Has(idleHeap.slots, e) { HasExtract(s, i, known, e); }
    }

    /** Takes the element's timeout back, if it has one. */
    method CancelTimeout(elem: OSHeapElem)
      requires Valid() && (elem !in known ==> elem.current == null)
      modifies idleHeap, idleHeap.heap, elem`current
      ensures Valid() && elem.current == null && idleHeap.heap == old(idleHeap.heap)
      ensures var i := FirstSlot(old(idleHeap.slots), elem);
              && (i <= |old(idleHeap.slots)| <==> old(elem.current) != null)
              && idleHeap.slots == Step(old(idleHeap.slots), Cancel(elem))
    {
      hide Extract;
      ghost var s := idleHeap.slots;
      if elem !in known { UnknownNotHeld(s, known, elem); }
      var r := idleHeap.Remove(elem);
      if r != null {
        ExactAfterExtract(s, FirstSlot(s, elem));
      }
    }

    lemma RootKnown()
      requires Once(idleHeap.slots, known) && idleHeap.slots != []
      ensures idleHeap.slots[0].elem in known
    {
      assert idleHeap.slots[0] in multiset(idleHeap.slots);
    }

    /** Pops the earliest timer if it is due at time msec. */
    method PopDue(msec: int) returns (elem: OSHeapElem?)
      requires Valid()
      modifies idleHeap, idleHeap.heap, known
      ensures Valid() && idleHeap.heap == old(idleHeap.heap)
      ensures elem != null <==> old(idleHeap.slots) != [] && old(idleHeap.slots)[0].value <= msec
      ensures elem == null ==> idleHeap.slots == old(idleHeap.slots)
      ensures elem != null ==> elem == old(idleHeap.slots)[0].elem && idleHeap.slots == Extract(old(idleHeap.slots), 1)
    {
      hide Extract, Once, Has;
      ghost var s := idleHeap.slots;
      var size := idleHeap.CurrentHeapSize();
      if size == 0 {
        return null;
      }
      RootKnown();
      var least := idleHeap.PeekMin();
      if least.value > msec {
        return null;
      }
      elem := idleHeap.ExtractMin();
      ExactAfterExtract(s, 1);
    }

    /** One pass of Entry at time msec: posts a timeout to the owner of every due timer and returns
        how long to wait for the next, or None when there is none. */
    method Pass(msec: int) returns (fired: seq<OSHeapElem>, wait: Option<int>)
      requires Valid()
      modifies idleHeap, idleHeap.heap, known
      ensures Valid() && idleHeap.heap == old(idleHeap.heap)
      ensures fired == Elems(Due(old(idleHeap.slots), msec))
      ensures idleHeap.slots == Left(old(idleHeap.slots), msec) == Step(old(idleHeap.slots), Fire(msec))
      ensures wait == if idleHeap.slots == [] then None else Some(WaitArgument(idleHeap.slots[0].value - msec))
    {
      hide Extract, Once, Exact, Due, Left, Elems;
      fired := [];
      ghost var s := idleHeap.slots;
      var elem := PopDue(msec);
      DueStep(s, msec);
      while elem != null
        invariant Valid() && idleHeap.heap == old(idleHeap.heap)
        invariant Left(s, msec) == Left(idleHeap.slots, msec)
        invariant Elems(Due(s, msec)) == fired + (if elem == null then [] else [elem] + Elems(Due(idleHeap.slots, msec)))
        invariant elem == null ==> Left(s, msec) == idleHeap.slots
        decreases |idleHeap.slots|, elem != null
      {
        fired := fired + [elem];
        DueStep(idleHeap.slots, msec);
        elem := PopDue(msec);
      }
      wait := NextWait(msec);
    }

    method NextWait(msec: int) returns (wait: Option<int>)
      requires idleHeap.Valid()
      ensures wait == if idleHeap.slots == [] then None else Some(WaitArgument(idleHeap.slots[0].value - msec))
    {
      var size := idleHeap.CurrentHeapSize();
      if size > 0 {
        var least := idleHeap.PeekMin();
        wait := Some(WaitArgument(least.value - msec));
      } else {
        wait := None;
      }
    }
  }

  function Elems<E>(s: seq<Slot<E>>): seq<E> {
    if s == [] then [] else [s[0].elem] + Elems(s[1..])
  }

  lemma DueStep<E>(s: seq<Slot<E>>, now: int)
    ensures s != [] && s[0].value <= now ==>
              Elems(Due(s, now)) == [s[0].elem] + Elems(Due(Extract(s, 1), now)) && Left(s, now) == Left(Extract(s, 1), now)
    ensures s == [] || s[0].value > now ==> Elems(Due(s, now)) == [] && Left(s, now) == s
  {
    hide Extract;
    if s != [] && s[0].value <= now {
      assert Due(s, now)[1..] == Due(Extract(s, 1), now);
    }
  }

  lemma UnknownNotHeld<E>(s: seq<Slot<E>>, known: set<E>, e: E)
    requires Once(s, known) && e !in known
    ensures !Has(s, e)
  {
    HasMultiset(s, e);
  }

  /** After a pass on an ordered heap the wait is as long as the time to the next timer, and so
      positive, exactly when that is below 2^31 milliseconds. */
  lemma WaitExact<E>(s: seq<Slot<E>>, msec: int)
    requires Ordered(s) && Left(s, msec) != []
    ensures var d := Left(s, msec)[0].value - msec;
      d > 0 && (WaitArgument(d) == d <==> d < 0x8000_0000)
  {
    PassLeavesLater(s, msec);
    assert Left(s, msec)[0] in Left(s, msec);
  }
}
