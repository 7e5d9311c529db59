/** What the timer heap's two sift loops do, as functions on the sequence of its slots,
    and what they keep. Slot k of the array (1-indexed) is element k - 1 here. */
module HeapOrder {

  /** An element pointer together with the value it is ordered by. */
  datatype Slot<E> = Slot(elem: E, value: int)

  /** The edge from slot k up to its parent is in order. */
  predicate Edge<E>(s: seq<Slot<E>>, k: nat)
    requires 2 <= k <= |s|
  {
    s[k / 2 - 1].value <= s[k - 1].value
  }

  ghost predicate Ordered<E>(s: seq<Slot<E>>) {
    forall k :: 2 <= k <= |s| ==> Edge(s, k)
  }

  /** The first slot holds a least value. */
  ghost predicate RootLeast<E>(s: seq<Slot<E>>) {
    forall x :: x in s ==> s[0].value <= x.value
  }

  ghost predicate Has<E>(s: seq<Slot<E>>, e: E) {
    exists i :: 0 <= i < |s| && s[i].elem == e
  }

  ghost predicate Sorted<E>(s: seq<Slot<E>>) {
    forall i, j :: 0 <= i < j < |s| ==> s[i].value <= s[j].value
  }

  /** The first slot that holds e, or one past the end. */
  ghost function FirstSlot<E>(s: seq<Slot<E>>, e: E): (i: nat)
    ensures 1 <= i <= |s| + 1
    ensures i <= |s| ==> s[i - 1].elem == e
    ensures forall j :: 0 <= j < i - 1 ==> s[j].elem != e
  {
    if s == [] || s[0].elem == e then 1 else 1 + FirstSlot(s[1..], e)
  }

  /** Exchanges slots a and b. */
  function Swap<E>(s: seq<Slot<E>>, a: nat, b: nat): (t: seq<Slot<E>>)
    requires 1 <= a <= |s| && 1 <= b <= |s|
    ensures |t| == |s|
  {
    s[a - 1 := s[b - 1]][b - 1 := s[a - 1]]
  }

  function SiftUp<E>(s: seq<Slot<E>>, pos: nat): (t: seq<Slot<E>>)
    requires 1 <= pos <= |s|
    ensures |t| == |s|
    decreases pos
  {
    if pos > 1 && s[pos - 1].value < s[pos / 2 - 1].value
    then SiftUp(Swap(s, pos, pos / 2), pos / 2)
    else s
  }

  /** The smallest of slot pos and its children, the left one first on a tie. */
  function Least<E>(s: seq<Slot<E>>, pos: nat): (m: nat)
    requires 1 <= pos <= |s|
    ensures m == pos || pos < m <= |s|
  {
    var g := if pos * 2 <= |s| && s[pos * 2 - 1].value < s[pos - 1].value then pos * 2 else pos;
    if pos * 2 + 1 <= |s| && s[pos * 2].value < s[g - 1].value then pos * 2 + 1 else g
  }

  function SiftDown<E>(s: seq<Slot<E>>, pos: nat): (t: seq<Slot<E>>)
    requires 1 <= pos <= |s|
    ensures |t| == |s|
    decreases |s| - pos
  {
    var m := Least(s, pos);
    if m == pos then s else SiftDown(Swap(s, pos, m), m)
  }

  function Insert<E>(s: seq<Slot<E>>, x: Slot<E>): (t: seq<Slot<E>>)
    ensures |t| == |s| + 1
  {
    SiftUp(s + [x], |s| + 1)
  }

  /** Fills the hole at i with the last leaf, then sifts it down. */
  function Extract<E>(s: seq<Slot<E>>, i: nat): (t: seq<Slot<E>>)
    requires 1 <= i <= |s|
    ensures |t| == |s| - 1
  {
    var rest := s[..|s| - 1];
    if i == |s| then rest else SiftDown(rest[i - 1 := s[|s| - 1]], i)
  }

  lemma SwapMultiset<E>(s: seq<Slot<E>>, a: nat, b: nat)
    requires 1 <= a <= |s| && 1 <= b <= |s|
    ensures multiset(Swap(s, a, b)) == multiset(s)
  {
  }

  lemma {:induction false} SiftUpMultiset<E>(s: seq<Slot<E>>, pos: nat)
    requires 1 <= pos <= |s|
    ensures multiset(SiftUp(s, pos)) == multiset(s)
    decreases pos
  {
    if pos > 1 && s[pos - 1].value < s[pos / 2 - 1].value {
      SwapMultiset(s, pos, pos / 2);
      SiftUpMultiset(Swap(s, pos, pos / 2), pos / 2);
    }
  }

  lemma {:induction false} SiftDownMultiset<E>(s: seq<Slot<E>>, pos: nat)
    requires 1 <= pos <= |s|
    ensures multiset(SiftDown(s, pos)) == multiset(s)
    decreases |s| - pos
  {
    var m := Least(s, pos);
    if m != pos {
      SwapMultiset(s, pos, m);
      SiftDownMultiset(Swap(s, pos, m), m);
    }
  }

  /** Slot pos may be too small for its parent; every other edge is in order, even across pos. */
  ghost predicate UpInvariant<E>(s: seq<Slot<E>>, pos: nat)
    requires 1 <= pos <= |s|
  {
    && (forall k :: 2 <= k <= |s| && k != pos ==> Edge(s, k))
    && (forall k :: 2 <= k <= |s| && k / 2 == pos > 1 ==> s[pos / 2 - 1].value <= s[k - 1].value)
  }

  lemma {:induction false} SiftUpOrdered<E>(s: seq<Slot<E>>, pos: nat)
    requires 1 <= pos <= |s| && UpInvariant(s, pos)
    ensures Ordered(SiftUp(s, pos))
    decreases pos
  {
    if pos > 1 && s[pos - 1].value < s[pos / 2 - 1].value {
      var t := Swap(s, pos, pos / 2);
      forall k | 2 <= k <= |t| && k != pos / 2 ensures Edge(t, k) {
        if k != pos { assert Edge(s, k); }
      }
      forall k | 2 <= k <= |t| && k / 2 == pos / 2 > 1
        ensures t[pos / 2 / 2 - 1].value <= t[k - 1].value
      {
        assert Edge(s, pos / 2);
        if k != pos { assert Edge(s, k); }
      }
      SiftUpOrdered(t, pos / 2);
    }
  }

  /** Slot pos may be too large for its children; every other edge is in order, except perhaps
      the one above the slot top at which sifting started. */
  ghost predicate DownInvariant<E>(s: seq<Slot<E>>, top: nat, pos: nat)
    requires 1 <= top <= pos <= |s|
  {
    && (forall k :: 2 <= k <= |s| && k != top && k / 2 != pos ==> Edge(s, k))
    && (forall k :: 2 <= k <= |s| && k / 2 == pos > 1 ==> s[pos / 2 - 1].value <= s[k - 1].value)
    && (1 < top < pos ==> Edge(s, top))
  }

  /** One exchange with the smaller child moves the invariant down to that child. */
  lemma DownStep<E>(s: seq<Slot<E>>, top: nat, pos: nat)
    requires 1 <= top <= pos <= |s| && DownInvariant(s, top, pos) && Least(s, pos) != pos
    ensures DownInvariant(Swap(s, pos, Least(s, pos)), top, Least(s, pos))
    ensures 1 < top ==> Edge(s, top)
  {
    var m := Least(s, pos);
    var t := Swap(s, pos, m);
    assert m / 2 == pos;
    forall k | 2 <= k <= |t| && k != top && k / 2 != m ensures Edge(t, k) {
      if k / 2 == pos {
        assert k == pos * 2 || k == pos * 2 + 1;
      } else if k != pos {
        assert Edge(s, k);
      }
    }
    forall k | 2 <= k <= |t| && k / 2 == m ensures t[m / 2 - 1].value <= t[k - 1].value {
      assert Edge(s, k);
    }
    if 1 < top == pos {
      assert s[pos / 2 - 1].value <= s[m - 1].value;
    }
  }

  lemma {:induction false} SiftDownOrdered<E>(s: seq<Slot<E>>, top: nat, pos: nat)
    requires 1 <= top <= pos <= |s| && DownInvariant(s, top, pos)
    ensures Ordered(SiftDown(s, pos)) <==> (1 < top ==> Edge(s, top))
    ensures SiftDown(s, pos)[..pos - 1] == s[..pos - 1]
    decreases |s| - pos
  {
    var m := Least(s, pos);
    if m == pos {
      forall k | 2 <= k <= |s| && k != top ensures Edge(s, k) {
        if k / 2 == pos { assert k == pos * 2 || k == pos * 2 + 1; }
      }
    } else {
      var t := Swap(s, pos, m);
      DownStep(s, top, pos);
      SiftDownOrdered(t, top, m);
      assert SiftDown(s, pos)[..pos - 1] == SiftDown(t, m)[..m - 1][..pos - 1] == t[..pos - 1];
    }
  }

  lemma {:induction false} RootBelow<E>(s: seq<Slot<E>>, k: nat)
    requires Ordered(s) && 1 <= k <= |s|
    ensures s[0].value <= s[k - 1].value
    decreases k
  {
    if k > 1 {
      assert Edge(s, k);
      RootBelow(s, k / 2);
    }
  }

  lemma OrderedRootLeast<E>(s: seq<Slot<E>>)
    requires Ordered(s)
    ensures RootLeast(s)
  {
    forall x | x in s ensures s[0].value <= x.value {
      var k :| 0 <= k < |s| && s[k] == x;
      RootBelow(s, k + 1);
    }
  }

  lemma SmallerRootLeast<E>(s: seq<Slot<E>>, r: seq<Slot<E>>)
    requires s != [] && RootLeast(s) && multiset(r) <= multiset(s)
    requires r != [] ==> r[0] == s[0]
    ensures RootLeast(r)
  {
    forall x | x in r ensures r[0].value <= x.value {
      assert x in multiset(r);
      assert x in multiset(s);
    }
  }

  /** Insertion keeps the order and adds exactly the new slot. */
  lemma InsertCorrect<E>(s: seq<Slot<E>>, x: Slot<E>)
    ensures multiset(Insert(s, x)) == multiset(s) + multiset{x}
    ensures Ordered(s) ==> Ordered(Insert(s, x))
  {
    var t := s + [x];
    SiftUpMultiset(t, |t|);
    if Ordered(s) {
      forall k | 2 <= k <= |t| && k != |t| ensures Edge(t, k) { assert Edge(s, k); }
      SiftUpOrdered(t, |t|);
    }
  }

  lemma FillFromLast<E>(s: seq<Slot<E>>, i: nat)
    requires 1 <= i < |s|
    ensures multiset(s[..|s| - 1][i - 1 := s[|s| - 1]]) == multiset(s) - multiset{s[i - 1]}
  {
    assert Swap(s, i, |s|) == s[..|s| - 1][i - 1 := s[|s| - 1]] + [s[i - 1]];
    SwapMultiset(s, i, |s|);
  }

  lemma ExtractMultiset<E>(s: seq<Slot<E>>, i: nat)
    requires 1 <= i <= |s|
    ensures multiset(Extract(s, i)) == multiset(s) - multiset{s[i - 1]}
  {
    if i == |s| {
      assert s == s[..|s| - 1] + [s[|s| - 1]];
    } else {
      FillFromLast(s, i);
      SiftDownMultiset(s[..|s| - 1][i - 1 := s[|s| - 1]], i);
    }
  }

  /** Exactly when taking out slot i keeps the order: the root, the last slot, or a last leaf
      that is not smaller than the hole's parent. */
  predicate LeafFits<E>(s: seq<Slot<E>>, i: nat)
    requires 1 <= i <= |s|
  {
    i == 1 || i == |s| || s[i / 2 - 1].value <= s[|s| - 1].value
  }

  lemma ExtractOrderedIff<E>(s: seq<Slot<E>>, i: nat)
    requires 1 <= i <= |s| && Ordered(s)
    ensures Ordered(Extract(s, i)) <==> LeafFits(s, i)
    ensures RootLeast(Extract(s, i))
  {
    var r := Extract(s, i);
    if i == |s| {
      forall k | 2 <= k <= |r| ensures Edge(r, k) { assert Edge(s, k); }
    } else {
      var t := s[..|s| - 1][i - 1 := s[|s| - 1]];
      forall k | 2 <= k <= |t| && k != i && k / 2 != i ensures Edge(t, k) { assert Edge(s, k); }
      forall k | 2 <= k <= |t| && k / 2 == i > 1 ensures t[i / 2 - 1].value <= t[k - 1].value {
        assert Edge(s, k) && Edge(s, i);
      }
      SiftDownOrdered(t, i, i);
    }
    if Ordered(r) {
      OrderedRootLeast(r);
    } else {
      assert i > 1 && r[0] == r[..i - 1][0] == s[0];
      ExtractMultiset(s, i);
      OrderedRootLeast(s);
      SmallerRootLeast(s, r);
    }
  }

  /** A heap from which taking out slot 4 leaves 3 below 10. */
  lemma RemoveCanBreakOrder() returns (s: seq<Slot<int>>)
    ensures |s| == 6 && Ordered(s) && !Ordered(Extract(s, 4)) && RootLeast(Extract(s, 4))
  {
    s := [Slot(0, 1), Slot(1, 10), Slot(2, 2), Slot(3, 11), Slot(4, 12), Slot(5, 3)];
    assert forall k :: 2 <= k <= 6 ==> Edge(s, k);
    assert !LeafFits(s, 4);
    ExtractOrderedIff(s, 4);
  }

  /** Extract-min until nothing is left. */
  function Drain<E>(s: seq<Slot<E>>): (out: seq<Slot<E>>)
    decreases |s|
  {
    if s == [] then [] else [s[0]] + Drain(Extract(s, 1))
  }

  lemma SortedCons<E>(x: Slot<E>, out: seq<Slot<E>>, rest: multiset<Slot<E>>)
    requires Sorted(out) && multiset(out) <= rest
    requires forall y :: y in rest ==> x.value <= y.value
    ensures Sorted([x] + out)
  {
    forall y | y in out ensures x.value <= y.value {
      assert y in multiset(out);
    }
  }

  /** Draining an ordered heap lists its slots in order. */
  lemma {:induction false} DrainSorts<E>(s: seq<Slot<E>>)
    requires Ordered(s)
    ensures Sorted(Drain(s)) && multiset(Drain(s)) == multiset(s)
    decreases |s|
  {
    if s != [] {
      var r := Extract(s, 1);
      ExtractOrderedIff(s, 1);
      ExtractMultiset(s, 1);
      DrainSorts(r);
      OrderedRootLeast(s);
      assert s[0] in multiset(s);
      SortedCons(s[0], Drain(r), multiset(s));
    }
  }

  datatype Op<E> = Push(slot: Slot<E>) | Pop

  /** The heap after a run of insertions and extract-mins; a Pop on an empty heap does nothing. */
  function After<E>(ops: seq<Op<E>>): (s: seq<Slot<E>>) {
    if ops == [] then [] else
      var s := After(ops[..|ops| - 1]);
      match ops[|ops| - 1]
      case Push(x) => Insert(s, x)
      case Pop => if s == [] then s else Extract(s, 1)
  }

  /** What was inserted over a run, and what extract-min handed out. */
  ghost function Pushed<E>(ops: seq<Op<E>>): multiset<Slot<E>> {
    if ops == [] then multiset{} else
      Pushed(ops[..|ops| - 1]) + (if ops[|ops| - 1].Push? then multiset{ops[|ops| - 1].slot} else multiset{})
  }

  function Popped<E>(ops: seq<Op<E>>): seq<Slot<E>> {
    if ops == [] then [] else
      var s := After(ops[..|ops| - 1]);
      Popped(ops[..|ops| - 1]) + (if ops[|ops| - 1].Pop? && s != [] then [s[0]] else [])
  }

  lemma StepKeepsHeap<E>(before: seq<Slot<E>>, out: multiset<Slot<E>>, op: Op<E>)
    requires Ordered(before)
    ensures op.Push? ==> Ordered(Insert(before, op.slot))
    ensures op.Push? ==> multiset(Insert(before, op.slot)) + out == multiset(before) + out + multiset{op.slot}
    ensures op.Pop? && before != [] ==> Ordered(Extract(before, 1))
    ensures op.Pop? && before != [] ==>
              multiset(Extract(before, 1)) + (out + multiset{before[0]}) == multiset(before) + out
  {
    match op
    case Push(x) => InsertCorrect(before, x);
    case Pop =>
      if before != [] {
        ExtractOrderedIff(before, 1);
        ExtractMultiset(before, 1);
        assert before[0] in multiset(before);
      }
  }

  /** Over every run the heap is ordered, and what was inserted is what is left plus what was handed out. */
  lemma {:induction false} RunKeepsHeap<E>(ops: seq<Op<E>>)
    ensures Ordered(After(ops))
    ensures multiset(After(ops)) + multiset(Popped(ops)) == Pushed(ops)
  {
    if ops != [] {
      var prev := ops[..|ops| - 1];
      RunKeepsHeap(prev);
      StepKeepsHeap(After(prev), multiset(Popped(prev)), ops[|ops| - 1]);
    }
  }

  /** Whatever was inserted and not yet handed out comes out of a final drain in sorted order. */
  lemma HeapSort<E>(ops: seq<Op<E>>)
    ensures Sorted(Drain(After(ops)))
    ensures multiset(Drain(After(ops))) + multiset(Popped(ops)) == Pushed(ops)
  {
    RunKeepsHeap(ops);
    DrainSorts(After(ops));
  }
}
