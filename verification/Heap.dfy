/** OSHeap: an array heap of element pointers, 1-indexed, that doubles when it is full. */
module Heap {
  import opened HeapOrder

  class OSHeapElem {
    var value: int
    var current: OSHeap?

    constructor ()
      ensures value == 0 && current == null
    {
      value, current := 0, null;
    }

    method SetValue(newValue: int)
      modifies this`value
      ensures value == newValue
    {
      value := newValue;
    }
  }

  type ElemSlot = Slot<OSHeapElem>

  class OSHeap {
    var heap: array<OSHeapElem?>
    var free: nat
    /** What slots 1..free hold, each element with its current value. */
    ghost var slots: seq<ElemSlot>

    ghost predicate Holds(s: seq<ElemSlot>)
      reads this, heap, heap[..]
    {
      && |s| < heap.Length
      && forall k :: 0 <= k < |s| ==> heap[k + 1] == s[k].elem && heap[k + 1].value == s[k].value
    }

    /** Nothing is said about the order of the slots here. */
    ghost predicate Valid()
      reads this, heap, heap[..]
    {
      2 <= heap.Length && free == |slots| + 1 && Holds(slots)
    }

    /** Changing the value of an element that is in no slot leaves the heap as it is. */
    twostate lemma OthersKeep(elem: OSHeapElem)
      requires old(Valid()) && !Has(old(slots), elem)
      requires unchanged(this) && unchanged(heap)
      requires forall e: OSHeapElem :: old(allocated(e)) && e != elem ==> e.value == old(e.value)
      ensures Valid()
    {
      forall k | 0 <= k < |slots| ensures heap[k + 1] == slots[k].elem && heap[k + 1].value == slots[k].value {
        assert old(heap[k + 1]) == slots[k].elem != elem;
      }
    }

    constructor (startSize: nat)
      ensures Valid() && fresh(heap) && slots == []
      ensures heap.Length == if startSize < 2 then 2 else startSize
    {
      heap := new OSHeapElem?[if startSize < 2 then 2 else startSize];
      free := 1;
      slots := [];
    }

    method CurrentHeapSize() returns (n: nat)
      requires Valid()
      ensures n == |slots|
    {
      n := free - 1;
    }

    method PeekMin() returns (r: OSHeapElem?)
      requires Valid()
      ensures r == if slots == [] then null else slots[0].elem
    {
      if free - 1 > 0 { r := heap[1]; } else { r := null; }
    }

    /** Doubles the array when it is full. */
    method Grow()
      requires Valid()
      modifies this`heap
      ensures Valid() && free < heap.Length
      ensures heap == old(heap) || fresh(heap)
      ensures heap.Length == if free == old(heap.Length) then 2 * old(heap.Length) else old(heap.Length)
    {
      if free == heap.Length {
        var tempArray := new OSHeapElem?[heap.Length * 2];
        forall k | 0 <= k < free { tempArray[k] := heap[k]; }
        heap := tempArray;
      }
    }

    method Exchange(a: nat, b: nat, ghost s: seq<ElemSlot>)
      requires Holds(s) && 1 <= a <= |s| && 1 <= b <= |s|
      modifies heap
      ensures Holds(Swap(s, a, b))
    {
      heap[a], heap[b] := heap[b], heap[a];
    }

    /** Insert's loop: moves slot free up to its place. */
    method Bubble(ghost placed: seq<ElemSlot>)
      requires free == |placed| > 0 && Holds(placed)
      modifies heap
      ensures Holds(SiftUp(placed, free))
    {
      var swapPos := free;
      ghost var s := placed;
      while swapPos > 1
        invariant 1 <= swapPos <= free == |s| && Holds(s)
        invariant SiftUp(s, swapPos) == SiftUp(placed, free)
      {
        var nextSwapPos := swapPos / 2;
        if heap[swapPos].value < heap[nextSwapPos].value {
          Exchange(swapPos, nextSwapPos, s);
          s := Swap(s, swapPos, nextSwapPos);
          swapPos := nextSwapPos;
        } else {
          break;
        }
      }
    }

    method Insert(inElem: OSHeapElem)
      requires Valid()
      modifies this, heap, inElem`current
      ensures Valid() && (heap == old(heap) || fresh(heap))
      ensures heap.Length == if old(free) == old(heap.Length) then 2 * old(heap.Length) else old(heap.Length)
      ensures slots == HeapOrder.Insert(old(slots), Slot(inElem, inElem.value))
      ensures inElem.current == this
    {
      Grow();
      heap[free] := inElem;
      Bubble(slots + [Slot(inElem, inElem.value)]);
      slots := HeapOrder.Insert(slots, Slot(inElem, inElem.value));
      inElem.current := this;
      free := free + 1;
    }

    /** Extract's loop: moves slot i down to its place. */
    method Sink(i: nat, ghost filled: seq<ElemSlot>)
      requires 1 <= i <= |filled| == free - 1 && Holds(filled)
      modifies heap
      ensures Holds(SiftDown(filled, i))
    {
      var parent := i;
      ghost var s := filled;
      while parent < free
        invariant i <= parent <= |s| == free - 1 && Holds(s)
        invariant SiftDown(s, parent) == SiftDown(filled, i)
        decreases free - parent
      {
        var greatest := parent;
        var leftChild := parent * 2;
        if leftChild < free && heap[leftChild].value < heap[parent].value {
          greatest := leftChild;
        }
        var rightChild := parent * 2 + 1;
        if rightChild < free && heap[rightChild].value < heap[greatest].value {
          greatest := rightChild;
        }
        if greatest == parent {
          break;
        }
        Exchange(parent, greatest, s);
        s := Swap(s, parent, greatest);
        parent := greatest;
      }
    }

    method Extract(i: nat) returns (victim: OSHeapElem?)
      requires Valid() && 1 <= i
      modifies this`free, this`slots, heap, (if i < free then {heap[i]} else {})`current
      ensures Valid()
      ensures i > |old(slots)| ==> victim == null && slots == old(slots)
      ensures i <= |old(slots)| ==> victim == old(slots)[i - 1].elem && victim.current == null
      ensures i <= |old(slots)| ==> slots == HeapOrder.Extract(old(slots), i)
    {
      hide SiftDown;
      if free <= i {
        return null;
      }
      assert heap[i] == slots[i - 1].elem;
      victim := heap[i];
      victim.current := null;
      heap[i] := heap[free - 1];
      free := free - 1;
      slots := HeapOrder.Extract(slots, i);
      if i < free {
        Sink(i, old(slots)[..free - 1][i - 1 := old(slots)[free - 1]]);
      }
    }

    method ExtractMin() returns (r: OSHeapElem?)
      requires Valid()
      modifies this`free, this`slots, heap, (if 1 < free then {heap[1]} else {})`current
      ensures Valid()
      ensures old(slots) == [] ==> r == null && slots == []
      ensures old(slots) != [] ==> r == old(slots)[0].elem && r.current == null
      ensures old(slots) != [] ==> slots == HeapOrder.Extract(old(slots), 1)
    {
      r := Extract(1);
    }

    /** Takes out the first slot that holds elem, if there is one. */
    method Remove(elem: OSHeapElem) returns (r: OSHeapElem?)
      requires Valid()
      modifies this`free, this`slots, heap, elem`current
      ensures Valid()
      ensures var i := FirstSlot(old(slots), elem);
              if i > |old(slots)|
              then r == null && slots == old(slots) && elem.current == old(elem.current)
              else r == elem && slots == HeapOrder.Extract(old(slots), i) && elem.current == null
    {
      hide HeapOrder.Extract;
      if free == 1 {
        return null;
      }
      var theIndex := 1;
      while theIndex < free && elem != heap[theIndex]
        invariant 1 <= theIndex <= free
        invariant forall j :: 0 <= j < theIndex - 1 ==> slots[j].elem != elem
      {
        theIndex := theIndex + 1;
      }
      if theIndex == free {
        return null;
      }
      r := Extract(theIndex);
    }
  }
}
