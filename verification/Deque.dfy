/** The circular doubly linked list with a head pointer and a count. */
module Deques {
  import opened Options

  class Node<T> {
    var nextp: Node?<T>
    var prevp: Node?<T>
    const element: T

    constructor (element: T)
      ensures this.element == element && nextp == null && prevp == null
    {
      this.element := element;
      nextp, prevp := null, null;
    }
  }

  class Deque<T> {
    var count: int
    var headp: Node?<T>
    /** The nodes from the head around the cycle. */
    ghost var nodes: seq<Node<T>>
    /** Every node the list has had. */
    ghost var cells: set<Node<T>>

    static function Succ(i: nat, n: nat): nat {
      if i + 1 >= n then 0 else i + 1
    }

    /** One cycle through distinct nodes, linked both ways. */
    static ghost predicate Ring(s: seq<Node<T>>)
      reads s
    {
      && (forall i, j :: 0 <= i < j < |s| ==> s[i] != s[j])
      && (forall i :: 0 <= i < |s| ==> s[i].nextp == s[Succ(i, |s|)])
      && (forall i :: 0 <= i < |s| ==> s[Succ(i, |s|)].prevp == s[i])
    }

    /** Around the cycle next and prev undo each other. */
    static lemma LinksInverse(s: seq<Node<T>>, n: Node<T>)
      requires Ring(s) && n in s
      ensures n.nextp != null && n.nextp.prevp == n
      ensures n.prevp != null && n.prevp.nextp == n
    {
      var i :| 0 <= i < |s| && s[i] == n;
      var j := if i == 0 then |s| - 1 else i - 1;
      assert Succ(j, |s|) == i;
    }

    ghost predicate Valid()
      reads this, nodes
    {
      && count == |nodes|
      && headp == (if nodes == [] then null else nodes[0])
      && Ring(nodes)
      && (forall n :: n in nodes ==> n in cells)
    }

    ghost function Elements(): (s: seq<T>)
      reads this
      ensures |s| == |nodes|
    {
      seq(|nodes|, i requires 0 <= i < |nodes| reads this => nodes[i].element)
    }

    constructor ()
      ensures Valid() && Elements() == [] && cells == {}
    {
      count, headp, nodes, cells := 0, null, [], {};
    }

    /** Adds at the back; mallocOk says whether the node could be allocated. */
    method Append(element: T, mallocOk: bool) returns (ret: int)
      requires Valid()
      modifies this, cells
      ensures Valid() && fresh(cells - old(cells))
      ensures ret == if mallocOk then 0 else -1
      ensures Elements() == if mallocOk then old(Elements()) + [element] else old(Elements())
    {
      if !mallocOk {
        return -1;
      }
      var nodep := new Node(element);
      if headp == null {
        nodep.nextp, nodep.prevp := nodep, nodep;
        headp := nodep;
      } else {
        var tailp := headp.prevp;
        assert tailp == nodes[|nodes| - 1] by { assert Succ(|nodes| - 1, |nodes|) == 0; }
        tailp.nextp := nodep;
        nodep.prevp := tailp;
        nodep.nextp := headp;
        headp.prevp := nodep;
      }
      nodes, cells := nodes + [nodep], cells + {nodep};
      count := count + 1;
      ret := 0;
    }

    /** Takes the front element, if there is one. */
    method RemoveHead() returns (element: Option<T>)
      requires Valid()
      modifies this, cells
      ensures Valid() && cells == old(cells)
      ensures old(Elements()) == [] ==> element == None && Elements() == []
      ensures old(Elements()) != [] ==> element == Some(old(Elements())[0]) && Elements() == old(Elements())[1..]
    {
      if headp == null {
        return None;
      }
      if count == 1 {
        var nodep := headp;
        count, headp, nodes := 0, null, [];
        return Some(nodep.element);
      }
      var oldHead := headp;
      var tailp := oldHead.prevp;
      var nextp := oldHead.nextp;
      assert nextp == nodes[1] && tailp == nodes[|nodes| - 1] by {
        assert Succ(0, |nodes|) == 1 && Succ(|nodes| - 1, |nodes|) == 0;
      }
      nextp.prevp := oldHead.prevp;
      tailp.nextp := nextp;
      count := count - 1;
      headp := nextp;
      nodes := nodes[1..];
      element := Some(oldHead.element);
    }

    /** Calls back on every element from the head around the cycle and empties the list; released
        is the list of calls in order. */
    method Release() returns (released: seq<T>)
      requires Valid()
      modifies this
      ensures Valid() && Elements() == [] && released == old(Elements())
    {
      released := [];
      var nodep := headp;
      ghost var i := 0;
      while nodep != null
        invariant Valid() && nodes == old(nodes)
        invariant nodep == null <==> i == |nodes|
        invariant 0 <= i <= |nodes| && (nodep != null ==> nodep == nodes[i])
        invariant released == Elements()[..i]
        decreases |nodes| - i
      {
        var tempp := nodep.nextp;
        released := released + [nodep.element];
        assert tempp == nodes[Succ(i, |nodes|)];
        i := i + 1;
        if tempp == headp {
          break;
        }
        nodep := tempp;
      }
      count, headp, nodes := 0, null, [];
    }
  }
}
