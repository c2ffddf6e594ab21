/**
 * LinkedList<T>: a doubly linked list with `head`, `tail` and a `size`
 * counter.  The ghost sequence `Nodes` lists the nodes from head to tail;
 * `Valid()` ties the `next` and `prev` links, the data and the counter to it.
 */
module LinkedLists {
  import opened Wrappers
  import opened Seqs

  /** LinkedList.Node: one element and its two neighbours. */
  class Node<T> {
    var data: T
    var next: Node?<T>
    var prev: Node?<T>

    constructor (data: T)
      ensures this.data == data && next == null && prev == null
    {
      this.data := data;
      next, prev := null, null;
    }
  }

  /** The objects among `ns`, as a frame. */
  ghost function NodeSet<T>(ns: seq<Node<T>>): set<object>
  {
    set i | 0 <= i < |ns| :: ns[i] as object
  }

  lemma NodeSetInsert<T>(ns: seq<Node<T>>, i: nat, n: Node<T>)
    requires i <= |ns|
    ensures NodeSet(Insert(ns, i, n)) == NodeSet(ns) + {n}
  {
    var r := Insert(ns, i, n);
    forall o | o in NodeSet(r) ensures o in NodeSet(ns) + {n} {
      var k :| 0 <= k < |r| && o == r[k];
      if k < i { assert o == ns[k]; } else if k > i { assert o == ns[k - 1]; }
    }
    forall o | o in NodeSet(ns) ensures o in NodeSet(r) {
      var k :| 0 <= k < |ns| && o == ns[k];
      if k < i { assert o == r[k]; } else { assert o == r[k + 1]; }
    }
    assert n == r[i];
  }

  lemma NodeSetDelete<T>(ns: seq<Node<T>>, i: nat)
    requires i < |ns|
    requires forall a, b :: 0 <= a < b < |ns| ==> ns[a] != ns[b]
    ensures NodeSet(Delete(ns, i)) == NodeSet(ns) - {ns[i]}
  {
    var r := Delete(ns, i);
    forall o | o in NodeSet(r) ensures o in NodeSet(ns) - {ns[i]} {
      var k :| 0 <= k < |r| && o == r[k];
      if k < i { assert o == ns[k]; } else { assert o == ns[k + 1]; }
    }
    forall o | o in NodeSet(ns) - {ns[i]} ensures o in NodeSet(r) {
      var k :| 0 <= k < |ns| && o == ns[k];
      if k < i { assert o == r[k]; } else { assert o == r[k - 1]; }
    }
  }

  class LinkedList<T(==)> {
    var head: Node?<T>
    var tail: Node?<T>
    var size: nat

    /** The elements, from head to tail. */
    ghost var Contents: seq<T>
    /** The nodes holding them, in the same order. */
    ghost var Nodes: seq<Node<T>>
    ghost var Repr: set<object>

    /** Object invariant: the nodes are distinct; node i holds element i;
        its `prev` is node i-1 (null for the head) and its `next` is node
        i+1 (null for the tail); `size` counts them. */
    ghost predicate Valid()
      reads this, Repr
      ensures Valid() ==> this in Repr
    {
      && Repr == {this as object} + NodeSet(Nodes)
      && size == |Nodes| == |Contents|
      && Distinct(Nodes)
      && (forall i :: 0 <= i < |Nodes| ==> Nodes[i].data == Contents[i])
      && LinksAgree()
    }

    /** The `prev`, `next`, `head` and `tail` links follow `Nodes`. */
    ghost predicate LinksAgree()
      reads this, NodeSet(Nodes)
    {
      && (forall i {:trigger Nodes[i].prev} :: 0 < i < |Nodes| ==> Nodes[i].prev == Nodes[i - 1])
      && (forall i {:trigger Nodes[i].next} :: 0 <= i < |Nodes| - 1 ==> Nodes[i].next == Nodes[i + 1])
      && (Nodes == [] ==> head == null && tail == null)
      && (Nodes != [] ==> head == Nodes[0] && head.prev == null)
      && (Nodes != [] ==> tail == Nodes[|Nodes| - 1] && tail.next == null)
    }

    /** `new LinkedList<>()`. */
    constructor ()
      ensures Valid() && fresh(Repr)
      ensures Contents == [] && head == null && tail == null
    {
      head, tail, size := null, null, 0;
      Contents, Nodes := [], [];
      Repr := {this};
    }

    /** The node reached from `n` by following `k` next links. */
    ghost function WalkNext(n: Node?<T>, k: nat): Node?<T>
      reads this, Repr
      requires Valid() && (n == null || n in Nodes)
      decreases k
    {
      if k == 0 || n == null then n
      else
        // Naming the position of `n` lets `Valid` show that `n.next` is
        // null or again in `Nodes`, the precondition of the recursive call.
        var i :| 0 <= i < |Nodes| && Nodes[i] == n;
        WalkNext(n.next, k - 1)
    }

    /** The node reached from `n` by following `k` prev links. */
    ghost function WalkPrev(n: Node?<T>, k: nat): Node?<T>
      reads this, Repr
      requires Valid() && (n == null || n in Nodes)
      decreases k
    {
      if k == 0 || n == null then n
      else
        // As in `WalkNext`: the position of `n` shows that `n.prev` is null
        // or again in `Nodes`.
        var i :| 0 <= i < |Nodes| && Nodes[i] == n;
        WalkPrev(n.prev, k - 1)
    }

    lemma {:induction false} WalkNextFrom(i: nat, k: nat)
      requires Valid() && i < |Nodes|
      ensures WalkNext(Nodes[i], k) == if i + k < |Nodes| then Nodes[i + k] else null
      decreases k
    {
      if k > 0 && i + 1 < |Nodes| {
        WalkNextFrom(i + 1, k - 1);
      }
    }

    lemma {:induction false} WalkPrevFrom(i: nat, k: nat)
      requires Valid() && i < |Nodes|
      ensures WalkPrev(Nodes[i], k) == if k <= i then Nodes[i - k] else null
      decreases k
    {
      if k > 0 && i > 0 {
        WalkPrevFrom(i - 1, k - 1);
      }
    }

    /** Following `next` from `head` visits exactly `size` nodes before
        falling off the end, and following `prev` from `tail` visits the
        same nodes in reverse order. */
    lemma Traversals()
      requires Valid()
      ensures head != null ==> head.prev == null
      ensures tail != null ==> tail.next == null
      ensures WalkNext(head, size) == null
      ensures forall k :: 0 <= k < size ==> WalkNext(head, k) != null
      ensures forall k :: 0 <= k < size ==> WalkPrev(tail, k) == WalkNext(head, size - 1 - k)
    {
      if size > 0 {
        WalkNextFrom(0, size);
        forall k | 0 <= k < size
          ensures WalkNext(head, k) != null
          ensures WalkPrev(tail, k) == WalkNext(head, size - 1 - k)
        {
          WalkNextFrom(0, k);
          WalkNextFrom(0, size - 1 - k);
          WalkPrevFrom(size - 1, k);
        }
      }
    }

    /** `add(element)`: link a new node after the tail. */
    method Add(element: Option<T>) returns (r: Outcome)
      requires Valid()
      modifies Repr
      ensures Valid() && fresh(Repr - old(Repr))
      ensures r == if element.None? then Fail(IllegalArgument(NullElement)) else Pass
      ensures element.None? ==> Repr == old(Repr) && unchanged(Repr)
      ensures element.Some? ==> Contents == old(Contents) + [element.value]
    {
      if element.None? {
        return Fail(IllegalArgument(NullElement));
      }
      var newNode := new Node(element.value);
      if size == 0 {
        head, tail := newNode, newNode;
        size := 1;
        NodeSetInsert(Nodes, 0, newNode);
        assert Insert(Nodes, 0, newNode) == [newNode];
        Nodes, Contents := [newNode], [element.value];
        Repr := Repr + {newNode};
      } else {
        LinkLast(newNode);
      }
      r := Pass;
    }

    /** The non-empty branch of `add(element)`: the detached node `n` is
        linked in after the tail and becomes the tail. */
    method LinkLast(n: Node<T>)
      requires Valid() && Nodes != [] && n !in Repr
      requires n.next == null && n.prev == null
      modifies this, Repr, n
      ensures Valid() && Repr == old(Repr) + {n}
      ensures Nodes == old(Nodes) + [n]
      ensures Contents == old(Contents) + [old(n.data)]
    {
      tail.next := n;
      n.prev := tail;
      tail := n;
      size := size + 1;
      NodeSetInsert(Nodes, |Nodes|, n);
      assert Insert(Nodes, |Nodes|, n) == Nodes + [n];
      Nodes := Nodes + [n];
      Contents := Contents + [n.data];
      Repr := Repr + {n};
    }

    /** `add(index, element)`: the bounds are checked before the element;
        `index == size` appends, `index == 0` makes a new head, any other
        index links the new node in front of node `index`. */
    method AddAt(index: int, element: Option<T>) returns (r: Outcome)
      requires Valid()
      modifies Repr
      ensures Valid() && fresh(Repr - old(Repr))
      ensures r == if !(0 <= index <= |old(Contents)|) then Fail(IndexOutOfBounds(index, |old(Contents)|))
                   else if element.None? then Fail(IllegalArgument(NullElement))
                   else Pass
      ensures r.Fail? ==> Repr == old(Repr) && unchanged(Repr)
      ensures r.Pass? ==> Contents == Insert(old(Contents), index, element.value)
    {
      if index < 0 || index > size {
        return Fail(IndexOutOfBounds(index, size));
      }
      if element.None? {
        return Fail(IllegalArgument(NullElement));
      }
      if index == size {
        r := Add(element);
        assert Insert(old(Contents), index, element.value) == old(Contents) + [element.value];
        return;
      }
      var newNode := new Node(element.value);
      if index == 0 {
        LinkFirst(newNode);
      } else {
        var found, _ := GetNode(index);
        LinkBefore(found.value, newNode, index);
      }
      r := Pass;
    }

    /** The `index == 0` branch of `add(index, element)` on a non-empty
        list: the detached node `n` becomes the new head. */
    method LinkFirst(n: Node<T>)
      requires Valid() && Nodes != [] && n !in Repr
      requires n.next == null && n.prev == null
      modifies this, Repr, n
      ensures Valid() && Repr == old(Repr) + {n}
      ensures Nodes == Insert(old(Nodes), 0, n)
      ensures Contents == Insert(old(Contents), 0, old(n.data))
    {
      n.next := head;
      head.prev := n;
      head := n;
      size := size + 1;
      NodeSetInsert(Nodes, 0, n);
      Nodes := Insert(Nodes, 0, n);
      Contents := Insert(Contents, 0, n.data);
      Repr := Repr + {n};
    }

    /** The middle branch of `add(index, element)`: the detached node `n`
        goes between node `i - 1` and `current`, which is node `i`. */
    method LinkBefore(current: Node<T>, n: Node<T>, ghost i: nat)
      requires Valid() && 0 < i < |Nodes| && current == Nodes[i] && n !in Repr
      requires n.next == null && n.prev == null
      modifies this, Repr, n
      ensures Valid() && Repr == old(Repr) + {n}
      ensures Nodes == Insert(old(Nodes), i, n)
      ensures Contents == Insert(old(Contents), i, old(n.data))
    {
      n.next := current;
      n.prev := current.prev;
      Splice(n, i);
    }

    /** The two writes that make node `i - 1` and node `i` point at `n`,
        whose own links already point at them. */
    method Splice(n: Node<T>, ghost i: nat)
      requires Valid() && 0 < i < |Nodes| && n !in Repr
      requires n.prev == Nodes[i - 1] && n.next == Nodes[i]
      modifies this, Nodes[i - 1], Nodes[i]
      ensures Valid() && Repr == old(Repr) + {n}
      ensures Nodes == Insert(old(Nodes), i, n)
      ensures Contents == Insert(old(Contents), i, n.data)
    {
      ghost var nodes := Nodes;
      InsertDistinct(Nodes, i, n);
      n.prev.next := n;
      n.next.prev := n;
      size := size + 1;
      NodeSetInsert(Nodes, i, n);
      Nodes := Insert(Nodes, i, n);
      Contents := Insert(Contents, i, n.data);
      Repr := Repr + {n};
      forall k | 0 < k < |Nodes| ensures Nodes[k].prev == Nodes[k - 1] {
        if k < i || k > i + 1 {
          assert Nodes[k] == if k < i then nodes[k] else nodes[k - 1];
        }
      }
      forall k | 0 <= k < |Nodes| - 1 ensures Nodes[k].next == Nodes[k + 1] {
        if k < i - 1 || k > i {
          assert Nodes[k] == if k < i then nodes[k] else nodes[k - 1];
        }
      }
    }

    /** `remove(index)`: unlink node `index` and return its element; removing
        the only node empties both ends. */
    method RemoveAt(index: int) returns (r: Result<T>)
      requires Valid()
      modifies Repr
      ensures Valid() && fresh(Repr - old(Repr))
      ensures !(0 <= index < |old(Contents)|) ==>
        r == Err(IndexOutOfBounds(index, |old(Contents)|)) && Repr == old(Repr) && unchanged(Repr)
      ensures 0 <= index < |old(Contents)| ==>
        r == Ok(old(Contents)[index]) && Contents == Delete(old(Contents), index)
      ensures Contents == [] ==> head == null && tail == null
    {
      if index < 0 || index >= size {
        return Err(IndexOutOfBounds(index, size));
      }
      var found, _ := GetNode(index);
      var current := found.value;
      var data := current.data;
      if size == 1 {
        head, tail := null, null;
        size := 0;
        Nodes, Contents := [], [];
        Repr := {this};
      } else if index == 0 {
        UnlinkHead();
      } else if index == size - 1 {
        UnlinkTail();
      } else {
        UnlinkMiddle(current, index);
      }
      r := Ok(data);
    }

    /** Unlink the head: its successor, if any, becomes the head, and
        otherwise the list is left empty. */
    method UnlinkHead()
      requires Valid() && Nodes != []
      modifies this, Repr
      ensures Valid() && Repr == old(Repr) - {old(head)}
      ensures Nodes == Delete(old(Nodes), 0)
      ensures Contents == Delete(old(Contents), 0)
    {
      ghost var gone := head;
      head := head.next;
      if head != null {
        head.prev := null;
      } else {
        tail := null;
      }
      size := size - 1;
      NodeSetDelete(Nodes, 0);
      Nodes := Delete(Nodes, 0);
      Contents := Delete(Contents, 0);
      Repr := Repr - {gone};
    }

    /** Unlink the tail of a list of two or more nodes. */
    method UnlinkTail()
      requires Valid() && |Nodes| >= 2
      modifies this, Repr
      ensures Valid() && Repr == old(Repr) - {old(tail)}
      ensures Nodes == Delete(old(Nodes), |old(Nodes)| - 1)
      ensures Contents == Delete(old(Contents), |old(Contents)| - 1)
    {
      ghost var gone := tail;
      tail := tail.prev;
      tail.next := null;
      size := size - 1;
      NodeSetDelete(Nodes, |Nodes| - 1);
      Nodes := Delete(Nodes, |Nodes| - 1);
      Contents := Delete(Contents, |Contents| - 1);
      Repr := Repr - {gone};
    }

    /** Unlink `current`, node `i`, which has a neighbour on each side: the
        two neighbours are joined. */
    method UnlinkMiddle(current: Node<T>, ghost i: nat)
      requires Valid() && 0 < i < |Nodes| - 1 && current == Nodes[i]
      modifies this, Repr
      ensures Valid() && Repr == old(Repr) - {current}
      ensures Nodes == Delete(old(Nodes), i)
      ensures Contents == Delete(old(Contents), i)
    {
      current.prev.next := current.next;
      current.next.prev := current.prev;
      size := size - 1;
      NodeSetDelete(Nodes, i);
      Nodes := Delete(Nodes, i);
      Contents := Delete(Contents, i);
      Repr := Repr - {current};
    }

    /** `remove(element)`: unlink the first node whose data equals `element`;
        when there is none the list is left as it was. */
    method Remove(element: T) returns (found: bool)
      requires Valid()
      modifies Repr
      ensures Valid() && fresh(Repr - old(Repr))
      ensures found <==> element in old(Contents)
      ensures !found ==> Repr == old(Repr) && unchanged(Repr)
      ensures found ==> Contents == Delete(old(Contents), FirstIndex(old(Contents), element))
    {
      var current := head;
      ghost var i := 0;
      while current != null
        invariant Valid() && unchanged(Repr)
        invariant 0 <= i <= |Nodes|
        invariant current == if i < |Nodes| then Nodes[i] else null
        invariant element !in Contents[..i]
        decreases |Nodes| - i
      {
        if current.data == element {
          assert Contents[..i + 1] == Contents[..i] + [element];
          if current == head {
            UnlinkHead();
          } else if current == tail {
            UnlinkTail();
          } else {
            UnlinkMiddle(current, i);
          }
          return true;
        }
        assert Contents[..i + 1] == Contents[..i] + [Contents[i]];
        current := current.next;
        i := i + 1;
      }
      assert Contents[..i] == Contents;
      return false;
    }

    /** `get(index)`. */
    method Get(index: int) returns (r: Result<T>)
      requires Valid()
      ensures r.Ok? <==> 0 <= index < |Contents|
      ensures r.Ok? ==> r.value == Contents[index]
      ensures r.Err? ==> r.error == IndexOutOfBounds(index, |Contents|)
    {
      var found, _ := GetNode(index);
      if found.Err? {
        return Err(found.error);
      }
      return Ok(found.value.data);
    }

    /** `set(index, element)`: unlike the array, the element is checked
        before the bounds; only position `index` changes. */
    method Set(index: int, element: Option<T>) returns (r: Outcome)
      requires Valid()
      modifies Repr
      ensures Valid() && Repr == old(Repr)
      ensures r == if element.None? then Fail(IllegalArgument(NullElement))
                   else if !(0 <= index < |old(Contents)|) then Fail(IndexOutOfBounds(index, |old(Contents)|))
                   else Pass
      ensures r.Fail? ==> Repr == old(Repr) && unchanged(Repr)
      ensures r.Pass? ==> Contents == old(Contents)[index := element.value]
    {
      if element.None? {
        return Fail(IllegalArgument(NullElement));
      }
      var found, _ := GetNode(index);
      if found.Err? {
        return Fail(found.error);
      }
      found.value.data := element.value;
      Contents := Contents[index := element.value];
      r := Pass;
    }

    /** `getNode(index)`: walk from the head when `index < size / 2`, else
        from the tail; `hops` counts the links followed, never more than
        half the list. */
    method GetNode(index: int) returns (r: Result<Node<T>>, ghost hops: nat)
      requires Valid()
      ensures r == if 0 <= index < |Nodes| then Ok(Nodes[index]) else Err(IndexOutOfBounds(index, |Nodes|))
      ensures r.Ok? ==> hops == if index < |Nodes| / 2 then index else |Nodes| - 1 - index
      ensures r.Ok? ==> 2 * hops <= |Nodes|
    {
      hops := 0;
      if index < 0 || index >= size {
        return Err(IndexOutOfBounds(index, size)), hops;
      }
      var current: Node?<T>;
      if index < size / 2 {
        current := head;
        for i := 0 to index
          invariant current == Nodes[i] && hops == i
        {
          current := current.next;
          hops := hops + 1;
        }
      } else {
        current := tail;
        var i := size - 1;
        while i > index
          invariant index <= i < size && current == Nodes[i]
          invariant hops == size - 1 - i
        {
          current := current.prev;
          hops := hops + 1;
          i := i - 1;
        }
      }
      return Ok(current), hops;
    }

    /** `contains(element)`. */
    method Contains(element: T) returns (b: bool)
      requires Valid()
      ensures b <==> element in Contents
    {
      var current := head;
      ghost var i := 0;
      while current != null
        invariant Valid() && unchanged(Repr)
        invariant 0 <= i <= |Nodes|
        invariant current == if i < |Nodes| then Nodes[i] else null
        invariant element !in Contents[..i]
        decreases |Nodes| - i
      {
        if current.data == element {
          return true;
        }
        assert Contents[..i + 1] == Contents[..i] + [Contents[i]];
        current := current.next;
        i := i + 1;
      }
      assert Contents[..i] == Contents;
      return false;
    }

    /** `indexOf(element)`: the first position holding `element`, or -1. */
    method IndexOf(element: T) returns (index: int)
      requires Valid()
      ensures index == FirstIndex(Contents, element)
    {
      var current := head;
      index := 0;
      while current != null
        invariant Valid() && unchanged(Repr)
        invariant 0 <= index <= |Nodes|
        invariant current == if index < |Nodes| then Nodes[index] else null
        invariant element !in Contents[..index]
        decreases |Nodes| - index
      {
        if current.data == element {
          return index;
        }
        assert Contents[..index + 1] == Contents[..index] + [Contents[index]];
        current := current.next;
        index := index + 1;
      }
      assert Contents[..index] == Contents;
      return -1;
    }

    /** `clear`: drop every node. */
    method Clear()
      requires Valid()
      modifies this
      ensures Valid() && Repr == {this}
      ensures Contents == [] && head == null && tail == null
    {
      head, tail, size := null, null, 0;
      Contents, Nodes := [], [];
      Repr := {this};
    }

    /** `size()`. */
    function Size(): (n: nat)
      reads this, Repr
      requires Valid()
      ensures n == |Contents|
    {
      size
    }

    /** `isEmpty()`. */
    function IsEmpty(): (b: bool)
      reads this, Repr
      requires Valid()
      ensures b <==> Contents == []
    {
      size == 0
    }

    /** `getFirst()`: IllegalStateException on an empty list. */
    function GetFirst(): (r: Result<T>)
      reads this, Repr
      requires Valid()
      ensures Contents == [] ==> r == Err(IllegalState)
      ensures Contents != [] ==> r == Ok(Contents[0])
    {
      if size == 0 then Err(IllegalState) else Ok(head.data)
    }

    /** `getLast()`: IllegalStateException on an empty list. */
    function GetLast(): (r: Result<T>)
      reads this, Repr
      requires Valid()
      ensures Contents == [] ==> r == Err(IllegalState)
      ensures Contents != [] ==> r == Ok(Contents[|Contents| - 1])
    {
      if size == 0 then Err(IllegalState) else Ok(tail.data)
    }
  }
}
