/** `Deque`: a double-ended queue on a doubly linked list. The ghost
    `nodes` lists the list's nodes front to back and `contents` their
    items; `Valid` ties the `first`/`last` ends, the `prev`/`next` links
    and the counter `n` to them. */
module Deques {
  import opened Common

  class Node<T> {
    var item: T
    var prev: Node?<T>
    var next: Node?<T>

    constructor (item: T)
      ensures this.item == item && prev == null && next == null
    {
      this.item := item;
      prev := null;
      next := null;
    }
  }

  class Deque<T> {
    var first: Node?<T>
    var last: Node?<T>
    var n: int

    ghost var nodes: seq<Node<T>>
    ghost var contents: seq<T>
    ghost var Repr: set<Node<T>>

    ghost predicate Valid()
      reads this, Repr
    {
      && Repr == (set x | x in nodes)
      && |nodes| == |contents| == n
      && (n == 0 <==> first == null)
      && (n == 0 <==> last == null)
      && (n > 0 ==> first == nodes[0] && last == nodes[n - 1] && first.prev == null && last.next == null)
      && (forall i | 0 <= i < n :: nodes[i].item == contents[i])
      && (forall i | 0 <= i < n - 1 :: nodes[i].next == nodes[i + 1] && nodes[i + 1].prev == nodes[i])
      && (forall i, j | 0 <= i < j < n :: nodes[i] != nodes[j])
    }

    constructor ()
      ensures Valid() && fresh(Repr) && contents == []
    {
      first := null;
      last := null;
      n := 0;
      nodes := [];
      contents := [];
      Repr := {};
    }

    /** `isEmpty` looks at `first` only, which agrees with the counter. */
    function IsEmpty(): (b: bool)
      reads this, Repr
      requires Valid()
      ensures b <==> contents == []
      ensures b <==> n == 0
      ensures b <==> last == null
    {
      first == null
    }

    function Size(): (s: int)
      reads this, Repr
      requires Valid()
      ensures s == |contents|
    {
      n
    }

    method AddFirst(item: Option<T>) returns (o: Outcome)
      requires Valid()
      modifies this, Repr
      ensures Valid() && fresh(Repr - old(Repr))
      ensures item.None? ==> o == Fail(IllegalArgument) && contents == old(contents)
      ensures item.Some? ==> o == Pass && contents == [item.value] + old(contents) && n == old(n) + 1
    {
      if item.None? {
        return Fail(IllegalArgument);
      }
      var node := new Node(item.value);
      if first == null {
        first := node;
        last := node;
      } else {
        node.next := first;
        first.prev := node;
        first := node;
      }
      n := n + 1;
      nodes := [node] + nodes;
      contents := [item.value] + contents;
      Repr := Repr + {node};
      return Pass;
    }

    method AddLast(item: Option<T>) returns (o: Outcome)
      requires Valid()
      modifies this, Repr
      ensures Valid() && fresh(Repr - old(Repr))
      ensures item.None? ==> o == Fail(IllegalArgument) && contents == old(contents)
      ensures item.Some? ==> o == Pass && contents == old(contents) + [item.value] && n == old(n) + 1
    {
      if item.None? {
        return Fail(IllegalArgument);
      }
      var node := new Node(item.value);
      if last == null {
        first := node;
        last := node;
      } else {
        last.next := node;
        node.prev := last;
        last := last.next;
      }
      n := n + 1;
      nodes := nodes + [node];
      contents := contents + [item.value];
      Repr := Repr + {node};
      return Pass;
    }

    method RemoveFirst() returns (r: Result<T>)
      requires Valid()
      modifies this, Repr
      ensures Valid() && Repr <= old(Repr)
      ensures old(contents) == [] ==> r == Failure(NoSuchElement) && contents == old(contents)
      ensures old(contents) != [] ==>
        r == Success(old(contents)[0]) && contents == old(contents)[1..] && n == old(n) - 1
    {
      if n == 0 {
        return Failure(NoSuchElement);
      }
      var toRemove := first.item;
      assert n > 1 ==> first.next == nodes[1] && first.next in Repr;
      assert n == 1 ==> first.next == null;
      if first.next != null {
        first.next.prev := null;
      }
      ghost var gone := first;
      first := first.next;
      if first == null {
        last := null;
      }
      n := n - 1;
      nodes := nodes[1..];
      contents := contents[1..];
      Repr := Repr - {gone};
      return Success(toRemove);
    }

    method RemoveLast() returns (r: Result<T>)
      requires Valid()
      modifies this, Repr
      ensures Valid() && Repr <= old(Repr)
      ensures old(contents) == [] ==> r == Failure(NoSuchElement) && contents == old(contents)
      ensures old(contents) != [] ==>
        r == Success(old(contents)[|old(contents)| - 1]) &&
        contents == old(contents)[..|old(contents)| - 1] && n == old(n) - 1
    {
      if n == 0 {
        return Failure(NoSuchElement);
      }
      var toRemove := last.item;
      assert n > 1 ==> last.prev == nodes[n - 2] && last.prev in Repr;
      assert n == 1 ==> last.prev == null;
      if last.prev != null {
        last.prev.next := null;
      }
      ghost var gone := last;
      last := last.prev;
      if last == null {
        first := null;
      }
      n := n - 1;
      nodes := nodes[..n];
      contents := contents[..n];
      Repr := Repr - {gone};
      return Success(toRemove);
    }

    method Iterator() returns (it: DequeIterator<T>)
      requires Valid()
      ensures fresh(it) && it.Valid() && it.deque == this && it.index == 0
    {
      it := new DequeIterator(this);
    }
  }

  /** `DequeIterator`: walks the `next` links from `first`; `index` counts
      the items handed out so far. */
  class DequeIterator<T> {
    var curr: Node?<T>
    ghost const deque: Deque<T>
    ghost var index: nat

    ghost predicate Valid()
      reads this, deque, deque.Repr
    {
      && deque.Valid()
      && index <= |deque.contents|
      && curr == (if index < |deque.nodes| then deque.nodes[index] else null)
    }

    constructor (d: Deque<T>)
      requires d.Valid()
      ensures Valid() && deque == d && index == 0
    {
      curr := d.first;
      deque := d;
      index := 0;
    }

    function HasNext(): (b: bool)
      reads this, deque, deque.Repr
      requires Valid()
      ensures b <==> index < |deque.contents|
    {
      curr != null
    }

    /** `remove` is not supported. */
    function Remove(): (o: Outcome)
      ensures o.Fail? && o.error == UnsupportedOperation
    {
      Fail(UnsupportedOperation)
    }

    method Next() returns (r: Result<T>)
      requires Valid()
      modifies this
      ensures Valid()
      ensures old(index) < |deque.contents| ==> r == Success(deque.contents[old(index)]) && index == old(index) + 1
      ensures old(index) == |deque.contents| ==> r == Failure(NoSuchElement) && index == old(index)
    {
      if !HasNext() {
        return Failure(NoSuchElement);
      }
      var item := curr.item;
      curr := curr.next;
      index := index + 1;
      return Success(item);
    }
  }

  /** The deque's own self-test: `addFirst` of C, B and A, then three
      `removeFirst`s returning A, B and C and leaving both ends null. */
  method RemoveFirstScenario() returns (r1: Result<string>, r2: Result<string>, r3: Result<string>)
    ensures r1 == Success("A") && r2 == Success("B") && r3 == Success("C")
  {
    var d := new Deque<string>();
    var _ := d.AddFirst(Some("C"));
    var _ := d.AddFirst(Some("B"));
    var _ := d.AddFirst(Some("A"));
    assert d.contents == ["A", "B", "C"] && d.Size() == 3;
    assert d.first.item == "A" && d.last.item == "C";
    r1 := d.RemoveFirst();
    r2 := d.RemoveFirst();
    r3 := d.RemoveFirst();
    assert d.first == null && d.last == null && d.Size() == 0;
  }

  /** The second self-test: `addLast` of A, B and C, then three
      `removeLast`s returning C, B and A. */
  method RemoveLastScenario() returns (r1: Result<string>, r2: Result<string>, r3: Result<string>)
    ensures r1 == Success("C") && r2 == Success("B") && r3 == Success("A")
  {
    var d := new Deque<string>();
    var _ := d.AddLast(Some("A"));
    var _ := d.AddLast(Some("B"));
    var _ := d.AddLast(Some("C"));
    assert d.contents == ["A", "B", "C"];
    r1 := d.RemoveLast();
    assert d.last.item == "B" && d.last.next == null && d.last.prev.item == "A";
    r2 := d.RemoveLast();
    r3 := d.RemoveLast();
    assert d.first == null && d.last == null && d.Size() == 0;
  }
}
