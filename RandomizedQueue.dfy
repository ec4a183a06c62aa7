/** `RandomizedQueue`: a resizing array whose live items sit in slots
    `0 .. n-1`, with `tail` the last occupied slot (0 when empty). Java's
    `null` slots are `None`; the random index `StdRandom.uniform(n)` is a
    parameter with the range that call guarantees. */
module RandomizedQueues {
  import opened Common

  /** Slots `0 .. |items|-1` hold the items in order and every later slot
      is empty. */
  ghost predicate Layout<T>(a: array<Option<T>>, items: seq<T>)
    reads a
  {
    |items| <= a.Length &&
    forall i | 0 <= i < a.Length :: a[i] == (if i < |items| then Some(items[i]) else None)
  }

  /** The capacity after `k` enqueues from empty: the array starts at one
      slot and doubles whenever it fills up. */
  function Capacity(k: nat): nat {
    if k == 0 then 1
    else if k == Capacity(k - 1) then 2 * Capacity(k - 1)
    else Capacity(k - 1)
  }

  /** Doubling on a full array keeps the capacity above the count and
      never more than twice it. */
  lemma {:induction false} CapacityBounds(k: nat)
    ensures k < Capacity(k)
    ensures k > 0 ==> Capacity(k) <= 2 * k
  {
    if k > 0 {
      CapacityBounds(k - 1);
    }
  }

  class RandomizedQueue<T> {
    var queue: array<Option<T>>
    var n: int
    var tail: int
    ghost var contents: seq<T>

    ghost predicate Valid()
      reads this, queue
    {
      && n == |contents|
      && n < queue.Length
      && tail == (if n == 0 then 0 else n - 1)
      && Layout(queue, contents)
    }

    constructor ()
      ensures Valid() && fresh(queue) && contents == [] && queue.Length == 1
    {
      queue := new Option<T>[1](_ => None);
      n := 0;
      tail := 0;
      contents := [];
    }

    function IsEmpty(): (b: bool)
      reads this, queue
      requires Valid()
      ensures b <==> contents == []
    {
      n == 0
    }

    function Size(): (s: int)
      reads this, queue
      requires Valid()
      ensures s == |contents|
    {
      n
    }

    method Enqueue(item: Option<T>) returns (o: Outcome)
      requires Valid()
      modifies this, queue
      ensures Valid() && (queue == old(queue) || fresh(queue))
      ensures item.None? ==> o == Fail(IllegalArgument) && contents == old(contents) && queue == old(queue)
      ensures item.Some? ==> o == Pass && contents == old(contents) + [item.value]
      ensures item.Some? ==>
        queue.Length == (if old(n) + 1 == old(queue.Length) then 2 * old(queue.Length) else old(queue.Length))
    {
      if item.None? {
        return Fail(IllegalArgument);
      }
      queue[n] := item;
      n := n + 1;
      contents := contents + [item.value];
      if n > 1 {
        tail := tail + 1;
      }
      if queue.Length == n {
        Resize(queue.Length * 2);
      }
      return Pass;
    }

    method Dequeue(r: int) returns (res: Result<T>)
      requires Valid()
      requires n > 0 ==> 0 <= r < n
      modifies this, queue
      ensures Valid() && (queue == old(queue) || fresh(queue))
      ensures old(n) == 0 ==> res == Failure(NoSuchElement) && contents == old(contents)
      ensures old(n) > 0 ==>
        && res == Success(old(contents)[r])
        && contents == old(contents)[r := old(contents)[old(n) - 1]][..old(n) - 1]
        && multiset(contents) == multiset(old(contents)) - multiset{old(contents)[r]}
      ensures old(n) > 0 ==>
        queue.Length == (if old(n) - 1 > 0 && old(n) - 1 == old(queue.Length) / 4 then old(queue.Length) / 2 else old(queue.Length))
    {
      if n == 0 {
        return Failure(NoSuchElement);
      }
      ghost var before := contents;
      var toRemove := queue[r];
      queue[r] := queue[tail];
      queue[tail] := None;
      n := n - 1;
      if tail > 0 {
        tail := tail - 1;
      }
      contents := before[r := before[n]][..n];
      MovedLast(before, r);
      if n > 0 && n == queue.Length / 4 {
        Resize(queue.Length / 2);
      }
      return Success(toRemove.value);
    }

    /** Copies every occupied slot into a new array of `capacity` slots,
        each at its own index. */
    method Resize(capacity: int)
      requires Layout(queue, contents) && |contents| < capacity
      modifies this
      ensures fresh(queue) && queue.Length == capacity
      ensures Layout(queue, contents)
      ensures n == old(n) && tail == old(tail) && contents == old(contents)
    {
      var smaller := new Option<T>[capacity](_ => None);
      var current := queue;
      for i := 0 to current.Length
        modifies smaller
        invariant forall k | 0 <= k < capacity ::
          smaller[k] == (if k < i && k < |contents| then Some(contents[k]) else None)
      {
        if current[i].Some? {
          smaller[i] := current[i];
        }
      }
      queue := smaller;
    }

    /** `sample` with the random index `r`: an item of the queue, and
        nothing changes (it is a function). */
    function Sample(r: int): (res: Result<T>)
      reads this, queue
      requires Valid()
      requires n > 0 ==> 0 <= r < n
      ensures n == 0 ==> res == Failure(NoSuchElement)
      ensures n > 0 ==> res.Success? && res.value in contents && res.value == contents[r]
    {
      if n == 0 then Failure(NoSuchElement) else Success(queue[r].value)
    }
  }

  /** Moving the last item into slot `r` and dropping the last slot
      removes exactly the item at `r`. */
  lemma MovedLast<T>(s: seq<T>, r: int)
    requires 0 <= r < |s|
    ensures multiset(s[r := s[|s| - 1]][..|s| - 1]) == multiset(s) - multiset{s[r]}
  {
    var last := |s| - 1;
    var t := s[r := s[last]];
    assert s == s[..last] + [s[last]];
    assert t == t[..last] + [t[last]];
    if r < last {
      assert t[..last] == s[..last][r := s[last]];
      assert multiset(t[..last]) == multiset(s[..last]) - multiset{s[r]} + multiset{s[last]};
    }
  }

  /** The self-test's ten enqueues from empty: size 10, `tail` 9 and, by
      the doubling rule, 16 slots; then dequeuing everything leaves size 0
      and `tail` 0. */
  method TenEnqueuesScenario() returns (size: int, tail: int, length: int, finalSize: int, finalTail: int)
    ensures size == 10 && tail == 9 && length == 16
    ensures finalSize == 0 && finalTail == 0
  {
    var q := new RandomizedQueue<int>();
    for i := 0 to 10
      invariant q.Valid() && fresh(q.queue) && q.n == i && q.queue.Length == Capacity(i)
    {
      var _ := q.Enqueue(Some(i));
    }
    assert Capacity(10) == 16 by {
      assert Capacity(1) == 2 && Capacity(2) == 4 && Capacity(3) == 4 && Capacity(4) == 8;
      assert Capacity(7) == 8 && Capacity(8) == 16 && Capacity(9) == 16;
    }
    size, tail, length := q.Size(), q.tail, q.queue.Length;
    while q.n > 0
      invariant q.Valid() && fresh(q.queue)
      decreases q.n
    {
      var _ := q.Dequeue(0);
    }
    finalSize, finalTail := q.Size(), q.tail;
  }
}
