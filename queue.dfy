/** The two queues of src/lfs/queue.rs, in one thread.

    `LockFreeQueue` is a linked list headed by a sentinel node: `head` is the sentinel, the
    nodes after it hold the values, and `tail` is the last node or, after a failed tail swing,
    the one before it. In one thread every compare-and-swap inside a retry loop eventually
    succeeds, so each loop is modelled by the iterations that change state; the one swing whose
    failure the source tolerates (the last step of `enqueue`) is a parameter. Freeing a node is
    logged in `Freed`, and dropping a value in `Dropped`.

    `BoundedLockFreeQueue` is a ring buffer of `capacity` slots, a power of two, indexed by the
    unbounded counters `head` and `tail` masked with `capacity - 1`. */
module Queue {
  import opened Wrappers
  import opened Bits
  import opened Logs

  /** The values an `Option` holds: what dropping it drops. */
  function Held<T>(o: Option<T>): (r: seq<T>)
    ensures |r| == (if o.Some? then 1 else 0)
  {
    if o.Some? then [o.value] else []
  }

  class QNode<T> {
    var value: Option<T>
    var next: QNode?<T>

    constructor (value: Option<T>)
      ensures this.value == value && next == null
    {
      this.value := value;
      next := null;
    }
  }

  class LockFreeQueue<T> {
    var head: QNode<T>
    var tail: QNode<T>
    /** The chain from `head`: the sentinel first, then one node per value. */
    ghost var Nodes: seq<QNode<T>>
    ghost var Contents: seq<T>
    ghost var Dropped: seq<T>
    ghost var Freed: seq<QNode<T>>
    ghost var Repr: set<object>

    /** Head is the first node of a null-terminated chain without repeated nodes, and the nodes
        after the sentinel hold the values in order. */
    ghost predicate Chain()
      reads this`head, this`Nodes, this`Contents, this`Repr, Repr
    {
      |Nodes| == |Contents| + 1 &&
      (forall i :: 0 <= i < |Nodes| ==> Nodes[i] in Repr) &&
      head == Nodes[0] &&
      (forall i {:trigger Nodes[i].next} :: 0 <= i < |Nodes| - 1 ==> Nodes[i].next == Nodes[i + 1]) &&
      Nodes[|Nodes| - 1].next == null &&
      (forall i :: 0 <= i < |Contents| ==> Nodes[i + 1].value == Some(Contents[i])) &&
      (forall i, j :: 0 <= i < j < |Nodes| ==> Nodes[i] != Nodes[j])
    }

    /** The chain is well formed and the tail is its last node or lags one behind it, so it is
        reachable from the head. */
    ghost predicate Valid()
      reads this`head, this`tail, this`Nodes, this`Contents, this`Repr, Repr
    {
      Chain() &&
      (tail == Nodes[|Nodes| - 1] || (|Nodes| >= 2 && tail == Nodes[|Nodes| - 2]))
    }

    /** The sentinel holds no value. */
    ghost predicate SentinelEmpty()
      reads this`head, head
    {
      head.value == None
    }

    /** `new()`: head and tail are one empty sentinel. */
    constructor ()
      ensures Valid() && SentinelEmpty() && fresh(Repr)
      ensures head == tail && head.next == null
      ensures Contents == [] && Dropped == [] && Freed == []
    {
      var sentinel := new QNode(None);
      head := sentinel;
      tail := sentinel;
      Nodes := [sentinel];
      Contents := [];
      Dropped := [];
      Freed := [];
      Repr := {sentinel};
    }

    /** `is_empty()`: the sentinel has no successor. */
    function IsEmpty(): (r: bool)
      reads this`head, this`tail, this`Nodes, this`Contents, this`Repr, Repr
      requires Valid()
      ensures r <==> Contents == []
    {
      assert |Nodes| > 1 ==> Nodes[0].next == Nodes[1];
      head.next == null
    }

    /** `enqueue(value)`: advance a lagging tail, link a fresh node after the last node, then
        try to swing the tail to it; `swingSucceeds` is the outcome of that last weak CAS. */
    method Enqueue(value: T, swingSucceeds: bool)
      requires Valid()
      modifies this, Repr
      ensures Valid() && fresh(Repr - old(Repr))
      ensures Contents == old(Contents) + [value]
      ensures Nodes[..|Nodes| - 1] == old(Nodes)
      ensures head == old(head) && head.value == old(head.value)
      ensures tail == Nodes[|Nodes| - (if swingSucceeds then 1 else 2)]
      ensures Dropped == old(Dropped) && Freed == old(Freed)
    {
      var node := new QNode(Some(value));
      CatchUpTail();
      Link(node);
      if swingSucceeds {
        tail := node;
      }
    }

    /** The compare-and-swap of `enqueue()` that succeeds on a tail without successor: the
        fresh node becomes the successor of the last node. */
    method Link(node: QNode<T>)
      requires Valid() && tail == Nodes[|Nodes| - 1]
      requires node !in Repr && node.next == null && node.value.Some?
      modifies this`Nodes, this`Contents, this`Repr, tail`next
      ensures Nodes == old(Nodes) + [node] && Contents == old(Contents) + [node.value.value]
      ensures Valid() && tail == Nodes[|Nodes| - 2]
      ensures Repr == old(Repr) + {node}
    {
      ghost var before := Nodes;
      assert forall i :: 0 <= i < |before| - 1 ==> before[i] != tail;
      tail.next := node;
      Nodes, Contents, Repr := Nodes + [node], Contents + [node.value.value], Repr + {node};
    }

    /** The retry loop of `enqueue()` while the tail has a successor: swing the tail forward
        until it is the last node. */
    method CatchUpTail()
      requires Valid()
      modifies this`tail
      ensures Valid() && tail == Nodes[|Nodes| - 1]
    {
      ghost var t := if tail == Nodes[|Nodes| - 1] then |Nodes| - 1 else |Nodes| - 2;
      while tail.next != null
        invariant Chain() && 0 <= t < |Nodes| && tail == Nodes[t]
        decreases |Nodes| - t
      {
        tail := tail.next;
        t := t + 1;
      }
    }

    /** `dequeue()` as written. With head == tail: None when the sentinel has no successor,
        otherwise the lagging tail is advanced first. Then the head moves to the sentinel's
        successor, whose value is read out and returned but left in place, so that node becomes
        a sentinel still holding the returned value; the old sentinel is freed and its value
        dropped. */
    method Dequeue() returns (r: Option<T>)
      requires Valid()
      modifies this
      ensures Valid() && Repr == old(Repr)
      ensures old(Contents) == [] ==>
        r == None && Contents == [] && Nodes == old(Nodes) && tail == old(tail) &&
        Dropped == old(Dropped) && Freed == old(Freed)
      ensures old(Contents) != [] ==>
        r == Some(old(Contents)[0]) && Contents == old(Contents)[1..] && Nodes == old(Nodes)[1..] &&
        head == old(head.next) && tail == (if old(tail) == old(head) then head else old(tail)) &&
        head.value == r && Dropped == old(Dropped) + Held(old(head.value)) &&
        Freed == old(Freed) + [old(head)]
    {
      var h := head;
      var next := h.next;
      if h == tail {
        if next == null {
          return None;
        }
        tail := next;
      }
      assert Nodes[0].next == Nodes[1];
      head := next;
      r := next.value;
      Dropped := Dropped + Held(h.value);
      Freed := Freed + [h];
      Nodes := Nodes[1..];
      Contents := Contents[1..];
      assert forall i :: 0 <= i < |Nodes| ==> Nodes[i] == old(Nodes)[i + 1];
    }

    /** `dequeue()` with the value moved out of the new sentinel (leaving None there), so that
        freeing a sentinel never drops a value that was handed out. */
    method DequeueTake() returns (r: Option<T>)
      requires Valid() && SentinelEmpty()
      modifies this, Repr
      ensures Valid() && SentinelEmpty() && Repr == old(Repr)
      ensures old(Contents) == [] ==>
        r == None && Contents == [] && Nodes == old(Nodes) && tail == old(tail) && Freed == old(Freed)
      ensures old(Contents) != [] ==>
        r == Some(old(Contents)[0]) && Contents == old(Contents)[1..] && Nodes == old(Nodes)[1..] &&
        head == old(head.next) && tail == (if old(tail) == old(head) then head else old(tail)) &&
        Freed == old(Freed) + [old(head)]
      ensures Dropped == old(Dropped)
    {
      var h := head;
      var next := h.next;
      if h == tail {
        if next == null {
          return None;
        }
        tail := next;
      }
      assert Nodes[0].next == Nodes[1];
      head := next;
      r := next.value;
      next.value := None;
      Freed := Freed + [h];
      Nodes := Nodes[1..];
      Contents := Contents[1..];
      assert forall i :: 0 <= i < |Nodes| ==> Nodes[i] == old(Nodes)[i + 1];
    }

    /** One round of the loop in `Drop`: `dequeue()` as written, then the returned value is
        dropped. */
    method DequeueAndDrop() returns (more: bool)
      requires Valid()
      modifies this
      ensures Valid() && Repr == old(Repr)
      ensures more <==> old(Contents) != []
      ensures !more ==>
        Contents == [] && Nodes == old(Nodes) && head == old(head) &&
        Dropped == old(Dropped) && Freed == old(Freed)
      ensures more ==>
        Contents == old(Contents)[1..] && Nodes == old(Nodes)[1..] && Freed == old(Freed) + [old(head)] &&
        head.value == Some(old(Contents)[0]) &&
        Dropped == old(Dropped) + Held(old(head.value)) + [old(Contents)[0]]
    {
      var r := Dequeue();
      more := r.Some?;
      if more {
        Dropped := Dropped + [r.value];
      }
    }

    /** The loop of `Drop` as written: `DequeueAndDrop` until the queue is empty. The nodes
        that held the values are freed front to back and the last one is left as the
        sentinel; every value but the last has been dropped twice, after the sentinel's first
        value, and the last has been dropped once and stays in the sentinel. */
    method DropAll()
      requires Valid()
      modifies this, Repr
      ensures Valid() && Repr == old(Repr) && Contents == [] && Nodes == [head]
      ensures Freed + [head] == old(Freed) + old(Nodes)
      ensures Dropped + Held(head.value) == old(Dropped) + Held(old(head.value)) + Doubled(old(Contents))
    {
      ghost var values, nodes, first := Contents, Nodes, Held(head.value);
      ghost var k := 0;
      var more := true;
      while more
        invariant Valid() && Repr == old(Repr)
        invariant k <= |values| && Contents == values[k..] && Nodes == nodes[k..]
        invariant !more ==> Contents == []
        invariant Freed == old(Freed) + nodes[..k]
        invariant Dropped + Held(head.value) == old(Dropped) + first + Doubled(values[..k])
        decreases |Contents| + (if more then 1 else 0)
      {
        more := DequeueAndDrop();
        if more {
          DoubledPrefix(values, k);
          PrefixStep(nodes, k);
          k := k + 1;
        }
      }
      assert values[..k] == values && Nodes == [head];
      LastAfterPrefix(nodes, head);
    }

    /** `Drop` as written: dequeue until None, dropping each returned value, then free the
        sentinel. Every node is freed once, front to back. Every queued value is dropped twice:
        once as the returned value and once when the node that kept it as sentinel is freed;
        the value the sentinel held at the start is dropped once, first. */
    method Drain()
      requires Valid()
      modifies this, Repr
      ensures Freed == old(Freed) + old(Nodes)
      ensures Dropped == old(Dropped) + Held(old(head.value)) + Doubled(old(Contents))
    {
      DropAll();
      var sentinel := head;
      Dropped, Freed := Dropped + Held(sentinel.value), Freed + [sentinel];
    }

    /** `Drop` over the corrected `DequeueTake`: every node is freed exactly once, front to
        back, and every value is dropped exactly once. */
    method DrainTake()
      requires Valid() && SentinelEmpty()
      modifies this, Repr
      ensures Freed == old(Freed) + old(Nodes)
      ensures Dropped == old(Dropped) + old(Contents)
    {
      ghost var nodes := Nodes;
      var discarded := DequeueAllTake();
      var sentinel := head;
      LastAfterPrefix(nodes, sentinel);
      // The sentinel holds no value, so freeing it drops nothing.
      Dropped, Freed := Dropped + discarded, Freed + [sentinel];
    }

    /** Enqueues `values` front to back; `swings[i]` is the outcome of the `i`-th tail swing. */
    method EnqueueAll(values: seq<T>, swings: seq<bool>)
      requires Valid() && |swings| == |values|
      modifies this, Repr
      ensures Valid() && fresh(Repr - old(Repr))
      ensures Contents == old(Contents) + values
      ensures head == old(head) && head.value == old(head.value)
      ensures Dropped == old(Dropped) && Freed == old(Freed)
    {
      var i := 0;
      while i < |values|
        invariant Valid() && fresh(Repr - old(Repr))
        invariant i <= |values|
        invariant Contents == old(Contents) + values[..i]
        invariant head == old(head) && head.value == old(head.value)
        invariant Dropped == old(Dropped) && Freed == old(Freed)
      {
        assert values[..i + 1] == values[..i] + [values[i]];
        Enqueue(values[i], swings[i]);
        i := i + 1;
      }
      assert values[..i] == values;
    }

    /** Dequeues with `dequeue()` as written until it returns None, collecting the values; the
        nodes that held them are freed front to back and the last one is left as the sentinel.
        Every collected value except the last has also been dropped, with the sentinel's first
        value ahead of them, and the last stays in the sentinel. */
    method DequeueAll() returns (taken: seq<T>)
      requires Valid()
      modifies this, Repr
      ensures Valid() && Repr == old(Repr)
      ensures taken == old(Contents) && Contents == []
      ensures Nodes == old(Nodes)[|old(Contents)|..]
      ensures Freed == old(Freed) + old(Nodes)[..|old(Contents)|]
      ensures Dropped + Held(head.value) == old(Dropped) + Held(old(head.value)) + taken
    {
      ghost var values, nodes, first := Contents, Nodes, Held(head.value);
      taken := [];
      var more := true;
      while more
        invariant Valid() && Repr == old(Repr)
        invariant |taken| <= |values| && taken == values[..|taken|]
        invariant Contents == values[|taken|..] && Nodes == nodes[|taken|..]
        invariant Freed == old(Freed) + nodes[..|taken|]
        invariant !more ==> Contents == []
        invariant Dropped + Held(head.value) == old(Dropped) + first + taken
        decreases |Contents| + (if more then 1 else 0)
      {
        var r := Dequeue();
        more := r.Some?;
        if more {
          PrefixStep(values, |taken|);
          PrefixStep(nodes, |taken|);
          taken := taken + [r.value];
        }
      }
    }

    /** `DequeueAll` over the corrected `DequeueTake`: the collected values are not dropped. */
    method DequeueAllTake() returns (taken: seq<T>)
      requires Valid() && SentinelEmpty()
      modifies this, Repr
      ensures Valid() && SentinelEmpty() && Repr == old(Repr)
      ensures taken == old(Contents) && Contents == []
      ensures Nodes == old(Nodes)[|old(Contents)|..]
      ensures Freed == old(Freed) + old(Nodes)[..|old(Contents)|]
      ensures Dropped == old(Dropped)
    {
      ghost var values, nodes, freed := Contents, Nodes, Freed;
      taken := [];
      var more := true;
      while more
        invariant Valid() && SentinelEmpty() && Repr == old(Repr)
        invariant |taken| <= |values| && taken == values[..|taken|]
        invariant Contents == values[|taken|..] && Nodes == nodes[|taken|..]
        invariant Freed == freed + nodes[..|taken|]
        invariant !more ==> Contents == []
        invariant Dropped == old(Dropped)
        decreases |Contents| + (if more then 1 else 0)
      {
        var r := DequeueTake();
        more := r.Some?;
        if more {
          PrefixStep(values, |taken|);
          PrefixStep(nodes, |taken|);
          taken := taken + [r.value];
        }
      }
    }

    /** The FIFO law for `enqueue()` and `dequeue()` as written: after enqueueing `values`,
        dequeueing everything returns the values that were already queued followed by
        `values`, whichever tail swings fail. */
    method EnqueueAllDequeueAll(values: seq<T>, swings: seq<bool>) returns (taken: seq<T>)
      requires Valid() && |swings| == |values|
      modifies this, Repr
      ensures Valid() && fresh(Repr - old(Repr))
      ensures taken == old(Contents) + values && Contents == []
      ensures Dropped + Held(head.value) == old(Dropped) + Held(old(head.value)) + taken
    {
      EnqueueAll(values, swings);
      taken := DequeueAll();
    }

    /** The FIFO law over the corrected `DequeueTake`, where no value handed out is dropped. */
    method EnqueueAllDequeueAllTake(values: seq<T>, swings: seq<bool>) returns (taken: seq<T>)
      requires Valid() && SentinelEmpty() && |swings| == |values|
      modifies this, Repr
      ensures Valid() && SentinelEmpty() && fresh(Repr - old(Repr))
      ensures taken == old(Contents) + values && Contents == []
      ensures Dropped == old(Dropped)
    {
      EnqueueAll(values, swings);
      taken := DequeueAllTake();
    }
  }

  /** A prefix one longer is the prefix followed by the next element, and the suffix after
      it is the tail of the suffix. */
  lemma PrefixStep<X>(s: seq<X>, k: nat)
    requires k < |s|
    ensures s[..k + 1] == s[..k] + [s[k]] && s[k..][0] == s[k] && s[k..][1..] == s[k + 1..]
  {
  }

  /** A non-empty sequence is its prefix without the last element followed by that element. */
  lemma LastAfterPrefix<X>(s: seq<X>, last: X)
    requires |s| > 0 && s[|s| - 1] == last
    ensures s[..|s| - 1] + [last] == s
  {
  }

  /** A witness for `dequeue()` as written: enqueue 1 and 2 and dequeue twice. Both values are
      returned, and the second dequeue frees the node the first one turned into the sentinel,
      dropping the value 1 that the first dequeue had already handed out. */
  method DequeueDropsReturnedValue() returns (q: LockFreeQueue<int>, r1: Option<int>, r2: Option<int>)
    ensures q.Valid() && q.Contents == []
    ensures r1 == Some(1) && r2 == Some(2) && q.Dropped == [1]
  {
    q := new LockFreeQueue();
    q.Enqueue(1, true);
    q.Enqueue(2, false);
    r1 := q.Dequeue();
    r2 := q.Dequeue();
  }

  /** Two counters less than `capacity` apart land in different slots. */
  lemma DistinctSlots(k1: int, k2: int, capacity: int)
    requires capacity > 0 && k1 < k2 < k1 + capacity
    ensures k1 % capacity != k2 % capacity
  {
    var q1, q2 := k1 / capacity, k2 / capacity;
    var d := q2 - q1;
    assert k2 - k1 == d * capacity + (k2 % capacity - k1 % capacity);
    if d >= 1 {
      assert d * capacity >= capacity;
    }
  }

  /** A counter and the counter one lap later share a slot. */
  lemma SameSlotNextLap(k: int, capacity: int)
    requires capacity > 0
    ensures (k + capacity) % capacity == k % capacity
  {
    Arith.ModAddMultiple(1, k, capacity);
  }

  /** When no counter in a full lap from `head` addresses a value, no slot holds one. */
  lemma EmptyRingAllNone<T>(slots: seq<Option<T>>, head: nat)
    requires |slots| > 0
    requires forall k :: head <= k < head + |slots| ==> slots[k % |slots|] == None
    ensures forall i :: 0 <= i < |slots| ==> slots[i] == None
  {
    var capacity := |slots|;
    forall i | 0 <= i < capacity
      ensures slots[i] == None
    {
      var q := head / capacity;
      var lap := if q * capacity + i >= head then q else q + 1;
      var k := lap * capacity + i;
      assert head <= k < head + capacity;
      Arith.ModUnique(k, capacity, lap, i);
    }
  }

  /** `a.saturating_sub(b)` on `usize`. */
  function SaturatingSub(a: nat, b: nat): (r: nat)
    ensures a >= b ==> r + b == a
    ensures a < b ==> r == 0
  {
    if a >= b then a - b else 0
  }

  class BoundedLockFreeQueue<T> {
    const buffer: array<Option<T>>
    const capacity: nat
    var head: nat
    var tail: nat
    ghost var Contents: seq<T>
    ghost var Dropped: seq<T>

    /** The capacity is a power of two and the buffer has that many slots; at most `capacity`
        values are held; counter `k` in `[head, tail)` holds the value `Contents[k - head]` in
        slot `k % capacity`, and every other slot is None. */
    ghost predicate Valid()
      reads this, buffer
    {
      IsPowerOfTwo(capacity) && buffer.Length == capacity &&
      head <= tail <= head + capacity && |Contents| == tail - head &&
      (forall k :: head <= k < tail ==> buffer[k % capacity] == Some(Contents[k - head])) &&
      (forall k :: tail <= k < head + capacity ==> buffer[k % capacity] == None)
    }

    /** `new(c)`: capacity is `c` rounded up to a power of two, every slot is None and both
        counters are 0. */
    constructor (c: nat)
      ensures Valid() && fresh(buffer)
      ensures capacity == NextPowerOfTwo(c) && head == 0 && tail == 0
      ensures Contents == [] && Dropped == []
      ensures forall i :: 0 <= i < buffer.Length ==> buffer[i] == None
    {
      var n := NextPowerOfTwo(c);
      capacity := n;
      buffer := new Option<T>[n](_ => None);
      head := 0;
      tail := 0;
      Contents := [];
      Dropped := [];
    }

    /** `capacity()`. */
    function Capacity(): (r: nat)
      reads this, buffer
      requires Valid()
      ensures IsPowerOfTwo(r) && r == buffer.Length && |Contents| <= r
    {
      capacity
    }

    /** `len()`: `tail - head`, saturating at 0. */
    function Len(): (r: nat)
      reads this, buffer
      requires Valid()
      ensures r == |Contents|
    {
      SaturatingSub(tail, head)
    }

    /** `is_empty()`. */
    function IsEmpty(): (r: bool)
      reads this, buffer
      requires Valid()
      ensures r <==> Contents == []
    {
      head >= tail
    }

    /** `is_full()`. */
    function IsFull(): (r: bool)
      reads this, buffer
      requires Valid()
      ensures r <==> |Contents| == capacity
    {
      tail - head >= capacity
    }

    /** `enqueue(value)`: `Err(value)` when full, with nothing changed; otherwise the value goes
        into slot `tail & (capacity - 1)` and `tail` advances. */
    method Enqueue(value: T) returns (r: Result<(), T>)
      requires Valid()
      modifies this, buffer
      ensures Valid() && head == old(head) && Dropped == old(Dropped)
      ensures old(|Contents|) == capacity ==>
        r == Failure(value) && Contents == old(Contents) && tail == old(tail) && buffer[..] == old(buffer[..])
      ensures old(|Contents|) < capacity ==>
        r == Success(()) && Contents == old(Contents) + [value] && tail == old(tail) + 1
    {
      var mask := capacity - 1;
      var t := tail;
      if t - head >= capacity {
        return Failure(value);
      }
      tail := t + 1;
      var index := BitAnd(t, mask);
      MaskIsMod(t, capacity);
      buffer[index] := Some(value);
      Contents := Contents + [value];
      forall k | head <= k < t
        ensures buffer[k % capacity] == Some(Contents[k - head])
      {
        DistinctSlots(k, t, capacity);
      }
      forall k | tail <= k < head + capacity
        ensures buffer[k % capacity] == None
      {
        DistinctSlots(t, k, capacity);
      }
      r := Success(());
    }

    /** `dequeue()`: None when `head >= tail`; otherwise takes the value out of slot
        `head & (capacity - 1)`, leaving None, and advances `head`. */
    method Dequeue() returns (r: Option<T>)
      requires Valid()
      modifies this, buffer
      ensures Valid() && tail == old(tail) && Dropped == old(Dropped)
      ensures old(Contents) == [] ==> r == None && Contents == [] && head == old(head)
      ensures old(Contents) != [] ==>
        r == Some(old(Contents)[0]) && Contents == old(Contents)[1..] && head == old(head) + 1
    {
      var mask := capacity - 1;
      var h := head;
      if h >= tail {
        return None;
      }
      head := h + 1;
      var index := BitAnd(h, mask);
      MaskIsMod(h, capacity);
      r := buffer[index];
      buffer[index] := None;
      Contents := Contents[1..];
      forall k | head <= k < tail
        ensures buffer[k % capacity] == Some(Contents[k - head])
      {
        DistinctSlots(h, k, capacity);
      }
      forall k | tail <= k < head + capacity
        ensures buffer[k % capacity] == None
      {
        if k < h + capacity {
          DistinctSlots(h, k, capacity);
        } else {
          SameSlotNextLap(h, capacity);
        }
      }
    }

    /** `Drop`: dequeue until None, discarding each value, then release the slots, which
        then all hold None, so every value is dropped exactly once, oldest first. */
    method Drain()
      requires Valid()
      modifies this, buffer
      ensures Valid() && Contents == []
      ensures Dropped == old(Dropped) + old(Contents)
      ensures forall i :: 0 <= i < buffer.Length ==> buffer[i] == None
    {
      var more := true;
      while more
        invariant Valid()
        invariant |old(Dropped)| <= |Dropped| && Dropped[..|old(Dropped)|] == old(Dropped)
        invariant old(Contents) == Dropped[|old(Dropped)|..] + Contents
        invariant !more ==> Contents == []
        decreases |Contents| + (if more then 1 else 0)
      {
        var r := Dequeue();
        more := r.Some?;
        if more {
          Dropped := Dropped + [r.value];
        }
      }
      assert Dropped == Dropped[..|old(Dropped)|] + Dropped[|old(Dropped)|..];
      EmptyRingAllNone(buffer[..], head);
    }

    /** Enqueues `values` front to back into a queue with room for all of them. */
    method EnqueueAll(values: seq<T>)
      requires Valid() && |Contents| + |values| <= capacity
      modifies this, buffer
      ensures Valid() && Contents == old(Contents) + values && Dropped == old(Dropped)
    {
      var i := 0;
      while i < |values|
        invariant Valid() && i <= |values|
        invariant Contents == old(Contents) + values[..i] && Dropped == old(Dropped)
      {
        assert values[..i + 1] == values[..i] + [values[i]];
        var r := Enqueue(values[i]);
        i := i + 1;
      }
      assert values[..i] == values;
    }

    /** Dequeues until `dequeue()` returns None, collecting the values. */
    method DequeueAll() returns (taken: seq<T>)
      requires Valid()
      modifies this, buffer
      ensures Valid() && taken == old(Contents) && Contents == [] && Dropped == old(Dropped)
    {
      taken := [];
      var more := true;
      while more
        invariant Valid() && old(Contents) == taken + Contents && Dropped == old(Dropped)
        invariant !more ==> Contents == []
        decreases |Contents| + (if more then 1 else 0)
      {
        var r := Dequeue();
        more := r.Some?;
        if more {
          taken := taken + [r.value];
        }
      }
    }

    /** The FIFO law: values that fit are dequeued in the order they were enqueued. */
    method EnqueueAllDequeueAll(values: seq<T>) returns (taken: seq<T>)
      requires Valid() && |Contents| + |values| <= capacity
      modifies this, buffer
      ensures Valid() && taken == old(Contents) + values && Contents == []
    {
      EnqueueAll(values);
      taken := DequeueAll();
    }
  }

  /** `BoundedLockFreeQueue::new(10)` has 16 slots: sixteen enqueues succeed and the
      seventeenth hands its value back. */
  method BoundedCapacityScenario() returns (q: BoundedLockFreeQueue<int>, r: Result<(), int>)
    ensures q.Valid() && q.Capacity() == 16 && |q.Contents| == 16 && q.IsFull()
    ensures r == Failure(17)
  {
    q := new BoundedLockFreeQueue(10);
    NextPowerOfTwoExamples();
    var i := 0;
    while i < 16
      invariant q.Valid() && q.capacity == 16 && i <= 16 && |q.Contents| == i
    {
      var ok := q.Enqueue(i);
      i := i + 1;
    }
    r := q.Enqueue(17);
  }
}
