/** The Treiber stack of src/lfs/stack.rs, in one thread: every compare-and-swap succeeds on
    its first attempt, so each retry loop runs its body once. The ghost log `Freed` records
    every node whose storage is released, and `Dropped` every value whose destructor runs. */
module Stack {
  import opened Wrappers
  import opened Logs

  class Node<T> {
    const value: T
    var next: Node?<T>

    constructor (value: T, next: Node?<T>)
      ensures this.value == value && this.next == next
    {
      this.value := value;
      this.next := next;
    }
  }

  /** `s` in the order it is popped back out after being pushed front to back. */
  function Reverse<T>(s: seq<T>): (r: seq<T>)
    ensures |r| == |s|
    decreases |s|
  {
    if s == [] then [] else [s[|s| - 1]] + Reverse(s[..|s| - 1])
  }

  lemma {:induction false} ReverseAt<T>(s: seq<T>, k: nat)
    requires k < |s|
    ensures |Reverse(s)| == |s| && Reverse(s)[k] == s[|s| - 1 - k]
    decreases |s|
  {
    if k > 0 {
      ReverseAt(s[..|s| - 1], k - 1);
    } else if |s| > 1 {
      ReverseAt(s[..|s| - 1], 0);
    }
  }

  lemma ReverseSnoc<T>(s: seq<T>, x: T)
    ensures Reverse(s + [x]) == [x] + Reverse(s)
  {
    assert (s + [x])[..|s|] == s;
  }

  /** Pushing one more value of `values` extends the reversed prefix on top. */
  lemma PushAllStep<T>(values: seq<T>, i: nat, rest: seq<T>)
    requires i < |values|
    ensures [values[i]] + (Reverse(values[..i]) + rest) == Reverse(values[..i + 1]) + rest
  {
    ReverseSnoc(values[..i], values[i]);
    assert values[..i + 1] == values[..i] + [values[i]];
  }

  class LockFreeStack<T> {
    var top: Node?<T>
    /** The chain of nodes from `top`, top first. */
    ghost var Nodes: seq<Node<T>>
    /** The values of the stack, top first. */
    ghost var Contents: seq<T>
    /** Values whose destructor has run, in order. */
    ghost var Dropped: seq<T>
    /** Nodes whose storage has been released, in order. */
    ghost var Freed: seq<Node<T>>
    ghost var Repr: set<object>

    /** The next-chain from `top` runs through `Nodes` without repeating a node and ends
        in null, and the values along it are `Contents`. */
    ghost predicate Valid()
      reads this`top, this`Nodes, this`Contents, this`Repr, Repr
    {
      |Nodes| == |Contents| &&
      (forall i :: 0 <= i < |Nodes| ==> Nodes[i] in Repr) &&
      top == (if |Nodes| == 0 then null else Nodes[0]) &&
      (forall i :: 0 <= i < |Nodes| ==> Nodes[i].value == Contents[i]) &&
      (forall i :: 0 <= i < |Nodes| - 1 ==> Nodes[i].next == Nodes[i + 1]) &&
      (|Nodes| > 0 ==> Nodes[|Nodes| - 1].next == null) &&
      (forall i, j :: 0 <= i < j < |Nodes| ==> Nodes[i] != Nodes[j])
    }

    /** `new()`: a null top. */
    constructor ()
      ensures Valid() && fresh(Repr)
      ensures top == null && Contents == [] && Dropped == [] && Freed == []
    {
      top := null;
      Nodes := [];
      Contents := [];
      Dropped := [];
      Freed := [];
      Repr := {};
    }

    /** `push(value)`: a fresh node whose next is the old top becomes the top. */
    method Push(value: T)
      requires Valid()
      modifies this
      ensures Valid() && fresh(Repr - old(Repr))
      ensures Contents == [value] + old(Contents)
      ensures fresh(top) && top.next == old(top) && Nodes == [top] + old(Nodes)
      ensures Dropped == old(Dropped) && Freed == old(Freed)
    {
      var node := new Node(value, null);
      node.next := top;
      top := node;
      Nodes := [node] + Nodes;
      Contents := [value] + Contents;
      Repr := Repr + {node};
      assert forall i :: 0 < i < |Nodes| ==> Nodes[i] == old(Nodes)[i - 1];
    }

    /** `pop()` as written: on a null top it returns None and changes nothing; otherwise the
        old top's next becomes the top, the value is read out of the old top, and the old top
        is freed together with its value, so the returned value has also been dropped. */
    method Pop() returns (r: Option<T>)
      requires Valid()
      modifies this
      ensures Valid() && Repr == old(Repr)
      ensures old(Contents) == [] ==>
        r == None && top == null && Contents == [] && Nodes == old(Nodes) &&
        Dropped == old(Dropped) && Freed == old(Freed)
      ensures old(Contents) != [] ==>
        r == Some(old(Contents)[0]) && top == old(top.next) &&
        Contents == old(Contents)[1..] && Nodes == old(Nodes)[1..] &&
        Dropped == old(Dropped) + [old(Contents)[0]] && Freed == old(Freed) + [old(top)]
    {
      r := PopTake();
      if r.Some? {
        Dropped := Dropped + [r.value];
      }
    }

    /** `pop()` with the value moved out of the old top before its storage is freed: the
        value is returned and not dropped. */
    method PopTake() returns (r: Option<T>)
      requires Valid()
      modifies this
      ensures Valid() && Repr == old(Repr) && Dropped == old(Dropped)
      ensures old(Contents) == [] ==>
        r == None && top == null && Contents == [] && Nodes == old(Nodes) && Freed == old(Freed)
      ensures old(Contents) != [] ==>
        r == Some(old(Contents)[0]) && top == old(top.next) &&
        Contents == old(Contents)[1..] && Nodes == old(Nodes)[1..] && Freed == old(Freed) + [old(top)]
    {
      var t := top;
      if t == null {
        return None;
      }
      var next := t.next;
      top := next;
      r := Some(t.value);
      Nodes := Nodes[1..];
      Contents := Contents[1..];
      Freed := Freed + [t];
      assert forall i :: 0 <= i < |Nodes| ==> Nodes[i] == old(Nodes)[i + 1];
    }

    /** `Drop` as written: pop until None, and drop each popped value. `pop()` has already
        dropped it once when it freed the node, so every value still on the stack is dropped
        twice, top first; every node is freed once, top first. */
    method Drain()
      requires Valid()
      modifies this
      ensures Valid() && Contents == []
      ensures Dropped == old(Dropped) + Doubled(old(Contents))
      ensures Freed == old(Freed) + old(Nodes)
    {
      ghost var values, nodes := Contents, Nodes;
      ghost var k := 0;
      var more := true;
      while more
        invariant Valid() && Repr == old(Repr)
        invariant k <= |values|
        invariant Contents == values[k..] && Nodes == nodes[k..]
        invariant !more ==> Contents == []
        invariant Dropped == old(Dropped) + Doubled(values[..k])
        invariant Freed == old(Freed) + nodes[..k]
        decreases |Contents| + (if more then 1 else 0)
      {
        more := PopAndDrop();
        if more {
          DoubledPrefix(values, k);
          PrefixStep(nodes, k);
          k := k + 1;
        }
      }
      assert values[..k] == values && nodes[..k] == nodes;
    }

    /** One round of the loop in `Drop`: `pop()` as written, then the returned value is
        dropped too. */
    method PopAndDrop() returns (more: bool)
      requires Valid()
      modifies this
      ensures Valid() && Repr == old(Repr)
      ensures more <==> old(Contents) != []
      ensures !more ==> Contents == [] && Nodes == old(Nodes) && Dropped == old(Dropped) && Freed == old(Freed)
      ensures more ==>
        Contents == old(Contents)[1..] && Nodes == old(Nodes)[1..] &&
        Dropped == old(Dropped) + [old(Contents)[0], old(Contents)[0]] && Freed == old(Freed) + [old(Nodes)[0]]
    {
      var r := Pop();
      more := r.Some?;
      if more {
        Dropped := Dropped + [r.value];
      }
    }

    /** `Drop` over the corrected `PopTake`: every value still on the stack is dropped exactly
        once, top first, and every node is freed once, top first. */
    method DrainTake()
      requires Valid()
      modifies this
      ensures Valid() && Contents == []
      ensures Dropped == old(Dropped) + old(Contents)
      ensures Freed == old(Freed) + old(Nodes)
    {
      ghost var values, nodes := Contents, Nodes;
      ghost var k := 0;
      while top != null
        invariant Valid() && Repr == old(Repr)
        invariant k <= |values|
        invariant Contents == values[k..] && Nodes == nodes[k..]
        invariant Dropped == old(Dropped) + values[..k]
        invariant Freed == old(Freed) + nodes[..k]
        decreases |Contents|
      {
        var r := PopTake();
        PrefixStep(values, k);
        PrefixStep(nodes, k);
        Dropped := Dropped + [r.value];
        k := k + 1;
      }
      assert values[..k] == values && nodes[..k] == nodes;
    }

    /** Pushes `values` front to back. */
    method PushAll(values: seq<T>)
      requires Valid()
      modifies this
      ensures Valid() && fresh(Repr - old(Repr))
      ensures Contents == Reverse(values) + old(Contents) && Dropped == old(Dropped)
    {
      var i := 0;
      while i < |values|
        invariant Valid() && fresh(Repr - old(Repr))
        invariant i <= |values|
        invariant Contents == Reverse(values[..i]) + old(Contents)
        invariant Dropped == old(Dropped)
      {
        PushAllStep(values, i, old(Contents));
        Push(values[i]);
        i := i + 1;
      }
      assert values[..i] == values;
    }

    /** Pops `n` times from a stack holding at least `n` values, with `pop()` as written:
        each popped value is also dropped. */
    method PopMany(n: nat) returns (popped: seq<T>)
      requires Valid() && n <= |Contents|
      modifies this
      ensures Valid() && Repr == old(Repr)
      ensures popped == old(Contents)[..n] && Contents == old(Contents)[n..]
      ensures Dropped == old(Dropped) + popped
    {
      popped := [];
      var i := 0;
      while i < n
        invariant Valid() && Repr == old(Repr)
        invariant i <= n
        invariant popped == old(Contents)[..i] && Contents == old(Contents)[i..]
        invariant Dropped == old(Dropped) + popped
      {
        var r := Pop();
        assert old(Contents)[..i + 1] == old(Contents)[..i] + [r.value];
        popped := popped + [r.value];
        i := i + 1;
      }
    }

    /** The LIFO law: pushing `values` front to back and then popping as many times returns
        them back to front, and leaves the stack as it was. */
    method PushAllPopAll(values: seq<T>) returns (popped: seq<T>)
      requires Valid()
      modifies this
      ensures Valid() && fresh(Repr - old(Repr))
      ensures popped == Reverse(values)
      ensures Contents == old(Contents) && Dropped == old(Dropped) + popped
    {
      PushAll(values);
      popped := PopMany(|values|);
      assert (Reverse(values) + old(Contents))[|values|..] == old(Contents);
    }
  }

  /** A prefix one longer is the prefix followed by the next element. */
  lemma PrefixStep<X>(s: seq<X>, k: nat)
    requires k < |s|
    ensures s[..k + 1] == s[..k] + [s[k]]
  {
  }

  /** A witness for `pop()` as written: after pushing 7 and popping it, 7 is both returned
      and already dropped. */
  method PopDropsReturnedValue() returns (s: LockFreeStack<int>, r: Option<int>)
    ensures s.Valid() && s.Contents == []
    ensures r == Some(7) && s.Dropped == [7]
  {
    s := new LockFreeStack();
    s.Push(7);
    r := s.Pop();
  }
}
