/**
  The pointer queue of camera/1_0/OSAL_Queue.c: a ring of nodes, each with one data
  pointer, refines a bounded FIFO.  A data pointer is an address, 0 being NULL.  Every
  operation runs under the queue's mutex, so each is one step.
 */
module RingQueue {

  type Ptr = int
  const NULL: Ptr := 0

  /** How many elements a queue created with `maxElem` can hold. */
  function Capacity(maxElem: int): nat {
    if maxElem <= 0 then 0 else if maxElem == 1 then 1 else maxElem - 1
  }

  /** How many nodes its ring has. */
  function RingSize(maxElem: int): nat {
    if maxElem <= 2 then 1 else maxElem - 1
  }

  // ---------------------------------------------------------------- the calls and their results

  /** A call of `OSAL_Queue`, `OSAL_Dequeue` or `OSAL_QueueSetElem`, with what it returned. */
  datatype Call = Queue(data: Ptr, ret: int) | Dequeue(result: Ptr) | SetElem(data: Ptr, ret: int)

  /** The pointers that dequeue calls handed out, in order. */
  function Taken(calls: seq<Call>): seq<Ptr> {
    if calls == [] then []
    else
      var call := calls[|calls| - 1];
      Taken(calls[..|calls| - 1]) + if call.Dequeue? && call.result != NULL then [call.result] else []
  }

  /**
    The pointers of the insertions that returned 0, in order.  An insertion by `OSAL_QueueSetElem`
    is skipped if the pointer is the oldest that is still there.
   */
  function Stored(calls: seq<Call>): seq<Ptr> {
    if calls == [] then []
    else
      var before, call := calls[..|calls| - 1], calls[|calls| - 1];
      var stored, taken := Stored(before), |Taken(before)|;
      match call
      case Queue(d, ret) => if ret == 0 then stored + [d] else stored
      case SetElem(d, ret) =>
        if ret == 0 && !(taken < |stored| && stored[taken] == d) then stored + [d] else stored
      case Dequeue(_) => stored
  }

  /** The calls return what a FIFO of this capacity that holds `held` returns. */
  predicate Answers(cap: nat, held: seq<Ptr>, call: Call) {
    match call
    case Queue(d, ret) => d != NULL && ret == if |held| >= cap then -1 else 0
    case SetElem(d, ret) => d != NULL && ret == if |held| >= cap then -1 else 0
    case Dequeue(result) => result == if held == [] then NULL else held[0]
  }

  /** What is held: the stored pointers without those handed out. */
  function Held(calls: seq<Call>): seq<Ptr> {
    if |Taken(calls)| <= |Stored(calls)| then Stored(calls)[|Taken(calls)|..] else []
  }

  predicate IsHistory(cap: nat, calls: seq<Call>) {
    calls == [] ||
    (IsHistory(cap, calls[..|calls| - 1]) && Answers(cap, Held(calls[..|calls| - 1]), calls[|calls| - 1]))
  }

  /** How the last call changes the two lists. */
  lemma LastCall(calls: seq<Call>)
    requires calls != []
    ensures var before, call := calls[..|calls| - 1], calls[|calls| - 1];
      var stored, taken := Stored(before), Taken(before);
      && Taken(calls) == taken + (if call.Dequeue? && call.result != NULL then [call.result] else [])
      && Stored(calls) == stored + (if call.Queue? && call.ret == 0 then [call.data]
                                    else if call.SetElem? && call.ret == 0 &&
                                            !(|taken| < |stored| && stored[|taken|] == call.data) then [call.data]
                                    else [])
  {
  }

  lemma PrefixSplit(a: seq<Ptr>, b: seq<Ptr>)
    requires a <= b
    ensures b == a + b[|a|..]
    ensures |a| < |b| ==> a + [b[|a|]] <= b
  {
  }

  /** First in, first out, over every history: what was handed out is the first part of what was stored. */
  lemma {:induction false} FifoOrder(cap: nat, calls: seq<Call>)
    requires IsHistory(cap, calls)
    ensures Taken(calls) <= Stored(calls)
    ensures Stored(calls) == Taken(calls) + Held(calls) && |Held(calls)| <= cap && NULL !in Stored(calls)
  {
    if calls != [] {
      var before := calls[..|calls| - 1];
      FifoOrder(cap, before);
      LastCall(calls);
      hide Stored, Taken, IsHistory;
      PrefixSplit(Taken(before), Stored(before));
      PrefixSplit(Taken(calls), Stored(calls));
    }
  }

  /** What one more call makes of what is held. */
  lemma HeldStep(cap: nat, calls: seq<Call>, call: Call)
    requires IsHistory(cap, calls) && Answers(cap, Held(calls), call)
    ensures IsHistory(cap, calls + [call])
    ensures Held(calls + [call]) == match call
      case Queue(d, ret) => if ret == 0 then Held(calls) + [d] else Held(calls)
      case SetElem(d, ret) =>
        if ret == 0 && (Held(calls) == [] || Held(calls)[0] != d) then Held(calls) + [d] else Held(calls)
      case Dequeue(result) => if result == NULL then Held(calls) else Held(calls)[1..]
  {
    var more := calls + [call];
    assert more[..|more| - 1] == calls && more[|more| - 1] == call;
    FifoOrder(cap, calls);
    assert IsHistory(cap, more);
    FifoOrder(cap, more);
    LastCall(more);
    hide Stored, Taken, IsHistory;
    if call.Dequeue? && Held(calls) != [] {
      assert Stored(calls)[|Taken(calls)|] == Held(calls)[0];
    }
  }

  ghost predicate Distinct(c: seq<Ptr>) {
    forall i, j :: 0 <= i < j < |c| ==> c[i] != c[j]
  }

  /**
    `OSAL_QueueSetElem` compares with the oldest element only, so it keeps a duplicate-free
    queue duplicate-free exactly when it is full or the pointer is not held behind the oldest.
   */
  lemma SetElemDistinctIff(cap: nat, calls: seq<Call>, d: Ptr, ret: int)
    requires IsHistory(cap, calls) && Answers(cap, Held(calls), SetElem(d, ret)) && Distinct(Held(calls))
    ensures var c := Held(calls);
      Distinct(Held(calls + [SetElem(d, ret)])) <==> |c| >= cap || c == [] || d !in c[1..]
  {
    var c := Held(calls);
    HeldStep(cap, calls, SetElem(d, ret));
    if |c| < cap && c != [] && d in c[1..] {
      var i :| 0 <= i < |c[1..]| && c[1..][i] == d;
      assert c[i + 1] == d;
      assert c[0] != d;
      assert (c + [d])[i + 1] == (c + [d])[|c|];
    }
  }

  /** The comment in the source promises no second copy; two pointers are enough to break it. */
  lemma SetElemMayDuplicate()
    ensures var calls := [SetElem(1, 0)] + [SetElem(2, 0)] + [SetElem(2, 0)];
      IsHistory(4, calls) && Held(calls) == [1, 2, 2]
  {
    assert Held([]) == [];
    HeldStep(4, [], SetElem(1, 0));
    assert [] + [SetElem(1, 0)] == [SetElem(1, 0)];
    HeldStep(4, [SetElem(1, 0)], SetElem(2, 0));
    HeldStep(4, [SetElem(1, 0)] + [SetElem(2, 0)], SetElem(2, 0));
  }

  // ---------------------------------------------------------------- the ring

  class Node {
    var data: Ptr
    var next: Node?

    constructor ()
      ensures data == NULL && next == null
    {
      data, next := NULL, null;
    }
  }

  class OsalQueue {
    var first: Node?
    var last: Node?
    var numElem: int
    var maxElem: int
    /** The nodes in ring order from `first` on. */
    ghost var ring: seq<Node>
    /** Every call so far, and the pointers that are held. */
    ghost var calls: seq<Call>
    ghost var contents: seq<Ptr>

    /** The nodes are distinct and each points to the next, the last one to the first. */
    static ghost predicate Linked(nodes: seq<Node>)
      reads nodes`next
    {
      && |nodes| >= 1
      && (forall i, j :: 0 <= i < j < |nodes| ==> nodes[i] != nodes[j])
      && (forall i :: 0 <= i < |nodes| - 1 ==> nodes[i].next == nodes[i + 1])
      && nodes[|nodes| - 1].next == nodes[0]
    }

    /** The same ring from its second node on. */
    static ghost function Rotate(nodes: seq<Node>): (r: seq<Node>)
      requires |nodes| >= 1
      ensures |r| == |nodes| && r[|r| - 1] == nodes[0]
      ensures forall i :: 0 <= i < |nodes| - 1 ==> r[i] == nodes[i + 1]
      ensures multiset(r) == multiset(nodes)
    {
      assert nodes == [nodes[0]] + nodes[1..];
      nodes[1..] + [nodes[0]]
    }

    static lemma RotateLinked(nodes: seq<Node>)
      requires Linked(nodes)
      ensures Linked(Rotate(nodes))
      ensures nodes[0].next == Rotate(nodes)[0]
      ensures forall i :: 1 <= i < |nodes| ==> nodes[i] != nodes[0]
    {
      var r, n := Rotate(nodes), |nodes|;
      forall i | 0 <= i < n - 1
        ensures r[i].next == r[i + 1]
      {
        if i < n - 2 {
          assert r[i] == nodes[i + 1] && r[i + 1] == nodes[i + 2];
        } else {
          assert r[i] == nodes[n - 1];
        }
      }
      if n > 1 { assert r[0] == nodes[1]; }
      forall i, j | 0 <= i < j < n
        ensures r[i] != r[j]
      {
        assert r[i] == nodes[i + 1];
        if j < n - 1 { assert r[j] == nodes[j + 1]; }
      }
    }

    /** The filled nodes are the `numElem` nodes from `first` on, and hold the contents. */
    ghost predicate Shaped()
      reads this, ring
    {
      && Linked(ring)
      && |ring| == RingSize(maxElem)
      && 0 <= numElem <= |ring| && numElem <= Capacity(maxElem)
      && first == ring[0]
      && last == ring[if numElem == |ring| then 0 else numElem]
      && (forall i :: 0 <= i < |ring| ==> (ring[i].data != NULL <==> i < numElem))
      && |contents| == numElem
      && (forall i :: 0 <= i < numElem ==> ring[i].data == contents[i])
    }

    /** The contents are what the calls so far leave in a FIFO. */
    ghost predicate Valid()
      reads this, ring
    {
      Shaped() && IsHistory(Capacity(maxElem), calls) && contents == Held(calls)
    }

    /** What the struct holds before `OSAL_QueueCreate` is arbitrary. */
    constructor ()
    {
      first, last := null, null;
      ring, calls, contents := [], [], [];
    }

    /**
      `OSAL_QueueCreate`.  The first `available` allocations succeed.  On failure the nodes
      allocated so far are freed again, each exactly once.
     */
    method Create(maxQueueElem: int, available: nat) returns (ok: bool, ghost freed: seq<Node>)
      modifies this
      ensures ok <==> RingSize(maxQueueElem) <= available
      ensures ok ==> |ring| == if maxQueueElem <= 2 then 1 else maxQueueElem - 1
      ensures ok ==> Valid() && fresh(ring) && maxElem == maxQueueElem && contents == [] && calls == [] && freed == []
      ensures !ok ==>
        |freed| == available && fresh(freed) && forall i, j :: 0 <= i < j < |freed| ==> freed[i] != freed[j]
    {
      freed := [];
      maxElem := maxQueueElem;
      if available == 0 {
        first := null;
        return false, freed;
      }
      var head := new Node();
      first := head;
      last := first;
      var cur := head;
      numElem := 0;
      ring := [head];
      var i := 0;
      while i < maxElem - 2
        invariant 0 <= i && (i == 0 || i <= maxElem - 2) && i < available
        invariant maxElem == maxQueueElem && numElem == 0 && first == last == head
        invariant |ring| == i + 1 && ring[0] == head && ring[i] == cur && fresh(ring)
        invariant forall a, b :: 0 <= a < b < |ring| ==> ring[a] != ring[b]
        invariant forall a :: 0 <= a < |ring| ==> ring[a].data == NULL
        invariant forall a :: 0 <= a < i ==> ring[a].next == ring[a + 1]
        invariant cur.next == null
      {
        if i + 1 == available {
          freed := FreeChain();
          return false, freed;
        }
        var node := new Node();
        cur.next := node;
        cur := node;
        ring := ring + [node];
        i := i + 1;
      }
      cur.next := first;
      calls, contents := [], [];
      ok := true;
    }

    /** The clean-up of `OSAL_QueueCreate`: frees from `first` to the end of an open chain. */
    method FreeChain() returns (ghost freed: seq<Node>)
      requires |ring| >= 1 && first == ring[0]
      requires forall a :: 0 <= a < |ring| - 1 ==> ring[a].next == ring[a + 1]
      requires ring[|ring| - 1].next == null
      modifies this
      ensures first == null && freed == old(ring)
    {
      freed := [];
      ghost var nodes := ring;
      while first != null
        invariant |freed| <= |nodes| && freed == nodes[..|freed|]
        invariant first == if |freed| == |nodes| then null else nodes[|freed|]
        decreases |nodes| - |freed|
      {
        var cur := first.next;
        freed := freed + [first];
        first := cur;
      }
    }

    /** `OSAL_QueueTerminate`: frees every node of the ring exactly once. */
    method Terminate() returns (ghost freed: seq<Node>)
      requires Shaped()
      modifies this
      ensures first == null && freed == old(ring)
    {
      freed := [];
      var i := 0;
      while i < maxElem - 2
        invariant 0 <= i && (i == 0 || i <= maxElem - 2) && maxElem == old(maxElem) && ring == old(ring)
        invariant i < |ring| && first == ring[i] && freed == ring[..i]
      {
        var cur := first.next;
        freed := freed + [first];
        first := cur;
        i := i + 1;
      }
      if first != null {
        freed := freed + [first];
        first := null;
      }
    }

    /** The insertion that `OSAL_Queue` and `OSAL_QueueSetElem` share. */
    method Append(data: Ptr)
      requires Shaped() && data != NULL && |contents| < Capacity(maxElem)
      modifies this`last, this`numElem, this`contents, ring
      ensures Shaped() && contents == old(contents) + [data]
    {
      last.data := data;
      last := last.next;
      numElem := numElem + 1;
      contents := contents + [data];
    }

    /** The guard of the two insertions: it lets nothing in exactly when the queue is full. */
    lemma FullIff()
      requires Shaped()
      ensures last != null
      ensures last.data != NULL || numElem >= maxElem <==> |contents| >= Capacity(maxElem)
    {
    }

    /** `OSAL_Queue`: appends, and fails exactly when the queue is full. */
    method Enqueue(data: Ptr) returns (ret: int)
      requires Valid() && data != NULL
      modifies this, ring
      ensures Valid() && maxElem == old(maxElem) && ring == old(ring)
      ensures calls == old(calls) + [Queue(data, ret)]
      ensures ret == 0 || ret == -1
      ensures ret == 0 ==> contents == old(contents) + [data]
      ensures ret == -1 ==> contents == old(contents)
      ensures ret == -1 <==> |old(contents)| == if maxElem >= 2 then maxElem - 1 else if maxElem == 1 then 1 else 0
    {
      hide IsHistory, Held, Stored, Taken, Linked;
      FullIff();
      ghost var code := if |contents| >= Capacity(maxElem) then -1 else 0;
      HeldStep(Capacity(maxElem), calls, Queue(data, code));
      calls := calls + [Queue(data, code)];
      if last.data != NULL || numElem >= maxElem {
        return -1;
      }
      Append(data);
      ret := 0;
    }

    /** The removal of the oldest element. */
    method Drop() returns (data: Ptr)
      requires Shaped() && contents != []
      modifies this`first, this`numElem, this`contents, this`ring, ring
      ensures Shaped() && multiset(ring) == old(multiset(ring))
      ensures data != NULL && old(contents) == [data] + contents
    {
      hide Rotate, Linked;
      RotateLinked(ring);
      data := first.data;
      first.data := NULL;
      first := first.next;
      numElem := numElem - 1;
      ring := Rotate(ring);
      contents := contents[1..];
    }

    /** `OSAL_Dequeue`: the oldest element, or NULL exactly when there is none. */
    method Take() returns (data: Ptr)
      requires Valid()
      modifies this, ring
      ensures Valid() && maxElem == old(maxElem) && multiset(ring) == old(multiset(ring))
      ensures calls == old(calls) + [Dequeue(data)]
      ensures data == NULL <==> old(contents) == []
      ensures data == NULL ==> contents == old(contents)
      ensures data != NULL ==> old(contents) == [data] + contents
    {
      hide Linked, IsHistory, Held, Stored, Taken;
      ghost var oldest := if contents == [] then NULL else contents[0];
      HeldStep(Capacity(maxElem), calls, Dequeue(oldest));
      calls := calls + [Dequeue(oldest)];
      if first.data == NULL || numElem <= 0 {
        return NULL;
      }
      data := Drop();
    }

    /** `OSAL_GetElemNum` */
    method Count() returns (n: int)
      requires Valid()
      ensures n == |contents|
    {
      n := numElem;
    }

    /** `OSAL_QueueSetElem`: the loop never advances, so it compares with the oldest element only. */
    method EnqueueUnlessHead(data: Ptr) returns (ret: int)
      requires Valid() && data != NULL
      modifies this, ring
      ensures Valid() && maxElem == old(maxElem) && ring == old(ring)
      ensures calls == old(calls) + [SetElem(data, ret)]
      ensures ret == 0 || ret == -1
      ensures ret == 0 ==>
        contents == old(contents) + if old(contents) != [] && old(contents)[0] == data then [] else [data]
      ensures ret == -1 ==> contents == old(contents)
      ensures ret == -1 <==> |old(contents)| == if maxElem >= 2 then maxElem - 1 else if maxElem == 1 then 1 else 0
    {
      hide IsHistory, Held, Stored, Taken, Linked;
      FullIff();
      ghost var code := if |contents| >= Capacity(maxElem) then -1 else 0;
      HeldStep(Capacity(maxElem), calls, SetElem(data, code));
      calls := calls + [SetElem(data, code)];
      if last.data != NULL || numElem >= maxElem {
        return -1;
      }
      var i := 0;
      while i < numElem
        invariant i > 0 ==> first.data != data && last.data != data
      {
        if first.data == data || last.data == data {
          return 0;
        }
        i := i + 1;
      }
      Append(data);
      ret := 0;
    }
  }
}
