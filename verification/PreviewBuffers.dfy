/**
  Buffer ownership between the camera HAL and the preview window
  (camera/1_0/PreviewWindow.cpp).  What the window answers is an input; it hands out only
  buffers it holds.  Buffer handles are addresses, 0 being NULL.
 */
module PreviewBuffers {

  /** Number of buffers the HAL does not own. */
  function Free(owned: seq<bool>): nat {
    if owned == [] then 0 else Free(owned[..|owned| - 1]) + if owned[|owned| - 1] then 0 else 1
  }

  lemma {:induction false} FreeUpdate(owned: seq<bool>, i: nat, b: bool)
    requires i < |owned|
    ensures Free(owned[i := b]) + (if owned[i] then 0 else 1) == Free(owned) + if b then 0 else 1
  {
    var n := |owned| - 1;
    if i == n {
      assert owned[i := b][..n] == owned[..n];
    } else {
      assert owned[i := b][..n] == owned[..n][i := b];
      FreeUpdate(owned[..n], i, b);
    }
  }

  lemma {:induction false} FreeNone(owned: seq<bool>)
    requires forall i :: 0 <= i < |owned| ==> owned[i]
    ensures Free(owned) == 0
  {
    if owned != [] { FreeNone(owned[..|owned| - 1]); }
  }

  lemma {:induction false} FreePositive(owned: seq<bool>)
    requires Free(owned) > 0
    ensures exists i :: 0 <= i < |owned| && !owned[i]
  {
    var n := |owned| - 1;
    if owned[n] {
      FreePositive(owned[..n]);
      var i :| 0 <= i < n && !owned[..n][i];
      assert !owned[i];
    }
  }

  /** The window's answer when the HAL asks for a buffer to allocate. */
  datatype Offer = Refused | Locked(handle: int) | LockFailed(handle: int)

  function OwnedHandles(owned: seq<bool>, handles: seq<int>): seq<int>
    requires |owned| <= |handles|
  {
    if owned == [] then []
    else
      var n := |owned| - 1;
      OwnedHandles(owned[..n], handles) + if owned[n] then [handles[n]] else []
  }

  /** Every listed handle is the handle of an owned slot. */
  lemma {:induction false} ListedIsOwned(owned: seq<bool>, handles: seq<int>, a: nat) returns (i: nat)
    requires |owned| <= |handles| && a < |OwnedHandles(owned, handles)|
    ensures i < |owned| && owned[i] && handles[i] == OwnedHandles(owned, handles)[a]
  {
    var n := |owned| - 1;
    if a < |OwnedHandles(owned[..n], handles)| {
      i := ListedIsOwned(owned[..n], handles, a);
    } else {
      i := n;
    }
  }

  /** The handle of every owned slot is listed. */
  lemma {:induction false} OwnedIsListed(owned: seq<bool>, handles: seq<int>, i: nat)
    requires |owned| <= |handles| && i < |owned| && owned[i]
    ensures handles[i] in OwnedHandles(owned, handles)
  {
    var n := |owned| - 1;
    if i < n {
      assert owned[..n][i];
      OwnedIsListed(owned[..n], handles, i);
    }
  }

  /** No handle is listed twice. */
  lemma {:induction false} ListedOnce(owned: seq<bool>, handles: seq<int>, a: nat, b: nat)
    requires |owned| <= |handles| && a < b < |OwnedHandles(owned, handles)|
    requires forall i, j :: 0 <= i < j < |owned| ==> handles[i] != handles[j]
    ensures OwnedHandles(owned, handles)[a] != OwnedHandles(owned, handles)[b]
  {
    var n := |owned| - 1;
    if b < |OwnedHandles(owned[..n], handles)| {
      ListedOnce(owned[..n], handles, a, b);
    } else {
      var i := ListedIsOwned(owned[..n], handles, a);
    }
  }

  function Members(hs: seq<int>): set<int> { set h | h in hs }

  lemma NoMembers()
    ensures Members([]) == {}
  {
  }

  lemma MembersAppend(hs: seq<int>, n: nat)
    requires n < |hs|
    ensures Members(hs[..n + 1]) == Members(hs[..n]) + {hs[n]}
  {
    assert hs[..n + 1] == hs[..n] + [hs[n]];
  }

  /** As many distinct buffers as the pool has are the whole pool. */
  lemma {:induction false} PoolTaken(hs: seq<int>, pool: set<int>)
    requires forall i, j :: 0 <= i < j < |hs| ==> hs[i] != hs[j]
    requires forall i :: 0 <= i < |hs| ==> hs[i] in pool
    ensures |pool| >= |hs|
    ensures |pool| == |hs| ==> pool == Members(hs)
    decreases |hs|
  {
    if hs != [] {
      var n := |hs| - 1;
      PoolTaken(hs[..n], pool - {hs[n]});
      MembersAppend(hs, n);
      assert hs[..n + 1] == hs;
    }
  }

  class PreviewWindow {
    /** `mBufferHandle` and `mBufferFlag`, one entry for each of the `NB_BUFFER` slots. */
    const handles: array<int>
    const owned: array<bool>
    var enqueued: int
    var minUndequeued: int
    /** How many slots are allocated, and the buffers the window holds. */
    ghost var count: nat
    ghost var window: set<int>

    ghost predicate Slots()
      reads this
    {
      handles.Length == owned.Length && count <= owned.Length
    }

    /** Each allocated buffer is held by exactly one side. */
    ghost predicate OneOwner()
      reads this, handles, owned
    {
      && Slots()
      && (forall i :: 0 <= i < count ==> handles[i] != 0)
      && (forall i, j :: 0 <= i < j < count ==> handles[i] != handles[j])
      && (forall i :: 0 <= i < count ==> (owned[i] <==> handles[i] !in window))
      && (forall i :: count <= i < owned.Length ==> !owned[i])
    }

    /** The window holds no buffer that is not in the table. */
    ghost predicate AllKnown()
      reads this, handles
    {
      Slots() && forall h :: h in window ==> exists i :: 0 <= i < count && handles[i] == h
    }

    /** While frames are shown: the counter is the number of buffers out, at most the window's minimum. */
    ghost predicate Streaming()
      reads this, handles, owned
    {
      Counted() && enqueued <= minUndequeued
    }

    ghost predicate Counted()
      reads this, handles, owned
    {
      OneOwner() && AllKnown() && enqueued == Free(owned[..count])
    }

    constructor (nb: nat)
      ensures OneOwner() && count == 0 && owned.Length == nb && fresh(handles) && fresh(owned)
      ensures forall i :: 0 <= i < nb ==> !owned[i]
    {
      handles := new int[nb](_ => 0);
      owned := new bool[nb](_ => false);
      enqueued, minUndequeued, count, window := 0, 0, 0, {};
    }

    /**
      `allocate`, from the point where the window has been configured: asks for one buffer per
      slot and stops at the first failure, giving back a buffer it could not lock.
     */
    method Allocate(minimum: int, offers: seq<Offer>, ghost pool: set<int>) returns (ok: bool)
      requires Slots() && |offers| <= owned.Length
      requires forall i :: 0 <= i < owned.Length ==> !owned[i]
      requires forall i :: 0 <= i < |offers| && !offers[i].Refused? ==>
        offers[i].handle != 0 && offers[i].handle in pool
      requires forall i, j :: 0 <= i < j < |offers| && offers[i].Locked? && !offers[j].Refused? ==>
        offers[i].handle != offers[j].handle
      modifies this, handles, owned
      ensures ok <==> forall i :: 0 <= i < |offers| ==> offers[i].Locked?
      ensures OneOwner() && enqueued == 0 && minUndequeued == minimum
      ensures count <= |offers| && forall i :: 0 <= i < count ==> owned[i] && offers[i] == Locked(handles[i])
      ensures ok ==> count == |offers|
      ensures window == pool - Members(handles[..count])
      ensures ok && minimum >= 0 && |pool| == |offers| ==> window == {} && Streaming()
    {
      hide Members;
      enqueued := 0;
      minUndequeued := minimum;
      count, window := 0, pool;
      var i := 0;
      NoMembers();
      while i < |offers|
        invariant 0 <= i <= |offers| && count == i && enqueued == 0 && minUndequeued == minimum
        invariant OneOwner()
        invariant forall k :: 0 <= k < i ==> owned[k] && offers[k] == Locked(handles[k])
        invariant window == pool - Members(handles[..i])
        invariant forall k :: 0 <= k < i ==> handles[k] in pool
      {
        match offers[i] {
          case Refused =>
            return false;
          case LockFailed(h) =>
            // dequeued, then cancelled: the window keeps it
            return false;
          case Locked(h) =>
            TakeSlot(i, h);
            MembersAppend(handles[..i + 1], i);
            assert handles[..i + 1][..i] == handles[..i] && handles[..i + 1][..i + 1] == handles[..i + 1];
        }
        i := i + 1;
      }
      ok := true;
      if minimum >= 0 && |pool| == |offers| {
        PoolTaken(handles[..count], pool);
        FreeNone(owned[..count]);
      }
    }

    /** A buffer dequeued and locked during allocation. */
    method TakeSlot(i: nat, h: int)
      requires OneOwner() && i == count < owned.Length && h != 0
      requires forall k :: 0 <= k < count ==> handles[k] != h
      modifies this`count, this`window, handles, owned
      ensures OneOwner() && count == i + 1 && window == old(window) - {h}
      ensures handles[..i] == old(handles[..i]) && handles[i] == h
      ensures owned[..i] == old(owned[..i]) && owned[i]
    {
      handles[i] := h;
      owned[i] := true;
      window := window - {h};
      count := i + 1;
    }

    /** Whenever a buffer is asked back, the window holds one. */
    lemma WindowCanAnswer()
      requires Counted() && enqueued > 0
      ensures window != {}
    {
      FreePositive(owned[..count]);
      var i :| 0 <= i < count && !owned[..count][i];
      assert handles[i] in window;
    }

    /** The search over all slots: the first slot with this handle. */
    method FindSlot(h: int) returns (i: int)
      requires Slots()
      ensures -1 <= i < handles.Length && (i >= 0 ==> handles[i] == h)
      ensures i >= 0 ==> forall k :: 0 <= k < i ==> handles[k] != h
      ensures i == -1 ==> forall k :: 0 <= k < handles.Length ==> handles[k] != h
    {
      i := 0;
      while i < handles.Length
        invariant 0 <= i <= handles.Length
        invariant forall k :: 0 <= k < i ==> handles[k] != h
      {
        if handles[i] == h {
          return;
        }
        i := i + 1;
      }
      i := -1;
    }

    /** A successful `enqueue_buffer`: slot `index` goes to the window. */
    method Enqueue(index: nat)
      requires Counted() && index < count && owned[index]
      modifies this`enqueued, this`window, owned
      ensures Counted() && enqueued == old(enqueued) + 1
      ensures window == old(window) + {handles[index]}
      ensures owned[..] == old(owned[..])[index := false]
    {
      FreeUpdate(owned[..count], index, false);
      owned[index] := false;
      assert owned[..count] == old(owned[..count])[index := false];
      enqueued := enqueued + 1;
      window := window + {handles[index]};
    }

    /** A successful `dequeue_buffer` that returns `answer`. */
    method Dequeue(answer: int) returns (taken: int)
      requires Counted() && answer in window
      modifies this`enqueued, this`window, owned
      ensures Counted() && enqueued == old(enqueued) - 1
      ensures 0 <= taken < count && handles[taken] == answer && !old(owned[taken])
      ensures window == old(window) - {answer}
      ensures owned[..] == old(owned[..])[taken := true]
    {
      enqueued := enqueued - 1;
      ghost var k :| 0 <= k < count && handles[k] == answer;
      taken := FindSlot(answer);
      FreeUpdate(owned[..count], taken, true);
      owned[taken] := true;
      assert owned[..count] == old(owned[..count])[taken := true];
      window := window - {answer};
    }

    /**
      `onNextFrameAvailable2` with successful locks: shows the buffer in slot `index` and takes
      one back when the window has more than its minimum.  `answer` is the buffer the window
      then hands out, one that it holds.
     */
    method ShowFrame(index: nat, enqueueOk: bool, answer: int) returns (taken: int)
      requires Streaming() && index < count && owned[index]
      requires enqueueOk && enqueued == minUndequeued ==> answer in window + {handles[index]}
      modifies this`enqueued, this`window, owned
      ensures Streaming()
      ensures taken >= 0 <==> enqueueOk && old(enqueued) == minUndequeued
      ensures taken >= 0 ==> taken < count && handles[taken] == answer
      ensures window ==
        old(window) + (if enqueueOk then {handles[index]} else {}) - (if taken >= 0 then {answer} else {})
      ensures enqueued == old(enqueued) + (if enqueueOk && taken < 0 then 1 else 0)
      ensures forall i :: 0 <= i < owned.Length ==>
        owned[i] == if i == taken then true else if enqueueOk && i == index then false else old(owned[i])
    {
      taken := -1;
      if enqueueOk {
        Enqueue(index);
      }
      if enqueued > minUndequeued {
        taken := Dequeue(answer);
      }
    }

    /** `deallocate`: gives back exactly the owned buffers, each once. */
    method Deallocate(cnt: nat) returns (cancelled: seq<int>)
      requires OneOwner() && count <= cnt <= owned.Length
      modifies this, owned
      ensures OneOwner() && count == old(count)
      ensures forall i :: 0 <= i < owned.Length ==> !owned[i]
      ensures cancelled == OwnedHandles(old(owned[..count]), handles[..])
      ensures forall a, b :: 0 <= a < b < |cancelled| ==> cancelled[a] != cancelled[b]
      ensures window == old(window) + Members(handles[..count])
    {
      hide Members, OwnedHandles;
      cancelled := [];
      ghost var was, held, hs := owned[..count], window, handles[..];
      NothingReleased(was, hs);
      var i := 0;
      while i < cnt
        invariant 0 <= i <= cnt && count == old(count) && OneOwner() && handles[..] == hs
        invariant forall k :: 0 <= k < i ==> !owned[k]
        invariant forall k :: i <= k < count ==> owned[k] == was[k]
        invariant cancelled == OwnedHandles(was[..if i < count then i else count], hs)
        invariant window == held + Members(hs[..if i < count then i else count])
      {
        if i < count {
          OwnedStep(was, hs, i);
          MembersAppend(hs, i);
        }
        var c := ReleaseSlot(i);
        cancelled := cancelled + c;
        i := i + 1;
      }
      assert was[..count] == was && hs[..count] == handles[..count];
      forall a, b | 0 <= a < b < |cancelled| ensures cancelled[a] != cancelled[b] {
        ListedOnce(was, hs, a, b);
      }
    }

    /** One round of `deallocate`. */
    method ReleaseSlot(i: nat) returns (c: seq<int>)
      requires OneOwner() && i < owned.Length
      modifies this`window, owned
      ensures OneOwner()
      ensures owned[..] == old(owned[..])[i := false]
      ensures c == if old(owned[i]) then [handles[i]] else []
      ensures window == old(window) + (if i < count then {handles[i]} else {})
    {
      c := [];
      if owned[i] {
        c := [handles[i]];
        window := window + {handles[i]};
      }
      owned[i] := false;
    }
  }

  lemma NothingReleased(was: seq<bool>, hs: seq<int>)
    requires |was| <= |hs|
    ensures OwnedHandles(was[..0], hs) == [] && Members(hs[..0]) == {}
  {
  }

  lemma OwnedStep(was: seq<bool>, hs: seq<int>, i: nat)
    requires i < |was| <= |hs|
    ensures OwnedHandles(was[..i + 1], hs) == OwnedHandles(was[..i], hs) + if was[i] then [hs[i]] else []
  {
    assert was[..i + 1][..i] == was[..i];
  }
}
