/** The allocator object: two fixed arrays, a fill level and three failure counters. */
module FrameAllocatorObject {
  import opened FrameAllocation

  class FrameAllocator {
    const frameSize: nat
    const freeStack: array<nat>
    const owners: array<FrameOwner>
    var freeCount: nat
    var allocationFailures: nat
    var releaseFailures: nat
    var transitionFailures: nat

    ghost function Repr(): set<object> {
      {this, freeStack, owners}
    }

    ghost function Model(): Pool
      requires freeCount <= freeStack.Length
      reads this, freeStack, owners
    {
      Pool(frameSize, freeStack[..freeCount], owners[..], allocationFailures, releaseFailures, transitionFailures)
    }

    ghost predicate Valid()
      reads this, freeStack, owners
    {
      && freeStack.Length == owners.Length
      && freeCount <= freeStack.Length
      && Model().Bounded()
    }

    constructor (frameCount: nat, frameSize: nat)
      requires 0 < frameSize
      ensures Valid() && fresh(Repr())
      ensures Model() == FreshPool(frameCount, frameSize)
    {
      this.frameSize := frameSize;
      freeStack := new nat[frameCount];
      owners := new FrameOwner[frameCount];
      freeCount := 0;
      allocationFailures, releaseFailures, transitionFailures := 0, 0, 0;
      new;
      for index := 0 to frameCount
        invariant freeCount == 0 && allocationFailures == releaseFailures == transitionFailures == 0
        invariant fresh(freeStack) && fresh(owners)
        invariant forall k :: 0 <= k < index ==> freeStack[k] == frameCount - k - 1 && owners[k] == Free
      {
        freeStack[index] := frameCount - index - 1;
        owners[index] := Free;
      }
      freeCount := frameCount;
    }

    method Allocate(owner: FrameOwner) returns (allocation: Allocation)
      requires Valid()
      modifies this, freeStack, owners
      ensures Valid()
      ensures (Model(), allocation) == old(Model().Allocate(owner))
    {
      if freeCount == 0 {
        allocationFailures := allocationFailures + 1;
        return Allocation(NO_FRAME, PoolEmpty);
      }
      var index := freeStack[freeCount - 1];
      freeCount := freeCount - 1;
      owners[index] := owner;
      allocation := Allocation(FrameHandle(index * frameSize, index), Ok);
      assert freeStack[..freeCount] == old(freeStack[..freeCount])[..freeCount];
    }

    method AllocateMany(count: nat, owner: FrameOwner) returns (output: seq<FrameHandle>)
      requires Valid()
      modifies this, freeStack, owners
      ensures Valid()
      ensures (Model(), output) == old(Model().AllocateMany(count, owner))
    {
      output := [];
      ghost var all := Model().AllocateMany(count, owner);
      while |output| < count && freeCount > 0
        invariant Valid() && |output| <= count
        invariant all.0 == Model().AllocateMany(count - |output|, owner).0
        invariant all.1 == output + Model().AllocateMany(count - |output|, owner).1
      {
        output := AllocateNext(count, owner, output, all);
      }
      assert Model().AllocateMany(count - |output|, owner) == (Model(), []);
      assert output + [] == output;
    }

    method AllocateBatch(count: nat, owner: FrameOwner) returns (output: seq<FrameHandle>)
      requires Valid()
      modifies this, freeStack, owners
      ensures Valid()
      ensures (Model(), output) == old(Model().AllocateBatch(count, owner))
    {
      output := AllocateMany(count, owner);
      if |output| < count {
        allocationFailures := allocationFailures + 1;
      }
    }

    /** One pass of the batch loop: one frame more in `output`, one fewer to come. */
    method AllocateNext(count: nat, owner: FrameOwner, output: seq<FrameHandle>, ghost all: (Pool, seq<FrameHandle>))
      returns (more: seq<FrameHandle>)
      requires Valid() && |output| < count && 0 < freeCount
      requires all.0 == Model().AllocateMany(count - |output|, owner).0
      requires all.1 == output + Model().AllocateMany(count - |output|, owner).1
      modifies this, freeStack, owners
      ensures Valid() && |more| == |output| + 1
      ensures all.0 == Model().AllocateMany(count - |more|, owner).0
      ensures all.1 == more + Model().AllocateMany(count - |more|, owner).1
    {
      var allocation := Allocate(owner);
      more := output + [allocation.frame];
      ghost var rest := Model().AllocateMany(count - |more|, owner).1;
      assert output + ([allocation.frame] + rest) == more + rest;
    }

    method ValidateFrame(frame: FrameHandle) returns (status: FrameStatus)
      requires Valid()
      ensures status == Model().Validate(frame)
    {
      if frame.index >= owners.Length {
        return InvalidFrameIndex;
      }
      if frame.address != frame.index * frameSize {
        return InvalidFrameAddress;
      }
      return Ok;
    }

    method Transition(frame: FrameHandle, expected: FrameOwner, next: FrameOwner) returns (status: FrameStatus)
      requires Valid()
      modifies this, freeStack, owners
      ensures Valid()
      ensures (Model(), status) == old(Model().Transition(frame, expected, next))
    {
      status := ValidateFrame(frame);
      if status != Ok {
        transitionFailures := transitionFailures + 1;
        return;
      }
      if owners[frame.index] != expected {
        transitionFailures := transitionFailures + 1;
        return InvalidOwner;
      }
      if next == Free {
        status := Release(frame, expected);
        return;
      }
      owners[frame.index] := next;
      status := Ok;
    }

    method Release(frame: FrameHandle, expected: FrameOwner) returns (status: FrameStatus)
      requires Valid()
      modifies this, freeStack, owners
      ensures Valid()
      ensures (Model(), status) == old(Model().Release(frame, expected))
    {
      status := ValidateFrame(frame);
      if status != Ok {
        releaseFailures := releaseFailures + 1;
        return;
      }
      if owners[frame.index] != expected {
        releaseFailures := releaseFailures + 1;
        return InvalidOwner;
      }
      if freeCount >= owners.Length {
        releaseFailures := releaseFailures + 1;
        return PoolFull;
      }
      owners[frame.index] := Free;
      freeStack[freeCount] := frame.index;
      freeCount := freeCount + 1;
      status := Ok;
      assert freeStack[..freeCount] == old(freeStack[..freeCount]) + [frame.index];
    }

    /** The first pass: the verdict on the batch, nothing changed. */
    method CheckBatch(frames: seq<FrameHandle>, expected: FrameOwner) returns (verdict: FrameStatus)
      requires Valid()
      ensures verdict == Model().BatchVerdict(frames, expected)
    {
      for k := 0 to |frames|
        invariant Model().BatchVerdict(frames[k..], expected) == Model().BatchVerdict(frames, expected)
      {
        assert frames[k..][1..] == frames[k + 1..];
        verdict := ValidateFrame(frames[k]);
        if verdict != Ok || owners[frames[k].index] != expected {
          return if verdict == Ok then InvalidOwner else verdict;
        }
      }
      return Ok;
    }

    /** The second pass: free every frame. */
    method FreeAll(frames: seq<FrameHandle>)
      requires Valid() && freeCount + |frames| <= owners.Length
      requires forall i :: 0 <= i < |frames| ==> frames[i].index < owners.Length
      modifies this`freeCount, freeStack, owners
      ensures Valid() && Model() == old(Model()).FreeAll(frames)
    {
      ghost var done := Model().FreeAll(frames);
      for k := 0 to |frames|
        invariant Valid() && freeCount + (|frames| - k) <= owners.Length
        invariant Model().FreeAll(frames[k..]) == done
      {
        ghost var before := Model();
        assert frames[k..][1..] == frames[k + 1..];
        owners[frames[k].index] := Free;
        freeStack[freeCount] := frames[k].index;
        freeCount := freeCount + 1;
        assert Model().freeStack == before.freeStack + [frames[k].index];
      }
    }

    /** All or nothing: every frame is checked before any is freed. */
    method ReleaseBatch(frames: seq<FrameHandle>, expected: FrameOwner) returns (status: FrameStatus)
      requires Valid()
      modifies this, freeStack, owners
      ensures Valid()
      ensures (Model(), status) == old(Model()).ReleaseBatch(frames, expected)
    {
      status := CheckBatch(frames, expected);
      if status != Ok {
        releaseFailures := releaseFailures + 1;
        return;
      }
      if freeCount + |frames| > owners.Length {
        releaseFailures := releaseFailures + 1;
        return PoolFull;
      }
      FreeAll(frames);
    }

    method HandleFromAddress(address: nat) returns (allocation: Allocation)
      requires Valid()
      ensures allocation == Model().HandleFromAddress(address)
    {
      if address % frameSize != 0 || address >= owners.Length * frameSize {
        return Allocation(FrameHandle(address, 0), InvalidFrameAddress);
      }
      var index := address / frameSize;
      allocation := Allocation(FrameHandle(index * frameSize, index), Ok);
    }

    method OwnerOf(index: nat) returns (owner: FrameOwner)
      requires Valid()
      ensures owner == Model().OwnerOf(index)
    {
      owner := if index < owners.Length then owners[index] else Free;
    }
  }
}
