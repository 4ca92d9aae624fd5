/** The UMEM frame allocator: a LIFO stack of free frame indices plus an owner table.

    `Pool` is the value of an allocator; its functions are the allocator's operations on
    values. The class `FrameAllocator` keeps the same state in two fixed-size arrays and is
    proved to do what `Pool` says. `FreeListExact` is the law the two tables are kept for:
    the stack lists, without repetition, exactly the frames whose owner is `Free`. */
module FrameAllocation {
  import opened Machine

  datatype FrameOwner = Free | FillRing | RxRing | DataPlane | TimingWheel | TxRing | CompletionRing

  datatype FrameStatus = Ok | PoolEmpty | PoolFull | InvalidFrameIndex | InvalidFrameAddress | InvalidOwner

  datatype FrameHandle = FrameHandle(address: nat, index: nat)

  datatype Allocation = Allocation(frame: FrameHandle, status: FrameStatus)

  /** The handle a default-initialised `FrameAllocation` carries. */
  const NO_FRAME := FrameHandle(0, 0)

  ghost predicate Distinct<T>(s: seq<T>) {
    forall i, j :: 0 <= i < j < |s| ==> s[i] != s[j]
  }

  datatype Pool = Pool(
    frameSize: nat,
    freeStack: seq<nat>,
    owners: seq<FrameOwner>,
    allocationFailures: nat,
    releaseFailures: nat,
    transitionFailures: nat)
  {
    function FrameCount(): nat { |owners| }

    /** What array bounds alone guarantee, whatever the callers do. */
    ghost predicate Bounded() {
      && 0 < frameSize
      && |freeStack| <= |owners|
      && forall i :: 0 <= i < |freeStack| ==> freeStack[i] < |owners|
    }

    /** The free stack is a duplicate-free listing of exactly the frames owned by `Free`. */
    ghost predicate FreeListExact() {
      && Bounded()
      && Distinct(freeStack)
      && forall i :: 0 <= i < |owners| ==> (i in freeStack <==> owners[i] == Free)
    }

    function MakeHandle(index: nat): FrameHandle {
      FrameHandle(index * frameSize, index)
    }

    function Validate(frame: FrameHandle): FrameStatus {
      if frame.index >= |owners| then InvalidFrameIndex
      else if frame.address != frame.index * frameSize then InvalidFrameAddress
      else Ok
    }

    function HandleFromAddress(address: nat): Allocation
      requires 0 < frameSize
    {
      if address % frameSize != 0 || address >= |owners| * frameSize then
        Allocation(FrameHandle(address, 0), InvalidFrameAddress)
      else
        Allocation(MakeHandle(address / frameSize), Ok)
    }

    function OwnerOf(index: nat): FrameOwner {
      if index < |owners| then owners[index] else Free
    }

    function Allocate(owner: FrameOwner): (r: (Pool, Allocation))
      requires Bounded()
      ensures r.0.Bounded()
    {
      if |freeStack| == 0 then
        (this.(allocationFailures := allocationFailures + 1), Allocation(NO_FRAME, PoolEmpty))
      else
        var index := freeStack[|freeStack| - 1];
        (this.(freeStack := freeStack[..|freeStack| - 1], owners := owners[index := owner]),
         Allocation(MakeHandle(index), Ok))
    }

    function AllocateMany(count: nat, owner: FrameOwner): (r: (Pool, seq<FrameHandle>))
      requires Bounded()
      ensures r.0.Bounded()
      decreases count
    {
      if count == 0 || |freeStack| == 0 then (this, [])
      else
        var (next, allocation) := Allocate(owner);
        var (last, rest) := next.AllocateMany(count - 1, owner);
        (last, [allocation.frame] + rest)
    }

    /** `allocate_batch`: as many frames as there are, and one failure when that is too few. */
    function AllocateBatch(count: nat, owner: FrameOwner): (r: (Pool, seq<FrameHandle>))
      requires Bounded()
      ensures r.0.Bounded()
    {
      var (next, frames) := AllocateMany(count, owner);
      if |frames| < count then (next.(allocationFailures := next.allocationFailures + 1), frames)
      else (next, frames)
    }

    function Release(frame: FrameHandle, expected: FrameOwner): (r: (Pool, FrameStatus))
      requires Bounded()
      ensures r.0.Bounded()
    {
      if Validate(frame) != Ok then
        (this.(releaseFailures := releaseFailures + 1), Validate(frame))
      else if owners[frame.index] != expected then
        (this.(releaseFailures := releaseFailures + 1), InvalidOwner)
      else if |freeStack| >= |owners| then
        (this.(releaseFailures := releaseFailures + 1), PoolFull)
      else
        (this.(freeStack := freeStack + [frame.index], owners := owners[frame.index := Free]), Ok)
    }

    function Transition(frame: FrameHandle, expected: FrameOwner, next: FrameOwner): (r: (Pool, FrameStatus))
      requires Bounded()
      ensures r.0.Bounded()
    {
      if Validate(frame) != Ok then
        (this.(transitionFailures := transitionFailures + 1), Validate(frame))
      else if owners[frame.index] != expected then
        (this.(transitionFailures := transitionFailures + 1), InvalidOwner)
      else if next == Free then
        Release(frame, expected)
      else
        (this.(owners := owners[frame.index := next]), Ok)
    }

    /** The verdict of `release_batch`'s first pass: that of the first frame that fails. */
    function BatchVerdict(frames: seq<FrameHandle>, expected: FrameOwner): (r: FrameStatus)
      ensures r != PoolFull
      ensures r == Ok ==> forall i :: 0 <= i < |frames| ==>
                Validate(frames[i]) == Ok && owners[frames[i].index] == expected
    {
      if frames == [] then Ok
      else if Validate(frames[0]) != Ok then Validate(frames[0])
      else if owners[frames[0].index] != expected then InvalidOwner
      else BatchVerdict(frames[1..], expected)
    }

    function FreeAll(frames: seq<FrameHandle>): (r: Pool)
      requires Bounded()
      requires forall i :: 0 <= i < |frames| ==> frames[i].index < |owners|
      requires |freeStack| + |frames| <= |owners|
      ensures r.Bounded()
      decreases |frames|
    {
      if frames == [] then this
      else
        this.(freeStack := freeStack + [frames[0].index], owners := owners[frames[0].index := Free])
            .FreeAll(frames[1..])
    }

    function ReleaseBatch(frames: seq<FrameHandle>, expected: FrameOwner): (r: (Pool, FrameStatus))
      requires Bounded()
      ensures r.0.Bounded()
    {
      var verdict := BatchVerdict(frames, expected);
      if verdict != Ok then
        (this.(releaseFailures := releaseFailures + 1), verdict)
      else if |freeStack| + |frames| > |owners| then
        (this.(releaseFailures := releaseFailures + 1), PoolFull)
      else
        (FreeAll(frames), Ok)
    }
  }

  function FreshPool(frameCount: nat, frameSize: nat): (p: Pool)
    requires 0 < frameSize
    ensures p.FreeListExact()
  {
    var p := Pool(frameSize, seq(frameCount, i => frameCount - i - 1), seq(frameCount, i => Free), 0, 0, 0);
    assert forall i {:trigger p.owners[i]} :: 0 <= i < frameCount ==> p.freeStack[frameCount - i - 1] == i;
    p
  }

  // ---------------------------------------------------------------------------------------
  // Every sequence of operations
  // ---------------------------------------------------------------------------------------

  datatype Operation =
    | OpAllocate(owner: FrameOwner)
    | OpAllocateBatch(count: nat, owner: FrameOwner)
    | OpTransition(frame: FrameHandle, expected: FrameOwner, next: FrameOwner)
    | OpRelease(frame: FrameHandle, expected: FrameOwner)
    | OpReleaseBatch(frames: seq<FrameHandle>, expected: FrameOwner)

  function Apply(p: Pool, op: Operation): (r: Pool)
    requires p.Bounded()
    ensures r.Bounded()
  {
    match op
    case OpAllocate(owner) => p.Allocate(owner).0
    case OpAllocateBatch(count, owner) => p.AllocateBatch(count, owner).0
    case OpTransition(frame, expected, next) => p.Transition(frame, expected, next).0
    case OpRelease(frame, expected) => p.Release(frame, expected).0
    case OpReleaseBatch(frames, expected) => p.ReleaseBatch(frames, expected).0
  }

  function ApplyAll(p: Pool, ops: seq<Operation>): (r: Pool)
    requires p.Bounded()
    ensures r.Bounded()
    decreases |ops|
  {
    if ops == [] then p else ApplyAll(Apply(p, ops[0]), ops[1..])
  }

  /** The caller claims a frame that really is `Free` under `expected == Free`. */
  ghost predicate NamesFreeFrame(p: Pool, frame: FrameHandle, expected: FrameOwner) {
    expected == Free && p.Validate(frame) == Ok && p.owners[frame.index] == Free
  }

  /** The calls that corrupt the free list, told from the call and the state before it. */
  ghost predicate Misuse(p: Pool, op: Operation)
    requires p.Bounded()
  {
    match op
    case OpAllocate(owner) => owner == Free && 0 < |p.freeStack|
    case OpAllocateBatch(count, owner) => owner == Free && 0 < count && 0 < |p.freeStack|
    case OpTransition(frame, expected, next) =>
      NamesFreeFrame(p, frame, expected) && (next != Free || |p.freeStack| < |p.owners|)
    case OpRelease(frame, expected) =>
      NamesFreeFrame(p, frame, expected) && |p.freeStack| < |p.owners|
    case OpReleaseBatch(frames, expected) =>
      && p.BatchVerdict(frames, expected) == Ok
      && |p.freeStack| + |frames| <= |p.owners|
      && frames != []
      && (expected == Free || !Distinct(frames))
  }

  /** The tables agree; only failure counters may differ. */
  ghost predicate SameTables(p: Pool, q: Pool) {
    p.frameSize == q.frameSize && p.freeStack == q.freeStack && p.owners == q.owners
  }

  /** A duplicate-free sequence of numbers below `n` has at most `n` entries. */
  lemma {:induction false} DistinctFits(s: seq<nat>, n: nat)
    requires Distinct(s)
    requires forall i :: 0 <= i < |s| ==> s[i] < n
    ensures |s| <= n
    decreases n
  {
    if n == 0 {
    } else if n - 1 in s {
      var k :| 0 <= k < |s| && s[k] == n - 1;
      var t := s[..k] + s[k + 1..];
      assert forall i :: 0 <= i < |t| ==> t[i] == if i < k then s[i] else s[i + 1];
      DistinctFits(t, n - 1);
    } else {
      DistinctFits(s, n - 1);
    }
  }

  /** A run of allocations pops the top of the stack, one handle per frame, top first. */
  lemma {:induction false} AllocateManyPops(p: Pool, count: nat, owner: FrameOwner)
    requires p.Bounded()
    ensures |p.AllocateMany(count, owner).1| == Min(count, |p.freeStack|)
    ensures p.AllocateMany(count, owner).0.freeStack == p.freeStack[..|p.freeStack| - Min(count, |p.freeStack|)]
    ensures forall k :: 0 <= k < Min(count, |p.freeStack|) ==>
              p.AllocateMany(count, owner).1[k] == p.MakeHandle(p.freeStack[|p.freeStack| - 1 - k])
    decreases count
  {
    if count != 0 && |p.freeStack| != 0 {
      AllocateManyPops(p.Allocate(owner).0, count - 1, owner);
    }
  }

  lemma {:induction false} AllocateManyKeeps(p: Pool, count: nat, owner: FrameOwner)
    requires p.FreeListExact() && owner != Free
    ensures p.AllocateMany(count, owner).0.FreeListExact()
    decreases count
  {
    if count != 0 && |p.freeStack| != 0 {
      AllocateKeepsIff(p, owner);
      AllocateManyKeeps(p.Allocate(owner).0, count - 1, owner);
    }
  }

  lemma {:induction false} AllocateManyToFree(p: Pool, count: nat)
    requires p.Bounded()
    requires forall i :: 0 <= i < |p.freeStack| ==> p.owners[p.freeStack[i]] == Free
    ensures p.AllocateMany(count, Free).0.owners == p.owners
    decreases count
  {
    if count != 0 && |p.freeStack| != 0 {
      AllocateManyToFree(p.Allocate(Free).0, count - 1);
    }
  }

  /** Freeing a batch pushes its indices in order ... */
  lemma {:induction false} FreeAllPushes(p: Pool, frames: seq<FrameHandle>)
    requires p.Bounded()
    requires forall i :: 0 <= i < |frames| ==> frames[i].index < |p.owners|
    requires |p.freeStack| + |frames| <= |p.owners|
    ensures p.FreeAll(frames).freeStack == p.freeStack + Indices(frames)
    decreases |frames|
  {
    if frames != [] {
      var x, rest := frames[0].index, Indices(frames[1..]);
      var next := p.(freeStack := p.freeStack + [x], owners := p.owners[x := Free]);
      calc {
        p.FreeAll(frames).freeStack;
        next.FreeAll(frames[1..]).freeStack;
      == { FreeAllPushes(next, frames[1..]); }
        p.freeStack + [x] + rest;
        p.freeStack + ([x] + rest);
      == { assert Indices(frames) == [x] + rest; }
        p.freeStack + Indices(frames);
      }
    } else {
      assert p.freeStack + Indices(frames) == p.freeStack;
    }
  }

  /** ... and marks exactly them `Free`. */
  lemma {:induction false} FreeAllMarks(p: Pool, frames: seq<FrameHandle>)
    requires p.Bounded()
    requires forall i :: 0 <= i < |frames| ==> frames[i].index < |p.owners|
    requires |p.freeStack| + |frames| <= |p.owners|
    ensures |p.FreeAll(frames).owners| == |p.owners| && p.FreeAll(frames).frameSize == p.frameSize
    ensures forall i :: 0 <= i < |p.owners| ==>
              p.FreeAll(frames).owners[i] == if i in Indices(frames) then Free else p.owners[i]
    decreases |frames|
  {
    if frames == [] {
    } else {
      var x := frames[0].index;
      FreeAllMarks(p.(freeStack := p.freeStack + [x], owners := p.owners[x := Free]), frames[1..]);
      assert Indices(frames) == [x] + Indices(frames[1..]);
    }
  }

  function Indices(frames: seq<FrameHandle>): (r: seq<nat>)
    ensures |r| == |frames|
    ensures forall i :: 0 <= i < |r| ==> r[i] == frames[i].index
  {
    seq(|frames|, i requires 0 <= i < |frames| => frames[i].index)
  }

  lemma AllocateKeepsIff(p: Pool, owner: FrameOwner)
    requires p.FreeListExact()
    ensures p.Allocate(owner).0.FreeListExact() <==> !Misuse(p, OpAllocate(owner))
  {
    if |p.freeStack| != 0 {
      var n := |p.freeStack|;
      var index := p.freeStack[n - 1];
      var q := p.Allocate(owner).0;
      assert p.freeStack == q.freeStack + [index];
      assert index !in q.freeStack;
    }
  }

  lemma AllocateBatchKeepsIff(p: Pool, count: nat, owner: FrameOwner)
    requires p.FreeListExact()
    ensures p.AllocateBatch(count, owner).0.FreeListExact() <==> !Misuse(p, OpAllocateBatch(count, owner))
  {
    if owner != Free {
      AllocateManyKeeps(p, count, owner);
    } else {
      AllocateManyPops(p, count, owner);
      AllocateManyToFree(p, count);
      var q := p.AllocateMany(count, owner).0;
      if 0 < count && 0 < |p.freeStack| {
        var top := p.freeStack[|p.freeStack| - 1];
        assert top !in q.freeStack;
      }
    }
  }

  lemma ReleaseKeepsIff(p: Pool, frame: FrameHandle, expected: FrameOwner)
    requires p.FreeListExact()
    ensures p.Release(frame, expected).0.FreeListExact() <==> !Misuse(p, OpRelease(frame, expected))
    ensures expected != Free ==> p.Release(frame, expected).1 != PoolFull
  {
    var (q, status) := p.Release(frame, expected);
    if p.Validate(frame) == Ok && p.owners[frame.index] == expected {
      var pushed := p.freeStack + [frame.index];
      if expected != Free {
        DistinctFits(pushed, |p.owners|);
      } else if status == Ok {
        var k :| 0 <= k < |p.freeStack| && p.freeStack[k] == frame.index;
        assert q.freeStack[k] == q.freeStack[|p.freeStack|];
      }
    }
  }

  lemma TransitionKeepsIff(p: Pool, frame: FrameHandle, expected: FrameOwner, next: FrameOwner)
    requires p.FreeListExact()
    ensures p.Transition(frame, expected, next).0.FreeListExact() <==> !Misuse(p, OpTransition(frame, expected, next))
    ensures expected != Free ==> p.Transition(frame, expected, next).1 != PoolFull
  {
    ReleaseKeepsIff(p, frame, expected);
  }

  lemma ReleaseBatchKeepsIff(p: Pool, frames: seq<FrameHandle>, expected: FrameOwner)
    requires p.FreeListExact()
    ensures p.ReleaseBatch(frames, expected).0.FreeListExact() <==> !Misuse(p, OpReleaseBatch(frames, expected))
    ensures expected != Free && Distinct(frames) ==> p.ReleaseBatch(frames, expected).1 != PoolFull
  {
    if p.BatchVerdict(frames, expected) == Ok {
      PushedDistinctIff(p, frames, expected);
      if expected != Free && Distinct(frames) {
        DistinctFits(p.freeStack + Indices(frames), |p.owners|);
      }
      if |p.freeStack| + |frames| <= |p.owners| {
        FreeAllPushes(p, frames);
        FreeAllMarks(p, frames);
      }
    }
  }

  /** The stack with a batch pushed on it repeats an index exactly when the batch repeats a
      frame or names free ones. */
  lemma PushedDistinctIff(p: Pool, frames: seq<FrameHandle>, expected: FrameOwner)
    requires p.FreeListExact() && p.BatchVerdict(frames, expected) == Ok
    ensures Distinct(p.freeStack + Indices(frames)) <==> frames == [] || (expected != Free && Distinct(frames))
  {
    var pushed := p.freeStack + Indices(frames);
    if frames == [] {
      assert pushed == p.freeStack;
    } else if expected == Free {
      var k :| 0 <= k < |p.freeStack| && p.freeStack[k] == frames[0].index;
      assert pushed[k] == pushed[|p.freeStack|];
    } else if !Distinct(frames) {
      var i, j :| 0 <= i < j < |frames| && frames[i] == frames[j];
      assert pushed[|p.freeStack| + i] == pushed[|p.freeStack| + j];
    }
  }

  /** One operation keeps the free list exact if and only if it is not a misuse. */
  lemma ApplyKeepsIff(p: Pool, op: Operation)
    requires p.FreeListExact()
    ensures Apply(p, op).FreeListExact() <==> !Misuse(p, op)
  {
    match op
    case OpAllocate(owner) => AllocateKeepsIff(p, owner);
    case OpAllocateBatch(count, owner) => AllocateBatchKeepsIff(p, count, owner);
    case OpTransition(frame, expected, next) => TransitionKeepsIff(p, frame, expected, next);
    case OpRelease(frame, expected) => ReleaseKeepsIff(p, frame, expected);
    case OpReleaseBatch(frames, expected) => ReleaseBatchKeepsIff(p, frames, expected);
  }

  ghost predicate AlwaysExact(p: Pool, ops: seq<Operation>)
    requires p.Bounded()
    decreases |ops|
  {
    p.FreeListExact() && (ops != [] ==> AlwaysExact(Apply(p, ops[0]), ops[1..]))
  }

  ghost predicate NeverMisused(p: Pool, ops: seq<Operation>)
    requires p.Bounded()
    decreases |ops|
  {
    ops != [] ==> !Misuse(p, ops[0]) && NeverMisused(Apply(p, ops[0]), ops[1..])
  }

  /** Over whole runs: the law holds in every state passed through if and only if no call in
      the run is a misuse of the state it meets. */
  lemma {:induction false} RunKeepsIff(p: Pool, ops: seq<Operation>)
    requires p.FreeListExact()
    ensures AlwaysExact(p, ops) <==> NeverMisused(p, ops)
    decreases |ops|
  {
    if ops == [] {
    } else {
      ApplyKeepsIff(p, ops[0]);
      if !Misuse(p, ops[0]) {
        RunKeepsIff(Apply(p, ops[0]), ops[1..]);
      }
    }
  }

  /** What a caller can promise without looking at the pool. */
  ghost predicate Disciplined(op: Operation) {
    match op
    case OpAllocate(owner) => owner != Free
    case OpAllocateBatch(_, owner) => owner != Free
    case OpTransition(_, expected, _) => expected != Free
    case OpRelease(_, expected) => expected != Free
    case OpReleaseBatch(frames, expected) => expected != Free && Distinct(frames)
  }

  /** Disciplined callers, in any order and number, never corrupt a fresh pool. */
  lemma {:induction false} DisciplinedRuns(p: Pool, ops: seq<Operation>)
    requires p.FreeListExact()
    requires forall i :: 0 <= i < |ops| ==> Disciplined(ops[i])
    ensures ApplyAll(p, ops).FreeListExact()
    decreases |ops|
  {
    if ops == [] {
    } else {
      assert Disciplined(ops[0]);
      ApplyKeepsIff(p, ops[0]);
      DisciplinedRuns(Apply(p, ops[0]), ops[1..]);
    }
  }

  /** A call that reports failure has changed nothing but a counter. */
  lemma FailureChangesOnlyCounters(p: Pool, frame: FrameHandle, frames: seq<FrameHandle>,
                                   expected: FrameOwner, next: FrameOwner)
    requires p.Bounded()
    ensures p.Allocate(next).1.status != Ok ==> SameTables(p, p.Allocate(next).0)
    ensures p.Transition(frame, expected, next).1 != Ok ==> SameTables(p, p.Transition(frame, expected, next).0)
    ensures p.Release(frame, expected).1 != Ok ==> SameTables(p, p.Release(frame, expected).0)
    ensures p.ReleaseBatch(frames, expected).1 != Ok ==> SameTables(p, p.ReleaseBatch(frames, expected).0)
  {
  }

  /** Release undoes allocation, tables and all, and the next allocation returns the same frame. */
  lemma ReleaseUndoesAllocate(p: Pool, owner: FrameOwner)
    requires p.FreeListExact() && 0 < |p.freeStack| && owner != Free
    ensures var (q, got) := p.Allocate(owner);
            var (back, status) := q.Release(got.frame, owner);
            status == Ok && back == p
  {
    var (q, got) := p.Allocate(owner);
    var (back, status) := q.Release(got.frame, owner);
    AllocateKeepsIff(p, owner);
    ReleaseKeepsIff(q, got.frame, owner);
    assert back.freeStack == p.freeStack;
    assert back.owners == p.owners;
  }

  /** Addresses and handles name each other: the address of a frame gives back its handle,
      and an address is accepted exactly when it is the start of some frame. */
  lemma HandleRoundTrip(p: Pool, address: nat)
    requires 0 < p.frameSize
    ensures forall i: nat :: i < |p.owners| ==> p.HandleFromAddress(p.MakeHandle(i).address) == Allocation(p.MakeHandle(i), Ok)
    ensures p.HandleFromAddress(address).status == Ok <==>
              exists i: nat :: i < |p.owners| && p.MakeHandle(i).address == address
  {
    forall i: nat | i < |p.owners|
      ensures p.HandleFromAddress(p.MakeHandle(i).address) == Allocation(p.MakeHandle(i), Ok)
    {
      MultipleDivides(i, p.frameSize, |p.owners|);
    }
    if p.HandleFromAddress(address).status == Ok {
      var i := address / p.frameSize;
      QuotientBelow(address, p.frameSize, |p.owners|);
      assert p.MakeHandle(i).address == address;
    }
  }

  lemma MultipleDivides(i: nat, size: nat, count: nat)
    requires 0 < size && i < count
    ensures (i * size) % size == 0 && (i * size) / size == i && i * size < count * size
  {
    DivUnique(i * size, size, i, 0);
    MulLe(i + 1, count, size);
  }

  lemma QuotientBelow(address: nat, size: nat, count: nat)
    requires 0 < size && address % size == 0 && address < count * size
    ensures address == (address / size) * size && address / size < count
  {
    MulLess(address / size, count, size);
  }
}
