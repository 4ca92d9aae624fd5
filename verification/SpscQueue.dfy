/** The lock-free single-producer single-consumer queue as interleaved atomic steps.

    `pushed` and `popped` are history: all items whose `try_push` has published and whose
    `try_pop` has returned. The queue itself holds only the slots and two 64-bit counters.
    An acquire load of the other side's counter may return any value that counter has had
    since this side last looked; the model takes that value from the scheduler. */
module SpscQueue {
  import opened Machine

  /** Where a `try_push` is: nowhere, after loading `tail`, after finding room, after writing. */
  datatype Producer<T> = PushIdle | PushLoaded(item: T, tail: U64) | PushRoom(item: T, tail: U64) | PushWritten(item: T, tail: U64)

  /** Where a `try_pop` is: nowhere, after loading `head`, after finding an item, after reading. */
  datatype Consumer<T> = PopIdle | PopLoaded(head: U64) | PopFound(head: U64) | PopTaken(head: U64, item: T)

  datatype Queue<T> = Queue(
    slots: seq<T>,
    head: U64,
    tail: U64,
    producer: Producer<T>,
    consumer: Consumer<T>,
    headSeen: nat,
    tailSeen: nat,
    pushed: seq<T>,
    popped: seq<T>)
  {
    function Capacity(): nat { |slots| }
  }

  datatype Step<T> =
    | StartPush(item: T)
    | LoadHead(value: nat)
    | WriteSlot
    | PublishTail
    | StartPop
    | LoadTail(value: nat)
    | ReadSlot
    | PublishHead

  /** `a - b` in 64-bit arithmetic. */
  function WrapSub(a: U64, b: U64): (n: nat) {
    (a as int - b as int) % POW64
  }

  function Next(counter: U64): U64 {
    (counter as int + 1) % POW64
  }

  predicate PowerOfTwo(n: nat) {
    0 < n && POW64 % n == 0 && 2 * n <= POW64
  }

  function Empty<T>(slots: seq<T>): Queue<T> {
    Queue(slots, 0, 0, PushIdle, PopIdle, 0, 0, [], [])
  }

  /** One atomic step of one side. A step that its side is not at does nothing; `LoadHead(k)`
      and `LoadTail(k)` return the value the other counter had after `k` operations, which
      coherence allows when it is not older than the last value seen. */
  function Do<T>(q: Queue<T>, step: Step<T>): Queue<T>
    requires PowerOfTwo(q.Capacity())
  {
    match step
    case StartPush(item) =>
      if q.producer.PushIdle? then q.(producer := PushLoaded(item, q.tail)) else q
    case LoadHead(k) =>
      if q.producer.PushLoaded? && q.headSeen <= k <= |q.popped| then
        var room := WrapSub(q.producer.tail, k % POW64) < q.Capacity();
        q.(headSeen := k, producer := if room then PushRoom(q.producer.item, q.producer.tail) else PushIdle)
      else q
    case WriteSlot =>
      if q.producer.PushRoom? then
        q.(slots := q.slots[q.producer.tail % q.Capacity() := q.producer.item],
           producer := PushWritten(q.producer.item, q.producer.tail))
      else q
    case PublishTail =>
      if q.producer.PushWritten? then
        q.(tail := Next(q.producer.tail), producer := PushIdle, pushed := q.pushed + [q.producer.item])
      else q
    case StartPop =>
      if q.consumer.PopIdle? then q.(consumer := PopLoaded(q.head)) else q
    case LoadTail(k) =>
      if q.consumer.PopLoaded? && q.tailSeen <= k <= |q.pushed| then
        q.(tailSeen := k, consumer := if q.consumer.head == k % POW64 then PopIdle else PopFound(q.consumer.head))
      else q
    case ReadSlot =>
      if q.consumer.PopFound? then
        q.(consumer := PopTaken(q.consumer.head, q.slots[q.consumer.head % q.Capacity()]))
      else q
    case PublishHead =>
      if q.consumer.PopTaken? then
        q.(head := Next(q.consumer.head), consumer := PopIdle, popped := q.popped + [q.consumer.item])
      else q
  }

  function Run<T>(q: Queue<T>, steps: seq<Step<T>>): (r: Queue<T>)
    requires PowerOfTwo(q.Capacity())
    ensures r.Capacity() == q.Capacity()
    decreases |steps|
  {
    if steps == [] then q else Run(Do(q, steps[0]), steps[1..])
  }

  // ---------------------------------------------------------------------------------------
  // The invariant
  // ---------------------------------------------------------------------------------------

  /** The stored counters are the operation counts modulo 2^64, and the counts are in order. */
  ghost predicate CountersAgree<T>(q: Queue<T>) {
    && PowerOfTwo(q.Capacity())
    && q.head == |q.popped| % POW64 && q.tail == |q.pushed| % POW64
    && q.headSeen <= |q.popped| <= q.tailSeen <= |q.pushed| <= q.headSeen + q.Capacity()
  }

  /** Every item pushed and not yet popped is in its slot. */
  ghost predicate Unread<T>(q: Queue<T>)
    requires PowerOfTwo(q.Capacity())
  {
    forall i :: |q.popped| <= i < |q.pushed| ==> q.slots[i % q.Capacity()] == q.pushed[i]
  }

  ghost predicate ProducerAgrees<T>(q: Queue<T>)
    requires PowerOfTwo(q.Capacity())
  {
    match q.producer
    case PushIdle => true
    case PushLoaded(_, tail) => tail == q.tail
    case PushRoom(_, tail) => tail == q.tail && |q.pushed| < q.headSeen + q.Capacity()
    case PushWritten(item, tail) =>
      && tail == q.tail && |q.pushed| < q.headSeen + q.Capacity()
      && q.slots[|q.pushed| % q.Capacity()] == item
  }

  ghost predicate ConsumerAgrees<T>(q: Queue<T>) {
    match q.consumer
    case PopIdle => true
    case PopLoaded(head) => head == q.head
    case PopFound(head) => head == q.head && |q.popped| < q.tailSeen
    case PopTaken(head, item) => head == q.head && |q.popped| < q.tailSeen <= |q.pushed| && item == q.pushed[|q.popped|]
  }

  ghost predicate Coherent<T>(q: Queue<T>) {
    CountersAgree(q) && q.popped <= q.pushed && Unread(q) && ProducerAgrees(q) && ConsumerAgrees(q)
  }

  /** The slot picked by a wrapped counter is the slot of the count: powers of two divide 2^64. */
  lemma SlotOfCount(count: nat, capacity: nat)
    requires PowerOfTwo(capacity)
    ensures (count % POW64) % capacity == count % capacity
  {
    ModOfMod(count, POW64, capacity);
  }

  /** Subtracting wrapped counters gives the true difference while it is below 2^64. */
  lemma WrapSubExact(a: nat, b: nat)
    requires b <= a < b + POW64
    ensures WrapSub(a % POW64, b % POW64) == a - b
  {
    ModAdd(a, -(b % POW64), POW64);
    assert b == (b / POW64) * POW64 + b % POW64;
    DivUnique(a - b % POW64, POW64, b / POW64 + 0, a - b);
  }

  lemma NextCount(count: nat)
    ensures Next(count % POW64) == (count + 1) % POW64
  {
    ModAdd(count, 1, POW64);
  }

  // ---------------------------------------------------------------------------------------
  // Every step keeps it
  // ---------------------------------------------------------------------------------------

  lemma LoadHeadKeeps<T>(q: Queue<T>, k: nat)
    requires Coherent(q) && q.producer.PushLoaded? && q.headSeen <= k <= |q.popped|
    ensures Coherent(Do(q, LoadHead(k)))
    ensures Do(q, LoadHead(k)).producer.PushIdle? <==> |q.pushed| >= k + q.Capacity()
  {
    WrapSubExact(|q.pushed|, k);
  }

  /** Room means the slot after the last pushed item is not one that is still to be read. */
  lemma WriteSlotKeeps<T>(q: Queue<T>)
    requires Coherent(q) && q.producer.PushRoom?
    ensures Coherent(Do(q, WriteSlot))
    ensures forall i :: |q.popped| <= i < |q.pushed| ==>
              Do(q, WriteSlot).slots[i % q.Capacity()] == q.slots[i % q.Capacity()]
  {
    var n := |q.pushed|;
    SlotOfCount(n, q.Capacity());
    forall i | |q.popped| <= i < n
      ensures i % q.Capacity() != n % q.Capacity()
    {
      if i % q.Capacity() == n % q.Capacity() {
        ModInjective(n, i, q.Capacity());
      }
    }
  }

  lemma PublishTailKeeps<T>(q: Queue<T>)
    requires Coherent(q) && q.producer.PushWritten?
    ensures Coherent(Do(q, PublishTail))
  {
    SlotOfCount(|q.pushed|, q.Capacity());
    NextCount(|q.pushed|);
  }

  lemma LoadTailKeeps<T>(q: Queue<T>, k: nat)
    requires Coherent(q) && q.consumer.PopLoaded? && q.tailSeen <= k <= |q.pushed|
    ensures Coherent(Do(q, LoadTail(k)))
    ensures Do(q, LoadTail(k)).consumer.PopIdle? <==> k == |q.popped|
  {
    if |q.popped| % POW64 == k % POW64 {
      ModInjective(|q.popped|, k, POW64);
    }
  }

  lemma ReadSlotKeeps<T>(q: Queue<T>)
    requires Coherent(q) && q.consumer.PopFound?
    ensures Coherent(Do(q, ReadSlot))
    ensures Do(q, ReadSlot).consumer.item == q.pushed[|q.popped|]
  {
    SlotOfCount(|q.popped|, q.Capacity());
  }

  lemma PublishHeadKeeps<T>(q: Queue<T>)
    requires Coherent(q) && q.consumer.PopTaken?
    ensures Coherent(Do(q, PublishHead))
  {
    NextCount(|q.popped|);
  }

  lemma StepKeeps<T>(q: Queue<T>, step: Step<T>)
    requires Coherent(q)
    ensures Coherent(Do(q, step))
    ensures q.pushed <= Do(q, step).pushed && q.popped <= Do(q, step).popped
  {
    if Do(q, step) != q {
      match step
      case StartPush(_) =>
      case LoadHead(k) => LoadHeadKeeps(q, k);
      case WriteSlot => WriteSlotKeeps(q);
      case PublishTail => PublishTailKeeps(q);
      case StartPop =>
      case LoadTail(k) => LoadTailKeeps(q, k);
      case ReadSlot => ReadSlotKeeps(q);
      case PublishHead => PublishHeadKeeps(q);
    }
  }

  lemma {:induction false} RunKeeps<T>(q: Queue<T>, steps: seq<Step<T>>)
    requires Coherent(q)
    ensures Coherent(Run(q, steps))
    ensures q.pushed <= Run(q, steps).pushed && q.popped <= Run(q, steps).popped
    decreases |steps|
  {
    if steps == [] {
    } else {
      StepKeeps(q, steps[0]);
      RunKeeps(Do(q, steps[0]), steps[1..]);
    }
  }

  /** FIFO under every interleaving: whatever the two sides do, in whatever order, with
      whatever stale values they see, the items popped are a prefix of the items pushed, at
      most a capacity's worth are outstanding, and each of those is intact in its slot. */
  lemma FifoUnderEveryInterleaving<T>(slots: seq<T>, steps: seq<Step<T>>)
    requires PowerOfTwo(|slots|)
    ensures var q := Run(Empty(slots), steps);
            && q.popped <= q.pushed
            && |q.pushed| - |q.popped| <= |slots|
            && (forall i :: |q.popped| <= i < |q.pushed| ==> q.slots[i % |slots|] == q.pushed[i])
  {
    RunKeeps(Empty(slots), steps);
  }

  // ---------------------------------------------------------------------------------------
  // size_approx
  // ---------------------------------------------------------------------------------------

  /** Called by the producer: its own tail, and any head value coherence allows. */
  lemma ProducerSize<T>(q: Queue<T>, k: nat)
    requires Coherent(q) && q.headSeen <= k <= |q.popped|
    ensures |q.pushed| - |q.popped| <= WrapSub(q.tail, k % POW64) <= q.Capacity()
  {
    WrapSubExact(|q.pushed|, k);
  }

  /** Called by the consumer: its own head, and any tail value coherence allows. */
  lemma ConsumerSize<T>(q: Queue<T>, k: nat)
    requires Coherent(q) && q.tailSeen <= k <= |q.pushed|
    ensures WrapSub(k % POW64, q.head) <= |q.pushed| - |q.popped| <= q.Capacity()
  {
    WrapSubExact(k, |q.popped|);
  }

  /** Called by a third thread, which loads `tail` in one state and `head` in a later one, and
      may get any earlier value of either: `a` items pushed and `b` popped, as it sees it. The
      result is within the capacity exactly when the pair makes sense: no more popped than
      pushed, and no more outstanding than fit. Otherwise it is out of range, by the wrap of
      the subtraction or by a stale head. With current values only the first can go wrong. */
  lemma ObserverSize<T>(q: Queue<T>, steps: seq<Step<T>>, a: nat, b: nat)
    requires Coherent(q) && a <= |q.pushed| && b <= |Run(q, steps).popped|
    requires b - a < POW64 - q.Capacity() && a - b < POW64
    ensures WrapSub(a % POW64, b % POW64) <= q.Capacity() <==> b <= a <= b + q.Capacity()
    ensures b <= a ==> WrapSub(a % POW64, b % POW64) == a - b
    ensures a == |q.pushed| && b == |Run(q, steps).popped| ==>
              (WrapSub(q.tail, Run(q, steps).head) <= q.Capacity() <==> b <= a)
  {
    RunKeeps(q, steps);
    SeenSize(a, b, q.Capacity());
  }

  /** The wrapped difference of two counts less than 2^64 apart. */
  lemma SeenSize(a: nat, b: nat, capacity: nat)
    requires b - a < POW64 - capacity && a - b < POW64
    ensures WrapSub(a % POW64, b % POW64) <= capacity <==> b <= a <= b + capacity
    ensures b <= a ==> WrapSub(a % POW64, b % POW64) == a - b
  {
    if b <= a {
      WrapSubExact(a, b);
    } else {
      WrapSubExact(a + POW64, b);
      WrapAround(a);
    }
  }

  /** One push and one pop between the two loads are enough for the subtraction to wrap. */
  lemma ObserverCanWrap<T>(slots: seq<T>, item: T)
    requires PowerOfTwo(|slots|)
    ensures var between := [StartPush(item), LoadHead(0), WriteSlot, PublishTail, StartPop, LoadTail(1), ReadSlot, PublishHead];
            var q := Empty(slots);
            WrapSub(q.tail, Run(q, between).head) == POW64 - 1 > q.Capacity()
  {
    var q := Empty(slots);
    var push, pop := [StartPush(item), LoadHead(0), WriteSlot, PublishTail], [StartPop, LoadTail(1), ReadSlot, PublishHead];
    OnePush(slots, item);
    var full := Run(q, push);
    RunFour(full, StartPop, LoadTail(1), ReadSlot, PublishHead);
    RunBoth(q, push, pop);
    assert push + pop ==
           [StartPush(item), LoadHead(0), WriteSlot, PublishTail, StartPop, LoadTail(1), ReadSlot, PublishHead];
  }

  lemma OnePush<T>(slots: seq<T>, item: T)
    requires PowerOfTwo(|slots|)
    ensures var q := Run(Empty(slots), [StartPush(item), LoadHead(0), WriteSlot, PublishTail]);
            q == Empty(slots).(slots := slots[0 := item], tail := 1, pushed := [item])
  {
    RunFour(Empty(slots), StartPush(item), LoadHead(0), WriteSlot, PublishTail);
  }

  lemma RunFour<T>(q: Queue<T>, a: Step<T>, b: Step<T>, c: Step<T>, d: Step<T>)
    requires PowerOfTwo(q.Capacity())
    ensures Run(q, [a, b, c, d]) == Do(Do(Do(Do(q, a), b), c), d)
  {
    RunBoth(q, [a, b], [c, d]);
    assert [a, b] + [c, d] == [a, b, c, d];
    RunTwo(q, a, b);
    RunTwo(Do(Do(q, a), b), c, d);
  }

  lemma RunTwo<T>(q: Queue<T>, a: Step<T>, b: Step<T>)
    requires PowerOfTwo(q.Capacity())
    ensures Run(q, [a, b]) == Do(Do(q, a), b)
  {
    assert [a, b][1..] == [b];
    assert Run(Do(q, a), [b]) == Run(Do(Do(q, a), b), [b][1..]);
  }

  lemma {:induction false} RunBoth<T>(q: Queue<T>, a: seq<Step<T>>, b: seq<Step<T>>)
    requires PowerOfTwo(q.Capacity())
    ensures Run(q, a + b) == Run(Run(q, a), b)
    decreases |a|
  {
    if a == [] {
      assert a + b == b;
    } else {
      assert (a + b)[0] == a[0] && (a + b)[1..] == a[1..] + b;
      RunBoth(Do(q, a[0]), a[1..], b);
    }
  }

  lemma WrapAround(a: nat)
    ensures (a + POW64) % POW64 == a % POW64
  {
    DivUnique(a + POW64, POW64, a / POW64 + 1, a % POW64);
  }
}
