/** What the phases of a poll leave alone, and what it hands to the data plane and to TX:
    over every run the batch works on whole, disjoint frames that still hold the bytes the
    kernel delivered. */
module PollPhases {
  import opened Machine
  import opened FrameAllocation
  import opened TimingWheels
  import opened ChaosEngine
  import DP = DataPlane
  import opened BatchFates
  import opened BatchInvolution
  import opened BatchVerdicts
  import opened Runtime
  import opened Ledger
  import opened Lifecycle

  /** Neither the bytes nor the wheel nor the RX ring changed. */
  ghost predicate Quiet(p: Poll, r: Poll) {
    && r.rt.umem == p.rt.umem && r.rt.wheel == p.rt.wheel && r.rt.socket.rx == p.rt.socket.rx
    && |r.rt.pool.owners| == |p.rt.pool.owners| && r.rt.pool.frameSize == p.rt.pool.frameSize
  }

  lemma RefillOneQuiet(p: Poll, x: nat, owner: FrameOwner)
    requires p.Bounded()
    ensures var r := p.RefillAddress(x, owner);
            Quiet(p, r) && r.rt.socket.tx == p.rt.socket.tx
  {
  }

  lemma {:induction false} RefillQuiet(p: Poll, addresses: seq<nat>, owner: FrameOwner)
    requires p.Bounded()
    ensures var r := p.RefillAll(addresses, owner);
            Quiet(p, r) && r.rt.socket.tx == p.rt.socket.tx
    decreases |addresses|
  {
    if addresses == [] {
    } else {
      RefillOneQuiet(p, addresses[0], owner);
      RefillQuiet(p.RefillAddress(addresses[0], owner), addresses[1..], owner);
    }
  }

  lemma SubmitOneQuiet(p: Poll, x: nat, length: U32)
    requires p.Bounded()
    ensures Quiet(p, p.SubmitOne(x, length))
  {
  }

  lemma {:induction false} SubmitQuiet(p: Poll, frames: seq<(nat, U32)>)
    requires p.Bounded()
    ensures Quiet(p, p.SubmitAll(frames))
    decreases |frames|
  {
    if frames == [] {
    } else {
      SubmitOneQuiet(p, frames[0].0, frames[0].1);
      SubmitQuiet(p.SubmitOne(frames[0].0, frames[0].1), frames[1..]);
    }
  }

  // ---------------------------------------------------------------------------------------
  // Receiving
  // ---------------------------------------------------------------------------------------

  /** The descriptors the data plane is given for these RX descriptors. */
  function Packets(rx: seq<Descriptor>): (r: seq<DP.PacketDescriptor>)
    ensures |r| == |rx|
    ensures forall i :: 0 <= i < |rx| ==> r[i] == DP.PacketDescriptor(rx[i].address, rx[i].length, rx[i].options)
  {
    seq(|rx|, i requires 0 <= i < |rx| => DP.PacketDescriptor(rx[i].address, rx[i].length, rx[i].options))
  }

  lemma ReceiveOneQuiet(p: Poll, d: Descriptor)
    requires p.Bounded()
    ensures var r := p.ReceiveOne(d).0;
            Quiet(p, r) && r.rt.socket == p.rt.socket
  {
  }

  lemma PacketsFirst(rx: seq<Descriptor>)
    requires rx != []
    ensures [DP.PacketDescriptor(rx[0].address, rx[0].length, rx[0].options)] + Packets(rx[1..]) == Packets(rx)
  {
  }

  /** Every frame received is claimed, in order, and nothing else happens to it. */
  lemma {:induction false} ReceiveClaims(p: Poll, o: Outside, rx: seq<Descriptor>, got: seq<nat>,
                                         r: Poll, claimed: seq<DP.PacketDescriptor>)
    requires Balanced(p, o, Flight(DescriptorAddresses(rx), got, [])) && (r, claimed) == p.ReceiveAll(rx)
    ensures claimed == Packets(rx) && Quiet(p, r) && r.rt.socket == p.rt.socket
    decreases |rx|
  {
    if rx == [] {
    } else {
      var (next, first) := p.ReceiveOne(rx[0]);
      ReceiveHead(p, o, rx, got, next, first);
      ReceiveOneQuiet(p, rx[0]);
      ReceiveSplits(p, rx);
      var rest := next.ReceiveAll(rx[1..]).1;
      ReceiveClaims(next, o, rx[1..], got + [rx[0].address], r, rest);
      PacketsFirst(rx);
    }
  }

  lemma ReceivesTheRing(p: Poll, o: Outside)
    requires Balanced(p, o, NO_FLIGHT)
    ensures var (r, claimed) := p.Receive();
            && claimed == Packets(p.rt.socket.rx.Consume(DP.BATCH_SIZE).1)
            && r.rt.umem == p.rt.umem && r.rt.wheel == p.rt.wheel
            && r.rt.pool.frameSize == p.rt.pool.frameSize
            && r.rt.socket == p.rt.socket.(rx := p.rt.socket.rx.Consume(DP.BATCH_SIZE).0)
  {
    var (rx, received) := p.rt.socket.rx.Consume(DP.BATCH_SIZE);
    var q := p.(rt := p.rt.(socket := p.rt.socket.(rx := rx)), stats := p.stats.(rxFrames := |received|));
    var addresses := DescriptorAddresses(received);
    forall a: nat
      ensures AgreesAt(q, o, Flight(addresses, [], []), a)
    {
      assert AgreesAt(p, o, NO_FLIGHT, a);
      ConsumeSplits(p.rt.socket.rx, DP.BATCH_SIZE, DescriptorKey, a);
      CountSame(received, addresses, DescriptorKey, a);
    }
    assert Balanced(q, o, Flight(addresses, [], []));
    var (r, claimed) := q.ReceiveAll(received);
    ReceiveClaims(q, o, received, [], r, claimed);
  }

  // ---------------------------------------------------------------------------------------
  // Disjoint frames
  // ---------------------------------------------------------------------------------------

  /** Received packets lie inside their frames, and inside UMEM. */
  ghost predicate Sized(w: World) {
    forall i :: 0 <= i < |w.rt.socket.rx.items| ==>
      var d := w.rt.socket.rx.items[i];
      d.length <= w.rt.pool.frameSize && d.address + d.length <= |w.rt.umem|
  }

  /** What holds in every state of every run. */
  ghost predicate Sound(w: World) { Safe(w) && Sized(w) }

  /** Two different frames do not overlap. */
  lemma FramesApart(pool: Pool, a: nat, b: nat)
    requires 0 < pool.frameSize && OwnerAt(pool, a) != Free && OwnerAt(pool, b) != Free && a != b
    ensures a + pool.frameSize <= b || b + pool.frameSize <= a
  {
    HandleOf(pool, a);
    HandleOf(pool, b);
    var i, j := pool.HandleFromAddress(a).frame.index, pool.HandleFromAddress(b).frame.index;
    if i < j {
      MulLe(i + 1, j, pool.frameSize);
    } else {
      MulLe(j + 1, i, pool.frameSize);
    }
  }

  lemma {:induction false} CountTwice(s: seq<nat>, i: nat, j: nat)
    requires i < j < |s| && s[i] == s[j]
    ensures Count(s, s[i]) >= 2
    decreases |s|
  {
    CountHead(s, s[j]);
    if i == 0 {
      CountOnce(s[1..], j - 1);
    } else {
      CountTwice(s[1..], i - 1, j - 1);
    }
  }

  lemma {:induction false} CountOnce(s: seq<nat>, i: nat)
    requires i < |s|
    ensures Count(s, s[i]) >= 1
    decreases |s|
  {
    CountHead(s, s[i]);
    if i == 0 {
    } else {
      CountOnce(s[1..], i - 1);
    }
  }

  /** Frames the data plane holds together are disjoint. */
  lemma HeldFramesApart(p: Poll, o: Outside, rx: seq<DP.PacketDescriptor>)
    requires Balanced(p, o, NO_FLIGHT.(plane := PacketAddresses(rx)))
    requires forall i :: 0 <= i < |rx| ==> rx[i].length <= p.rt.pool.frameSize
    ensures PairwiseApart(rx)
  {
    var plane := PacketAddresses(rx);
    forall i, j | 0 <= i < j < |rx|
      ensures Apart(rx[i], rx[j])
    {
      HeldFrame(p, o, plane, i);
      HeldFrame(p, o, plane, j);
      if plane[i] == plane[j] {
        CountTwice(plane, i, j);
      } else {
        FramesApart(p.rt.pool, plane[i], plane[j]);
      }
    }
  }

  lemma HeldFrame(p: Poll, o: Outside, plane: seq<nat>, i: nat)
    requires Balanced(p, o, NO_FLIGHT.(plane := plane)) && i < |plane|
    ensures OwnerAt(p.rt.pool, plane[i]) == DataPlane && Count(plane, plane[i]) == 1
  {
    assert AgreesAt(p, o, NO_FLIGHT.(plane := plane), plane[i]);
    CountOnce(plane, i);
  }

  // ---------------------------------------------------------------------------------------
  // The batch of a poll
  // ---------------------------------------------------------------------------------------

  /** What the data plane is given in the next poll: the first 64 packets on the RX ring. */
  function Arriving(w: World): seq<DP.PacketDescriptor> {
    Packets(w.rt.socket.rx.Consume(DP.BATCH_SIZE).1)
  }

  lemma BeforeBatchQuiet(w: World)
    requires Safe(w)
    ensures var p := BeforeBatch(w.rt);
            && Balanced(p, w.Outside(), NO_FLIGHT)
            && p.rt.umem == w.rt.umem && p.rt.socket.rx == w.rt.socket.rx
            && p.rt.wheel == w.rt.wheel.Tick().0 && p.rt.pool.frameSize == w.rt.pool.frameSize
            && p.stats.rxFrames == 0
  {
    var start, o := StartPoll(w.rt), w.Outside();
    DrainKeeps(start, o);
    var (next, completed) := start.StartDrain();
    RefillQuiet(next, completed, TxRing);
    var drained := start.DrainCompletions();
    ReleaseKeeps(drained, o);
    StepsKeepBounded(drained.rt.wheel, DelayedFrame(0, 0, 0, 0), 0);
    var (wheel, expired) := drained.rt.wheel.Tick();
    SubmitQuiet(drained.(rt := drained.rt.(wheel := wheel)), DelayedKeys(expired));
  }

  /** The poll's batch is the data plane's batch over the arriving packets, on the bytes and
      the ticked wheel the poll started with, and the packets are disjoint. */
  lemma PollBatchIs(w: World, rules: seq<ChaosRule>)
    requires Sound(w)
    ensures BeforeBatch(w.rt).Receive().1 == Arriving(w) && BeforeBatch(w.rt).Receive().0.rt.umem == w.rt.umem
    ensures |Arriving(w)| <= DP.BATCH_SIZE && PairwiseApart(Arriving(w))
    ensures forall i :: 0 <= i < |Arriving(w)| ==> DP.WithinUmem(Arriving(w)[i], |w.rt.umem|)
    ensures PollBatch(w.rt, rules) ==
            DP.ProcessBatch(w.rt.umem, Step(w.trace, TickOp).wheel, Arriving(w), PollConfig(rules))
  {
    BeforeBatchQuiet(w);
    var p := BeforeBatch(w.rt);
    ReceivesTheRing(p, w.Outside());
    ReceiveBatchKeeps(p, w.Outside());
    HeldFramesApart(p.Receive().0, w.Outside(), Arriving(w));
  }

  /** In every poll of every run: each arriving packet meets the one fate its verdict
      deserves, its verdict being on the bytes the kernel delivered; every packet the rules
      forward is sent; the wheel is asked for the delays of the delaying verdicts. */
  lemma PollDecides(w: World, rules: seq<ChaosRule>)
    requires Sound(w)
    ensures var b, rx, config := PollBatch(w.rt, rules), Arriving(w), PollConfig(rules);
            && Follows(b, rx, Verdicts(w.rt.umem, rx, config), Step(w.trace, TickOp), config)
            && b.stats.overflows == 0
            && forall i :: 0 <= i < |rx| ==>
                 var v := DP.Judge(w.rt.umem, rx[i], config);
                 && (b.fates[i] == DP.Sent <==> Outgoing(v))
                 && (b.fates[i] == DP.Held ==> DP.Delays(v))
                 && b.fates[i] != DP.Overflowed
  {
    PollBatchIs(w, rules);
    BatchFollowsVerdicts(w.rt.umem, Step(w.trace, TickOp), Arriving(w), PollConfig(rules));
    RoomyBatchSends(w.rt.umem, Step(w.trace, TickOp), Arriving(w), PollConfig(rules));
  }
}
