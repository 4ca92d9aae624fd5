/** The framing condition is exact: a stream that is not well framed has a cut that closes its
    connection, or two cuts that dispatch different messages. */
module ReassemblyLimits {
  import opened Machine
  import opened Protocol
  import opened Reassembly

  // ---------------------------------------------------------------------------------------
  // Reads, one after another
  // ---------------------------------------------------------------------------------------

  lemma ReadTwo(c: Connection, x: seq<Byte>, y: seq<Byte>)
    ensures ReadAll(c, [x, y]) == Read(Read(c, x), y)
  {
    assert [x, y][1..] == [y];
    assert ReadAll(Read(c, x), [y]) == ReadAll(Read(Read(c, x), y), [y][1..]);
  }

  lemma ReadThree(c: Connection, x: seq<Byte>, y: seq<Byte>, z: seq<Byte>)
    ensures ReadAll(c, [x, y, z]) == Read(Read(Read(c, x), y), z)
  {
    assert [x, y, z][1..] == [y, z];
    ReadTwo(Read(c, x), y, z);
  }

  lemma {:induction false} ReadAllConcat(c: Connection, a: seq<seq<Byte>>, b: seq<seq<Byte>>)
    ensures ReadAll(c, a + b) == ReadAll(ReadAll(c, a), b)
    decreases |a|
  {
    if a == [] {
      assert a + b == b;
    } else {
      assert (a + b)[0] == a[0] && (a + b)[1..] == a[1..] + b;
      ReadAllConcat(Read(c, a[0]), a[1..], b);
    }
  }

  lemma {:induction false} JoinedConcat(a: seq<seq<Byte>>, b: seq<seq<Byte>>)
    ensures Joined(a + b) == Joined(a) + Joined(b)
    decreases |a|
  {
    if a == [] {
      assert a + b == b;
    } else {
      assert (a + b)[0] == a[0] && (a + b)[1..] == a[1..] + b;
      JoinedConcat(a[1..], b);
    }
  }

  lemma JoinedOne(x: seq<Byte>)
    ensures Joined([x]) == x
  {
    assert [x][1..] == [] && x + [] == x;
  }

  lemma JoinedThree(x: seq<Byte>, y: seq<Byte>, z: seq<Byte>)
    ensures Joined([x, y, z]) == x + y + z
  {
    JoinedConcat([x], [y]);
    JoinedConcat([x] + [y], [z]);
    assert [x] + [y] + [z] == [x, y, z];
    JoinedOne(x);
    JoinedOne(y);
    JoinedOne(z);
  }

  /** A cut of a byte string into reads, as long as they come. */
  function Pieces(s: seq<Byte>): (r: seq<seq<Byte>>)
    ensures Reads(r) && Joined(r) == s
    decreases |s|
  {
    if s == [] then []
    else if |s| <= READ_BYTES then
      JoinedOne(s);
      [s]
    else
      var rest := Pieces(s[READ_BYTES..]);
      JoinedOne(s[..READ_BYTES]);
      JoinedConcat([s[..READ_BYTES]], rest);
      [s[..READ_BYTES]] + rest
  }

  /** A cut of this stream. */
  ghost predicate CutOf(chunks: seq<seq<Byte>>, s: seq<Byte>) {
    Reads(chunks) && Joined(chunks) == s
  }

  lemma CutBoth(a: seq<seq<Byte>>, x: seq<Byte>, b: seq<seq<Byte>>, y: seq<Byte>, s: seq<Byte>)
    requires CutOf(a, x) && CutOf(b, y) && x + y == s
    ensures CutOf(a + b, s)
  {
    JoinedConcat(a, b);
  }

  /** A first read, and the rest as it comes. */
  function CutAt(s: seq<Byte>, n: nat): (r: seq<seq<Byte>>)
    requires 1 <= n <= |s| && n <= READ_BYTES
    ensures CutOf(r, s)
  {
    JoinedOne(s[..n]);
    CutBoth([s[..n]], s[..n], Pieces(s[n..]), s[n..], s);
    [s[..n]] + Pieces(s[n..])
  }

  lemma {:induction false} ClosedStaysClosed(c: Connection, chunks: seq<seq<Byte>>)
    requires !c.isOpen
    ensures !ReadAll(c, chunks).isOpen
    decreases |chunks|
  {
    if chunks == [] {
    } else {
      ClosedStaysClosed(c, chunks[1..]);
    }
  }

  // ---------------------------------------------------------------------------------------
  // A message too long for what follows it
  // ---------------------------------------------------------------------------------------

  /** Bytes that complete no message wait in the buffer. */
  lemma ReadWaits(c: Connection, chunk: seq<Byte>)
    requires c.isOpen && 0 < |chunk| && |c.buffer| + |chunk| <= BUFFER_BYTES && !HasComplete(c.buffer + chunk)
    ensures Read(c, chunk) == c.(buffer := c.buffer + chunk)
  {
    assert c.dispatched + [] == c.dispatched;
  }

  /** A long message and enough behind it, met with an empty buffer. */
  ghost predicate TooLong(s: seq<Byte>) {
    BUFFER_BYTES < |s| && MAX_MESSAGE < HEADER_BYTES + ReadU32(s, 8) <= HEADER_BYTES + MAX_PAYLOAD
  }

  /** A message of any length above 4097, met with an empty buffer, loses its connection when
      it and what follows it arrive in reads of 4096, 1 and 4096 bytes: 4097 bytes are waiting
      when 4096 more come in. */
  lemma LongerMessageCanOverflow(c: Connection, s: seq<Byte>)
    requires c.isOpen && c.buffer == [] && TooLong(s)
    ensures !ReadAll(c, [s[..READ_BYTES], s[READ_BYTES..READ_BYTES + 1], s[READ_BYTES + 1..BUFFER_BYTES + 1]]).isOpen
  {
    var a, b, z := s[..READ_BYTES], s[READ_BYTES..READ_BYTES + 1], s[READ_BYTES + 1..BUFFER_BYTES + 1];
    SameLength(a, s);
    assert [] + a == a && a + b == s[..READ_BYTES + 1];
    SameLength(s[..READ_BYTES + 1], s);
    ReadWaits(c, a);
    ReadWaits(c.(buffer := a), b);
    ReadThree(c, a, b, z);
  }

  /** While reads of 4096 and 4096 bytes of the same stream deliver it, if it fits the buffer
      at all: above 4097 bytes the outcome depends on how the bytes arrive. */
  lemma SameMessageCanArrive(s: seq<Byte>)
    requires TooLong(s) && HEADER_BYTES + ReadU32(s, 8) <= BUFFER_BYTES
    ensures var c := ReadAll(FRESH, [s[..READ_BYTES], s[READ_BYTES..2 * READ_BYTES]]);
            c.isOpen && [s[..HEADER_BYTES + ReadU32(s, 8)]] <= c.dispatched
  {
    var a, b, n := s[..READ_BYTES], s[READ_BYTES..2 * READ_BYTES], HEADER_BYTES + ReadU32(s, 8);
    SameLength(a, s);
    assert [] + a == a && a + b == s[..2 * READ_BYTES];
    ReadWaits(FRESH, a);
    ReadTwo(FRESH, a, b);
    SameLength(a + b, s);
    FirstDispatched(FRESH.(buffer := a), b, n);
    assert (a + b)[..n] == s[..n];
  }

  /** A read that completes the message at the front of the buffer dispatches it. */
  lemma FirstDispatched(c: Connection, chunk: seq<Byte>, n: nat)
    requires c.isOpen && 0 < |chunk| && |c.buffer| + |chunk| <= BUFFER_BYTES
    requires HasComplete(c.buffer + chunk) && n == NextLength(c.buffer + chunk)
    ensures n <= |c.buffer + chunk| && Read(c, chunk).isOpen
    ensures c.dispatched + [(c.buffer + chunk)[..n]] <= Read(c, chunk).dispatched
  {
    var b := c.buffer + chunk;
    var (messages, rest) := Drain(b[n..]);
    assert c.dispatched + ([b[..n]] + messages) == c.dispatched + [b[..n]] + messages;
  }

  /** A cut that closes the connection at a message too long for what follows it. */
  lemma OverflowHere(c: Connection, s: seq<Byte>) returns (chunks: seq<seq<Byte>>)
    requires c.isOpen && c.buffer == [] && TooLong(s)
    ensures CutOf(chunks, s) && !ReadAll(c, chunks).isOpen
  {
    var n := BUFFER_BYTES + 1;
    var x, y, z := s[..READ_BYTES], s[READ_BYTES..READ_BYTES + 1], s[READ_BYTES + 1..n];
    LongerMessageCanOverflow(c, s);
    JoinedThree(x, y, z);
    assert x + y + z == s[..n] && s[..n] + s[n..] == s;
    CutBoth([x, y, z], s[..n], Pieces(s[n..]), s[n..], s);
    ReadAllConcat(c, [x, y, z], Pieces(s[n..]));
    ClosedStaysClosed(ReadAll(c, [x, y, z]), Pieces(s[n..]));
    chunks := [x, y, z] + Pieces(s[n..]);
  }

  // ---------------------------------------------------------------------------------------
  // An oversized length
  // ---------------------------------------------------------------------------------------

  /** What has been dispatched stays dispatched. */
  lemma {:induction false} DispatchedGrows(c: Connection, chunks: seq<seq<Byte>>)
    ensures c.dispatched <= ReadAll(c, chunks).dispatched
    decreases |chunks|
  {
    if chunks == [] {
    } else {
      ReadAppends(c, chunks[0]);
      DispatchedGrows(Read(c, chunks[0]), chunks[1..]);
    }
  }

  /** An oversized header takes all of the first read. */
  lemma OversizedTakesRead(c: Connection, s: seq<Byte>, n: nat)
    requires c.isOpen && c.buffer == [] && Oversized(s) && HEADER_BYTES <= n <= |s| && n <= READ_BYTES
    ensures c.dispatched + [s[..n]] <= ReadAll(c, CutAt(s, n)).dispatched
  {
    SameLength(s[..n], s);
    assert [] + s[..n] == s[..n] && s[..n][..n] == s[..n];
    FirstDispatched(c, s[..n], n);
    ReadAllConcat(c, [s[..n]], Pieces(s[n..]));
    assert ReadAll(c, [s[..n]]) == ReadAll(Read(c, s[..n]), [s[..n]][1..]);
    DispatchedGrows(Read(c, s[..n]), Pieces(s[n..]));
  }

  /** So with anything behind it, what is dispatched depends on the cut. */
  lemma OversizedLengthDependsOnCut(c: Connection, s: seq<Byte>)
    requires c.isOpen && c.buffer == [] && Oversized(s) && HEADER_BYTES < |s|
    ensures ReadAll(c, CutAt(s, HEADER_BYTES)).dispatched != ReadAll(c, CutAt(s, HEADER_BYTES + 1)).dispatched
  {
    OversizedTakesRead(c, s, HEADER_BYTES);
    OversizedTakesRead(c, s, HEADER_BYTES + 1);
    var x, y := ReadAll(c, CutAt(s, HEADER_BYTES)).dispatched, ReadAll(c, CutAt(s, HEADER_BYTES + 1)).dispatched;
    var k := |c.dispatched|;
    assert x[k] == (c.dispatched + [s[..HEADER_BYTES]])[k] && y[k] == (c.dispatched + [s[..HEADER_BYTES + 1]])[k];
    assert |x[k]| != |y[k]|;
  }

  // ---------------------------------------------------------------------------------------
  // Every stream
  // ---------------------------------------------------------------------------------------

  /** What was dispatched before has no bearing on what is read next. */
  lemma {:induction false} HistoryDoesNotMatter(c: Connection, d: Connection, chunks: seq<seq<Byte>>)
    requires c.isOpen == d.isOpen && c.buffer == d.buffer
    ensures var x, y := ReadAll(c, chunks), ReadAll(d, chunks);
            x.isOpen == y.isOpen && x.buffer == y.buffer
    decreases |chunks|
  {
    if chunks == [] {
    } else {
      HistoryDoesNotMatter(Read(c, chunks[0]), Read(d, chunks[0]), chunks[1..]);
    }
  }

  /** A message of its announced length that fits the buffer. */
  ghost predicate Whole(m: seq<Byte>) {
    HEADER_BYTES <= |m| <= BUFFER_BYTES && HEADER_BYTES + ReadU32(m, 8) == |m| <= HEADER_BYTES + MAX_PAYLOAD
  }

  lemma WholeSettles(m: seq<Byte>)
    requires Whole(m)
    ensures WellFramed(m) && Settled(m).1 == []
  {
    assert m[|m|..] == [];
    SettledFirst(m, |m|);
  }

  /** Delivered on its own, it leaves the buffer empty. */
  lemma DeliverOne(c: Connection, m: seq<Byte>)
    requires c.isOpen && c.buffer == [] && Whole(m)
    ensures ReadAll(c, Pieces(m)).isOpen && ReadAll(c, Pieces(m)).buffer == []
  {
    WholeSettles(m);
    SplitsDoNotMatter(Pieces(m));
    HistoryDoesNotMatter(FRESH, c, Pieces(m));
  }

  /** Two cuts of a stream, met by this connection, that tell against it. */
  ghost predicate Tells(c: Connection, s: seq<Byte>, a: seq<seq<Byte>>, b: seq<seq<Byte>>) {
    && CutOf(a, s) && CutOf(b, s)
    && (ReadAll(c, a).isOpen ==> !ProperLengths(s) && ReadAll(c, a).dispatched != ReadAll(c, b).dispatched)
  }

  /** A whole message in front of a stream leaves what tells against it. */
  lemma TellsLater(c: Connection, m: seq<Byte>, rest: seq<Byte>, s: seq<Byte>, a: seq<seq<Byte>>, b: seq<seq<Byte>>)
    requires m + rest == s && Tells(ReadAll(c, Pieces(m)), rest, a, b) && (ProperLengths(s) ==> ProperLengths(rest))
    ensures Tells(c, s, Pieces(m) + a, Pieces(m) + b)
  {
    CutBoth(Pieces(m), m, a, rest, s);
    CutBoth(Pieces(m), m, b, rest, s);
    ReadAllConcat(c, Pieces(m), a);
    ReadAllConcat(c, Pieces(m), b);
  }

  /** The first message of a stream that goes wrong only later. */
  lemma FirstIsWhole(s: seq<Byte>, n: nat)
    requires !WellFramed(s) && !Oversized(s) && n == HEADER_BYTES + ReadU32(s, 8) && !TooLong(s)
    ensures n <= |s| && Whole(s[..n]) && !WellFramed(s[n..]) && (ProperLengths(s) ==> ProperLengths(s[n..]))
  {
    SameLength(s[..n], s);
  }

  lemma OversizedTells(c: Connection, s: seq<Byte>)
    requires c.isOpen && c.buffer == [] && Oversized(s) && HEADER_BYTES < |s|
    ensures Tells(c, s, CutAt(s, HEADER_BYTES), CutAt(s, HEADER_BYTES + 1))
  {
    OversizedLengthDependsOnCut(c, s);
  }

  lemma OverflowTells(c: Connection, s: seq<Byte>) returns (a: seq<seq<Byte>>)
    requires c.isOpen && c.buffer == [] && TooLong(s)
    ensures Tells(c, s, a, a)
  {
    a := OverflowHere(c, s);
  }

  /** The rest of the stream tells, after its first message. */
  lemma LaterTells(c: Connection, s: seq<Byte>, n: nat, a: seq<seq<Byte>>, b: seq<seq<Byte>>)
    requires !WellFramed(s) && !Oversized(s) && n == HEADER_BYTES + ReadU32(s, 8) <= |s| && !TooLong(s)
    requires Tells(ReadAll(c, Pieces(s[..n])), s[n..], a, b)
    ensures Tells(c, s, Pieces(s[..n]) + a, Pieces(s[..n]) + b)
  {
    FirstIsWhole(s, n);
    assert s[..n] + s[n..] == s;
    TellsLater(c, s[..n], s[n..], s, a, b);
  }

  lemma {:induction false} TellingCuts(c: Connection, s: seq<Byte>) returns (a: seq<seq<Byte>>, b: seq<seq<Byte>>)
    requires c.isOpen && c.buffer == [] && !WellFramed(s)
    ensures Tells(c, s, a, b)
    decreases |s|
  {
    if Oversized(s) {
      OversizedTells(c, s);
      a, b := CutAt(s, HEADER_BYTES), CutAt(s, HEADER_BYTES + 1);
    } else if TooLong(s) {
      a := OverflowTells(c, s);
      b := a;
    } else {
      var n := HEADER_BYTES + ReadU32(s, 8);
      FirstIsWhole(s, n);
      DeliverOne(c, s[..n]);
      a, b := TellingCuts(ReadAll(c, Pieces(s[..n])), s[n..]);
      LaterTells(c, s, n, a, b);
      a, b := Pieces(s[..n]) + a, Pieces(s[..n]) + b;
    }
  }

  /** Every cut keeps the connection open, and all cuts dispatch the same messages. */
  ghost predicate CutsAgree(s: seq<Byte>) {
    && (forall a: seq<seq<Byte>> :: CutOf(a, s) ==> ReadAll(FRESH, a).isOpen)
    && (forall a: seq<seq<Byte>>, b: seq<seq<Byte>> ::
          CutOf(a, s) && CutOf(b, s) ==> ReadAll(FRESH, a).dispatched == ReadAll(FRESH, b).dispatched)
  }

  lemma WellFramedAgrees(s: seq<Byte>)
    requires WellFramed(s)
    ensures CutsAgree(s)
  {
    forall a: seq<seq<Byte>> | CutOf(a, s)
      ensures ReadAll(FRESH, a).isOpen && ReadAll(FRESH, a).dispatched == Settled(s).0
    {
      SplitsDoNotMatter(a);
    }
  }

  /** The exact condition, over every stream whatsoever: how it is cut into reads does not
      matter, neither to the connection nor to what is dispatched, if and only if the stream
      is well framed. */
  lemma CutsAgreeIff(s: seq<Byte>)
    ensures CutsAgree(s) <==> WellFramed(s)
  {
    if WellFramed(s) {
      WellFramedAgrees(s);
    } else {
      var a, b := TellingCuts(FRESH, s);
    }
  }

  /** Without oversized length fields, staying open is enough to tell. */
  lemma AllCutsStayOpenIff(s: seq<Byte>)
    requires ProperLengths(s)
    ensures WellFramed(s) <==> forall a: seq<seq<Byte>> :: CutOf(a, s) ==> ReadAll(FRESH, a).isOpen
  {
    if WellFramed(s) {
      WellFramedAgrees(s);
    } else {
      var a, b := TellingCuts(FRESH, s);
    }
  }
}
