/** Reassembly of control messages from a TCP byte stream.

    A connection appends what each read returns to an 8192-byte buffer, dispatches every
    complete message in it, and keeps the rest. The theorem is that how the stream was cut
    into reads does not matter, exactly if every message is at most 4097 bytes long or so near
    the end of the stream that all the rest fits the buffer, and a length field above the
    protocol's limit stands at most in the stream's last 24 bytes. */
module Reassembly {
  import opened Machine
  import opened Protocol
  import opened Control

  const BUFFER_BYTES: nat := 8192
  const READ_BYTES: nat := 4096
  const MAX_MESSAGE: nat := 4097

  /** `has_complete_message`: an oversized length field counts as complete. */
  predicate HasComplete(b: seq<Byte>) {
    HEADER_BYTES <= |b| && (ReadU32(b, 8) > MAX_PAYLOAD || HEADER_BYTES + ReadU32(b, 8) <= |b|)
  }

  /** `next_message_length`: an oversized length field takes the whole buffer. */
  function NextLength(b: seq<Byte>): nat {
    if |b| < HEADER_BYTES then 0
    else if ReadU32(b, 8) > MAX_PAYLOAD then |b|
    else HEADER_BYTES + ReadU32(b, 8)
  }

  /** The guard that would drop the connection inside the dispatch loop can never fire. */
  lemma GuardUnreachable(b: seq<Byte>)
    requires HasComplete(b)
    ensures HEADER_BYTES <= NextLength(b) <= |b|
  {
  }

  /** The dispatch loop: the messages taken off the front, and what is left. */
  function Drain(b: seq<Byte>): (r: (seq<seq<Byte>>, seq<Byte>))
    decreases |b|
  {
    if !HasComplete(b) then ([], b)
    else
      var n := NextLength(b);
      var (messages, rest) := Drain(b[n..]);
      ([b[..n]] + messages, rest)
  }

  /** A connection: open or removed, its buffer, and the messages dispatched so far. */
  datatype Connection = Connection(isOpen: bool, buffer: seq<Byte>, dispatched: seq<seq<Byte>>)

  const FRESH := Connection(true, [], [])

  function Read(c: Connection, chunk: seq<Byte>): Connection {
    if !c.isOpen then c
    else if |chunk| == 0 then c.(isOpen := false)
    else if |c.buffer| + |chunk| > BUFFER_BYTES then c.(isOpen := false)
    else
      var (messages, rest) := Drain(c.buffer + chunk);
      Connection(true, rest, c.dispatched + messages)
  }

  function ReadAll(c: Connection, chunks: seq<seq<Byte>>): Connection
    decreases |chunks|
  {
    if chunks == [] then c else ReadAll(Read(c, chunks[0]), chunks[1..])
  }

  // ---------------------------------------------------------------------------------------
  // The framing of a stream, independent of reads
  // ---------------------------------------------------------------------------------------

  /** No message announces more than the protocol's largest payload. */
  predicate ProperLengths(s: seq<Byte>)
    decreases |s|
  {
    |s| < HEADER_BYTES ||
    (var n := HEADER_BYTES + ReadU32(s, 8);
     n <= HEADER_BYTES + MAX_PAYLOAD && (|s| < n || ProperLengths(s[n..])))
  }

  /** A header that announces more than the protocol's largest payload. */
  predicate Oversized(s: seq<Byte>) {
    HEADER_BYTES <= |s| && ReadU32(s, 8) > MAX_PAYLOAD
  }

  /** Every message has at most 4097 bytes, or all that is left of the stream from its start
      fits the buffer; and an oversized header is the end of the stream. */
  predicate WellFramed(s: seq<Byte>)
    decreases |s|
  {
    if |s| < HEADER_BYTES then true
    else if Oversized(s) then |s| == HEADER_BYTES
    else
      var n := HEADER_BYTES + ReadU32(s, 8);
      && (n <= MAX_MESSAGE || |s| <= BUFFER_BYTES)
      && (|s| < n || WellFramed(s[n..]))
  }

  /** The messages the length fields frame, and the incomplete one at the end. */
  function Frames(s: seq<Byte>): (r: (seq<seq<Byte>>, seq<Byte>))
    decreases |s|
  {
    if |s| < HEADER_BYTES || |s| < HEADER_BYTES + ReadU32(s, 8) then ([], s)
    else
      var n := HEADER_BYTES + ReadU32(s, 8);
      var (messages, rest) := Frames(s[n..]);
      ([s[..n]] + messages, rest)
  }

  /** What is dispatched of a stream, and what stays in the buffer: an oversized header at the
      end counts as a message. */
  function Settled(s: seq<Byte>): (seq<seq<Byte>>, seq<Byte>) {
    var (messages, rest) := Frames(s);
    if Oversized(rest) then (messages + [rest], []) else (messages, rest)
  }

  lemma SameLength(s: seq<Byte>, t: seq<Byte>)
    requires HEADER_BYTES <= |s| && s <= t
    ensures ReadU32(t, 8) == ReadU32(s, 8)
  {
    assert forall k :: 0 <= k < |s| ==> t[k] == s[k];
  }

  /** What is left after framing is no complete message. */
  lemma {:induction false} RestIsIncomplete(s: seq<Byte>)
    ensures Frames(Frames(s).1) == ([], Frames(s).1)
    decreases |s|
  {
    if |s| < HEADER_BYTES || |s| < HEADER_BYTES + ReadU32(s, 8) {
    } else {
      RestIsIncomplete(s[HEADER_BYTES + ReadU32(s, 8)..]);
    }
  }

  /** An incomplete message and one more read of a well-framed stream fit the buffer. */
  lemma RestFits(rest: seq<Byte>, chunk: seq<Byte>)
    requires Frames(rest) == ([], rest) && WellFramed(rest + chunk) && 1 <= |chunk| <= READ_BYTES
    ensures |rest| + |chunk| <= BUFFER_BYTES
  {
    if HEADER_BYTES <= |rest| {
      SameLength(rest, rest + chunk);
    }
  }

  /** A prefix of a well-framed stream is well framed, and so is what is left of it. */
  lemma {:induction false} FramedPrefix(s: seq<Byte>, c: seq<Byte>)
    requires WellFramed(s + c)
    ensures WellFramed(s)
    ensures WellFramed(Frames(s).1 + c)
    decreases |s|
  {
    if HEADER_BYTES <= |s| {
      SameLength(s, s + c);
      var n := HEADER_BYTES + ReadU32(s, 8);
      if n <= |s| {
        assert (s + c)[n..] == s[n..] + c;
        FramedPrefix(s[n..], c);
      }
    }
  }

  /** More bytes only ever extend the framing: what was framed stays framed. */
  lemma {:induction false} FramesExtend(s: seq<Byte>, c: seq<Byte>)
    ensures Frames(s + c).0 == Frames(s).0 + Frames(Frames(s).1 + c).0
    ensures Frames(s + c).1 == Frames(Frames(s).1 + c).1
    decreases |s|
  {
    if HEADER_BYTES <= |s| && HEADER_BYTES + ReadU32(s, 8) <= |s| {
      SameLength(s, s + c);
      var n := HEADER_BYTES + ReadU32(s, 8);
      assert (s + c)[n..] == s[n..] + c && (s + c)[..n] == s[..n];
      FramesExtend(s[n..], c);
      FramesFirst(s, n);
      FramesFirst(s + c, n);
      Prepend(s[..n], Frames(s[n..]).0, Frames(Frames(s[n..]).1 + c).0);
    } else {
      assert Frames(s) == ([], s);
      assert [] + Frames(s + c).0 == Frames(s + c).0;
    }
  }

  lemma Prepend<T>(x: T, a: seq<T>, b: seq<T>)
    ensures [x] + (a + b) == [x] + a + b
  {
  }

  /** The framing of a stream whose first message is complete. */
  lemma FramesFirst(s: seq<Byte>, n: nat)
    requires HEADER_BYTES <= |s| && n == HEADER_BYTES + ReadU32(s, 8) <= |s|
    ensures Frames(s) == ([s[..n]] + Frames(s[n..]).0, Frames(s[n..]).1)
  {
  }

  lemma SettledFirst(s: seq<Byte>, n: nat)
    requires HEADER_BYTES <= |s| && n == HEADER_BYTES + ReadU32(s, 8) <= |s|
    ensures Settled(s) == ([s[..n]] + Settled(s[n..]).0, Settled(s[n..]).1)
  {
    FramesFirst(s, n);
    var (messages, rest) := Frames(s[n..]);
    assert [s[..n]] + (messages + [rest]) == [s[..n]] + messages + [rest];
  }

  /** On a well-framed buffer the dispatch loop takes exactly the stream's messages. */
  lemma {:induction false} DrainIsFraming(b: seq<Byte>)
    requires WellFramed(b)
    ensures Drain(b) == Settled(b)
    decreases |b|
  {
    if !HasComplete(b) {
    } else if Oversized(b) {
      assert b[..|b|] == b && b[|b|..] == [] && Drain([]) == ([], []);
      assert [b] + [] == [] + [b];
    } else {
      DrainIsFraming(b[NextLength(b)..]);
      SettledFirst(b, NextLength(b));
    }
  }

  function Joined(chunks: seq<seq<Byte>>): seq<Byte> {
    if chunks == [] then [] else chunks[0] + Joined(chunks[1..])
  }

  /** Reads as `recv` returns them: never empty, never more than 4096 bytes. */
  predicate Reads(chunks: seq<seq<Byte>>) {
    forall i :: 0 <= i < |chunks| ==> 1 <= |chunks[i]| <= READ_BYTES
  }

  /** The connection that has seen exactly the bytes `s`. */
  function Seen(s: seq<Byte>): Connection {
    Connection(true, Settled(s).1, Settled(s).0)
  }

  /** A stream that goes on has no oversized header yet. */
  lemma {:induction false} NotOversizedYet(s: seq<Byte>, c: seq<Byte>)
    requires WellFramed(s + c) && c != []
    ensures !Oversized(Frames(s).1)
    decreases |s|
  {
    if HEADER_BYTES <= |s| {
      SameLength(s, s + c);
      var n := HEADER_BYTES + ReadU32(s, 8);
      if n <= |s| {
        assert (s + c)[n..] == s[n..] + c;
        NotOversizedYet(s[n..], c);
      }
    }
  }

  lemma SettledExtends(s: seq<Byte>, c: seq<Byte>)
    ensures Settled(s + c) == (Frames(s).0 + Settled(Frames(s).1 + c).0, Settled(Frames(s).1 + c).1)
  {
    FramesExtend(s, c);
    var (messages, rest) := Frames(Frames(s).1 + c);
    assert Frames(s).0 + (messages + [rest]) == Frames(s).0 + messages + [rest];
  }

  lemma ReadExtends(s: seq<Byte>, chunk: seq<Byte>)
    requires WellFramed(s + chunk) && 1 <= |chunk| <= READ_BYTES
    ensures Read(Seen(s), chunk) == Seen(s + chunk)
  {
    FramedPrefix(s, chunk);
    NotOversizedYet(s, chunk);
    RestIsIncomplete(s);
    RestFits(Frames(s).1, chunk);
    DrainIsFraming(Frames(s).1 + chunk);
    SettledExtends(s, chunk);
  }

  lemma {:induction false} ReadAllExtends(s: seq<Byte>, chunks: seq<seq<Byte>>)
    requires WellFramed(s + Joined(chunks)) && Reads(chunks)
    ensures ReadAll(Seen(s), chunks) == Seen(s + Joined(chunks))
    decreases |chunks|
  {
    if chunks == [] {
      assert s + [] == s;
    } else {
      var next := s + chunks[0];
      assert s + Joined(chunks) == next + Joined(chunks[1..]);
      FramedPrefix(next, Joined(chunks[1..]));
      ReadExtends(s, chunks[0]);
      ReadAllExtends(next, chunks[1..]);
    }
  }

  /** However a well-framed stream is cut into reads of 1 to 4096 bytes, the connection stays
      open, never overflows, and has dispatched exactly the stream's complete messages. */
  lemma SplitsDoNotMatter(chunks: seq<seq<Byte>>)
    requires WellFramed(Joined(chunks)) && Reads(chunks)
    ensures var c := ReadAll(FRESH, chunks);
            c.isOpen && c.dispatched == Settled(Joined(chunks)).0 && c.buffer == Settled(Joined(chunks)).1
  {
    assert [] + Joined(chunks) == Joined(chunks);
    ReadAllExtends([], chunks);
  }

  // ---------------------------------------------------------------------------------------
  // The whole session
  // ---------------------------------------------------------------------------------------

  /** The state after a list of messages, and the responses in order. */
  function Serve<P, R>(p: P, messages: seq<seq<Byte>>, handle: (P, seq<Byte>) -> (P, R)): (r: (P, seq<R>))
    decreases |messages|
  {
    if messages == [] then (p, [])
    else
      var (next, response) := handle(p, messages[0]);
      var (last, rest) := Serve(next, messages[1..], handle);
      (last, [response] + rest)
  }

  lemma {:induction false} ServeOneMore<P, R>(p: P, a: seq<seq<Byte>>, m: seq<Byte>, handle: (P, seq<Byte>) -> (P, R))
    ensures var (q, first) := Serve(p, a, handle);
            Serve(p, a + [m], handle) == (handle(q, m).0, first + [handle(q, m).1])
    decreases |a|
  {
    if a == [] {
      var (next, response) := handle(p, m);
      assert a + [m] == [m] && [m][1..] == [];
      assert Serve(next, [m][1..], handle) == (next, []);
      assert [response] + [] == [] + [response];
    } else {
      assert (a + [m])[0] == a[0] && (a + [m])[1..] == a[1..] + [m];
      var (next, response) := handle(p, a[0]);
      ServeOneMore(next, a[1..], m, handle);
      var (q, first) := Serve(next, a[1..], handle);
      assert [response] + (first + [handle(q, m).1]) == [response] + first + [handle(q, m).1];
    }
  }

  /** The server answers with an 8192-byte buffer. */
  const RESPONSE_BYTES: nat := 8192

  function Answer(p: PlaneModel, message: seq<Byte>): (PlaneModel, ControlResponse) {
    p.HandleRequest(message, RESPONSE_BYTES)
  }

  lemma {:induction false} ServeConcat<P, R>(p: P, a: seq<seq<Byte>>, b: seq<seq<Byte>>,
                                             handle: (P, seq<Byte>) -> (P, R))
    ensures var (q, first) := Serve(p, a, handle);
            var (z, rest) := Serve(q, b, handle);
            Serve(p, a + b, handle) == (z, first + rest)
    decreases |a|
  {
    if a == [] {
      assert a + b == b && [] + Serve(p, b, handle).1 == Serve(p, b, handle).1;
    } else {
      assert (a + b)[0] == a[0] && (a + b)[1..] == a[1..] + b;
      var (next, response) := handle(p, a[0]);
      ServeConcat(next, a[1..], b, handle);
      var (q, first) := Serve(next, a[1..], handle);
      var (z, rest) := Serve(q, b, handle);
      assert [response] + (first + rest) == [response] + first + rest;
    }
  }

  /** A session: each read is dispatched and answered before the next one. A connection that
      was removed is read no more. */
  function Session<P, R>(p: P, c: Connection, chunks: seq<seq<Byte>>, handle: (P, seq<Byte>) -> (P, R)): (P, seq<R>)
    decreases |chunks|
  {
    if chunks == [] || !c.isOpen then (p, [])
    else
      var next := Read(c.(dispatched := []), chunks[0]);
      var (q, first) := Serve(p, next.dispatched, handle);
      var (z, rest) := Session(q, next, chunks[1..], handle);
      (z, first + rest)
  }

  lemma ReadAppends(c: Connection, chunk: seq<Byte>)
    ensures Read(c, chunk).dispatched == c.dispatched + Read(c.(dispatched := []), chunk).dispatched
    ensures Read(c, chunk).(dispatched := []) == Read(c.(dispatched := []), chunk).(dispatched := [])
  {
  }

  lemma {:induction false} ReadAllAppends(c: Connection, chunks: seq<seq<Byte>>)
    ensures ReadAll(c, chunks).dispatched == c.dispatched + ReadAll(c.(dispatched := []), chunks).dispatched
    decreases |chunks|
  {
    if chunks == [] {
    } else {
      var next, bare := Read(c, chunks[0]), Read(c.(dispatched := []), chunks[0]);
      ReadAppends(c, chunks[0]);
      ReadAllAppends(next, chunks[1..]);
      ReadAllAppends(bare, chunks[1..]);
      assert next.(dispatched := []) == bare.(dispatched := []);
      var more := ReadAll(next.(dispatched := []), chunks[1..]).dispatched;
      assert c.dispatched + bare.dispatched + more == c.dispatched + (bare.dispatched + more);
    }
  }

  lemma {:induction false} ClosedDispatchesNothing(c: Connection, chunks: seq<seq<Byte>>)
    requires !c.isOpen
    ensures ReadAll(c, chunks) == c
    decreases |chunks|
  {
    if chunks == [] {
    } else {
      ClosedDispatchesNothing(c, chunks[1..]);
    }
  }

  /** Answering as the reads come in is answering the dispatched messages in order. */
  lemma {:induction false} SessionServes<P, R>(p: P, c: Connection, chunks: seq<seq<Byte>>,
                                               handle: (P, seq<Byte>) -> (P, R))
    requires c.dispatched == []
    ensures Session(p, c, chunks, handle) == Serve(p, ReadAll(c, chunks).dispatched, handle)
    decreases |chunks|
  {
    if chunks == [] || !c.isOpen {
      if !c.isOpen {
        ClosedDispatchesNothing(c, chunks);
      }
    } else {
      var next := Read(c, chunks[0]);
      var bare := next.(dispatched := []);
      var (q, first) := Serve(p, next.dispatched, handle);
      SessionServes(q, bare, chunks[1..], handle);
      SessionForgets(q, next, chunks[1..], handle);
      ReadAllAppends(next, chunks[1..]);
      ServeConcat(p, next.dispatched, ReadAll(bare, chunks[1..]).dispatched, handle);
    }
  }

  lemma SessionForgets<P, R>(p: P, c: Connection, chunks: seq<seq<Byte>>, handle: (P, seq<Byte>) -> (P, R))
    ensures Session(p, c, chunks, handle) == Session(p, c.(dispatched := []), chunks, handle)
  {
  }

  /** However a well-framed stream is cut, the session leaves the control plane with the rules
      and the snapshot, and sends the responses, of the stream's messages handled one by one. */
  lemma SplitsServeAlike(p: PlaneModel, chunks: seq<seq<Byte>>)
    requires WellFramed(Joined(chunks)) && Reads(chunks)
    ensures Session(p, FRESH, chunks, Answer) == Serve(p, Settled(Joined(chunks)).0, Answer)
  {
    SplitsDoNotMatter(chunks);
    SessionServes(p, FRESH, chunks, Answer);
  }
}
