/** The connection buffer object and the server's read handler. Sends are taken to succeed. */
module ReassemblyObject {
  import opened Machine
  import opened Protocol
  import opened Control
  import opened ControlObject
  import opened Reassembly

  class ConnectionBuffer {
    const buffer: array<Byte>
    var writePos: nat
    var overflowed: bool

    ghost predicate Valid()
      reads this
    {
      buffer.Length == BUFFER_BYTES && writePos <= buffer.Length
    }

    ghost function Contents(): seq<Byte>
      requires Valid()
      reads this, buffer
    {
      buffer[..writePos]
    }

    constructor ()
      ensures Valid() && fresh(buffer) && Contents() == [] && !overflowed
    {
      buffer := new Byte[BUFFER_BYTES](_ => 0);
      writePos := 0;
      overflowed := false;
    }

    method Append(data: seq<Byte>) returns (copied: nat)
      requires Valid()
      modifies this, buffer
      ensures Valid()
      ensures copied == Min(|data|, BUFFER_BYTES - |old(Contents())|)
      ensures Contents() == old(Contents()) + data[..copied]
      ensures overflowed == (old(overflowed) || copied != |data|)
    {
      var space := buffer.Length - writePos;
      copied := if |data| < space then |data| else space;
      for k := 0 to copied
        invariant writePos == old(writePos) && overflowed == old(overflowed)
        invariant buffer[..writePos] == old(Contents())
        invariant buffer[writePos..writePos + k] == data[..k]
      {
        buffer[writePos + k] := data[k];
      }
      ghost var front := buffer[..writePos];
      assert buffer[..writePos + copied] == front + data[..copied];
      writePos := writePos + copied;
      overflowed := overflowed || copied != |data|;
    }

    /** Drop `count` bytes from the front and move the rest down. */
    method Consume(count: nat)
      requires Valid()
      modifies this`writePos, buffer
      ensures Valid()
      ensures Contents() == if count >= |old(Contents())| then [] else old(Contents())[count..]
    {
      if count >= writePos {
        writePos := 0;
        return;
      }
      var rest := writePos - count;
      for k := 0 to rest
        invariant writePos == old(writePos)
        invariant forall i :: 0 <= i < k ==> buffer[i] == old(buffer[i + count])
        invariant forall i :: k <= i < buffer.Length ==> buffer[i] == old(buffer[i])
      {
        buffer[k] := buffer[k + count];
      }
      writePos := rest;
      assert buffer[..writePos] == old(buffer[..writePos])[count..];
    }

    method HasCompleteMessage() returns (complete: bool)
      requires Valid()
      ensures complete == HasComplete(Contents())
    {
      if writePos < HEADER_BYTES {
        return false;
      }
      var payloadLength := ReadU32(buffer[..writePos], 8);
      if payloadLength > MAX_PAYLOAD {
        return true;
      }
      return writePos >= HEADER_BYTES + payloadLength;
    }

    method NextMessageLength() returns (length: nat)
      requires Valid()
      ensures length == NextLength(Contents())
    {
      if writePos < HEADER_BYTES {
        return 0;
      }
      var payloadLength := ReadU32(buffer[..writePos], 8);
      if payloadLength > MAX_PAYLOAD {
        return writePos;
      }
      return HEADER_BYTES + payloadLength;
    }
  }

  /** Answer the first message in the buffer and take it out. */
  method DispatchOne(connection: ConnectionBuffer, core: ControlPlaneCore, length: nat) returns (sent: ControlResponse)
    requires connection.Valid() && core.Valid() && {connection, connection.buffer} !! core.Repr()
    requires 0 < length <= |connection.Contents()|
    modifies connection`writePos, connection.buffer, core.Repr()
    ensures connection.Valid() && core.Valid()
    ensures connection.Contents() == old(connection.Contents())[length..]
    ensures (core.Model(), sent) == Answer(old(core.Model()), old(connection.Contents())[..length])
  {
    var message := connection.buffer[..connection.writePos][..length];
    var response := new Byte[RESPONSE_BYTES](_ => 0);
    var status, opcode, written := core.HandleRequest(message, response);
    sent := ControlResponse(status, opcode, response[..written]);
    connection.Consume(length);
    assert old(connection.Contents())[|old(connection.Contents())|..] == [];
  }

  /** One message more: what has been served so far, followed by what is in the buffer, is the
      same as before. */
  lemma DrainOneMore(served: seq<seq<Byte>>, b: seq<Byte>)
    requires HasComplete(b)
    ensures var n := NextLength(b);
            && n <= |b|
            && served + Drain(b).0 == served + [b[..n]] + Drain(b[n..]).0
            && Drain(b).1 == Drain(b[n..]).1
  {
    var n := NextLength(b);
    var tail := Drain(b[n..]);
    assert Drain(b) == ([b[..n]] + tail.0, tail.1);
    Regroup(served, [b[..n]], tail.0);
  }

  lemma Regroup<T>(a: seq<T>, b: seq<T>, c: seq<T>)
    ensures a + (b + c) == a + b + c
  {
  }

  /** The body of the loop: the server has answered `served`, and answers one more. */
  method DispatchNext(connection: ConnectionBuffer, core: ControlPlaneCore, responses: seq<ControlResponse>,
                      ghost start: PlaneModel, ghost served: seq<seq<Byte>>)
    returns (all: seq<ControlResponse>)
    requires connection.Valid() && core.Valid() && {connection, connection.buffer} !! core.Repr()
    requires HasComplete(connection.Contents())
    requires (core.Model(), responses) == Serve(start, served, Answer)
    modifies connection`writePos, connection.buffer, core.Repr()
    ensures connection.Valid() && core.Valid()
    ensures HEADER_BYTES <= NextLength(old(connection.Contents())) <= |old(connection.Contents())|
    ensures connection.Contents() == old(connection.Contents())[NextLength(old(connection.Contents()))..]
    ensures var b := old(connection.Contents());
            (core.Model(), all) == Serve(start, served + [b[..NextLength(b)]], Answer)
  {
    var length := connection.NextMessageLength();
    GuardUnreachable(connection.Contents());
    if length == 0 || length > connection.writePos {
      assert false;  // the connection would be removed here
    }
    ServeOneMore(start, served, connection.Contents()[..length], Answer);
    var sent := DispatchOne(connection, core, length);
    all := responses + [sent];
  }

  /** The loop of `handle_client`: answer every complete message, in order. The guard on the
      message length is what GuardUnreachable shows cannot fail. */
  method DispatchAll(connection: ConnectionBuffer, core: ControlPlaneCore) returns (responses: seq<ControlResponse>)
    requires connection.Valid() && core.Valid() && {connection, connection.buffer} !! core.Repr()
    modifies connection`writePos, connection.buffer, core.Repr()
    ensures connection.Valid() && core.Valid()
    ensures var (messages, rest) := Drain(old(connection.Contents()));
            connection.Contents() == rest && (core.Model(), responses) == Serve(old(core.Model()), messages, Answer)
  {
    responses := [];
    ghost var served, all := [], Drain(connection.Contents());
    ghost var start := core.Model();
    assert [] + all.0 == all.0;
    var complete := connection.HasCompleteMessage();
    while complete
      invariant connection.Valid() && core.Valid()
      invariant complete == HasComplete(connection.Contents())
      invariant all.0 == served + Drain(connection.Contents()).0
      invariant all.1 == Drain(connection.Contents()).1
      invariant (core.Model(), responses) == Serve(start, served, Answer)
      decreases |connection.Contents()|
    {
      ghost var b := connection.Contents();
      DrainOneMore(served, b);
      responses := DispatchNext(connection, core, responses, start, served);
      served := served + [b[..NextLength(b)]];
      complete := connection.HasCompleteMessage();
    }
    assert served + [] == served;
  }

  /** One readable event: append what `recv` returned, then dispatch. */
  method HandleRead(connection: ConnectionBuffer, core: ControlPlaneCore, chunk: seq<Byte>)
    returns (isOpen: bool, responses: seq<ControlResponse>)
    requires connection.Valid() && core.Valid() && {connection, connection.buffer} !! core.Repr()
    requires !connection.overflowed
    modifies connection, connection.buffer, core.Repr()
    ensures connection.Valid() && core.Valid()
    ensures var c := Read(Connection(true, old(connection.Contents()), []), chunk);
            && isOpen == c.isOpen
            && (isOpen ==> connection.Contents() == c.buffer && !connection.overflowed)
            && (core.Model(), responses) == Serve(old(core.Model()), c.dispatched, Answer)
  {
    if |chunk| == 0 {
      return false, [];
    }
    var copied := connection.Append(chunk);
    if copied != |chunk| || connection.overflowed {
      return false, [];
    }
    assert chunk[..copied] == chunk;
    isOpen := true;
    responses := DispatchAll(connection, core);
    ghost var messages := Drain(old(connection.Contents()) + chunk).0;
    assert [] + messages == messages;
  }

  /** One step of a session, and the rest of it. */
  lemma SessionStep(p: PlaneModel, b: seq<Byte>, chunks: seq<seq<Byte>>, sent: seq<ControlResponse>)
    requires chunks != []
    ensures var next := Read(Connection(true, b, []), chunks[0]);
            var (q, first) := Serve(p, next.dispatched, Answer);
            var (z, all) := Session(p, Connection(true, b, []), chunks, Answer);
            var (z', rest) := Session(q, next, chunks[1..], Answer);
            z == z' && sent + all == sent + first + rest
  {
    var next := Read(Connection(true, b, []), chunks[0]);
    var (q, first) := Serve(p, next.dispatched, Answer);
    Regroup(sent, first, Session(q, next, chunks[1..], Answer).1);
  }

  /** The event loop's readable events for one connection: each read is appended, dispatched
      and answered before the next, until there are no more or the connection is removed. */
  method HandleReads(connection: ConnectionBuffer, core: ControlPlaneCore, chunks: seq<seq<Byte>>)
    returns (isOpen: bool, responses: seq<ControlResponse>)
    requires connection.Valid() && core.Valid() && {connection, connection.buffer} !! core.Repr()
    requires !connection.overflowed
    modifies connection, connection.buffer, core.Repr()
    ensures connection.Valid() && core.Valid()
    ensures (core.Model(), responses) ==
            Session(old(core.Model()), Connection(true, old(connection.Contents()), []), chunks, Answer)
  {
    isOpen, responses := true, [];
    ghost var all := Session(core.Model(), Connection(true, connection.Contents(), []), chunks, Answer);
    assert [] + all.1 == all.1;
    var k := 0;
    while isOpen && k < |chunks|
      invariant connection.Valid() && core.Valid() && k <= |chunks|
      invariant isOpen ==> !connection.overflowed
      invariant var (z, rest) := Session(core.Model(), Connection(isOpen, connection.Contents(), []), chunks[k..], Answer);
                all == (z, responses + rest)
      decreases |chunks| - k
    {
      ghost var b := connection.Contents();
      ghost var next := Read(Connection(true, b, []), chunks[k]);
      assert chunks[k..][0] == chunks[k] && chunks[k..][1..] == chunks[k + 1..];
      SessionStep(core.Model(), b, chunks[k..], responses);
      var sent;
      isOpen, sent := HandleRead(connection, core, chunks[k]);
      SessionForgets(core.Model(), next, chunks[k + 1..], Answer);
      responses := responses + sent;
      k := k + 1;
    }
    assert responses + [] == responses;
  }
}
