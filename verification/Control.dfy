/** The control core: it decodes a request, changes the rule table, and encodes a response;
    and the plane around it, which publishes a snapshot of the rules for the data plane. */
module Control {
  import opened Machine
  import opened ChaosEngine
  import opened Protocol
  import opened RuleLayout
  import Decisions

  const PING: Byte := 0x01
  const PONG: Byte := 0x02
  const GET_STATS: Byte := 0x10
  const STATS_RESPONSE: Byte := 0x11
  const ADD_RULE: Byte := 0x20
  const REMOVE_RULE: Byte := 0x21
  const CLEAR_RULES: Byte := 0x22
  const LIST_RULES: Byte := 0x23
  const RULES_RESPONSE: Byte := 0x24
  const ERROR: Byte := 0xFF

  const STATS_BYTES: nat := 48
  const MAX_NAME: nat := 19

  /** An error response carries the status's name, character by character. */
  function StatusName(status: ProtocolStatus): string {
    match status
    case Ok => "Ok"
    case BufferTooSmall => "BufferTooSmall"
    case PayloadTooLarge => "PayloadTooLarge"
    case InvalidMagic => "InvalidMagic"
    case InvalidVersion => "InvalidVersion"
    case TruncatedPayload => "TruncatedPayload"
    case CrcMismatch => "CrcMismatch"
    case UnknownOpcode => "UnknownOpcode"
    case InvalidPayload => "InvalidPayload"
    case RuleTableFull => "RuleTableFull"
    case RuleIndexOutOfRange => "RuleIndexOutOfRange"
  }

  function NameBytes(status: ProtocolStatus): (s: seq<Byte>)
    ensures |s| <= MAX_NAME
  {
    var name := StatusName(status);
    seq(|name|, i requires 0 <= i < |name| => if name[i] as int < 0x100 then name[i] as int else 0)
  }

  datatype ControlResponse = ControlResponse(status: ProtocolStatus, opcode: Byte, bytes: seq<Byte>)

  function Header(opcode: Byte, sequence: U32): MessageHeader {
    BLANK_HEADER.(opcode := opcode, sequence := sequence)
  }

  /** What the encoder writes into a response buffer of `size` bytes. */
  function Written(opcode: Byte, sequence: U32, payload: seq<Byte>, size: nat): seq<Byte> {
    if EncodeStatus(|payload|, size) == Ok then Encoding(Header(opcode, sequence), payload) else []
  }

  function Respond(opcode: Byte, sequence: U32, payload: seq<Byte>, size: nat): ControlResponse {
    ControlResponse(EncodeStatus(|payload|, size), opcode, Written(opcode, sequence, payload, size))
  }

  function RespondError(status: ProtocolStatus, sequence: U32, size: nat): ControlResponse {
    ControlResponse(status, ERROR, Written(ERROR, sequence, NameBytes(status), size))
  }

  /** The rule table, its capacity, and the last published statistics record, as bytes. */
  datatype ControlModel = ControlModel(rules: seq<ChaosRule>, maxRules: nat, stats: Option<seq<Byte>>)
  {
    ghost predicate Valid() {
      |rules| <= maxRules && (stats.Some? ==> |stats.value| == STATS_BYTES)
    }

    function StatsPayload(): seq<Byte> {
      match stats
      case Some(bytes) => bytes
      case None => seq(STATS_BYTES, _ => 0)
    }

    function HandleAdd(sequence: U32, payload: seq<Byte>, size: nat): (ControlModel, ControlResponse) {
      if |payload| != RULE_BYTES then (this, RespondError(InvalidPayload, sequence, size))
      else if |rules| >= maxRules then (this, RespondError(RuleTableFull, sequence, size))
      else (this.(rules := rules + [RuleFrom(payload)]), Respond(PONG, sequence, [], size))
    }

    function HandleRemove(sequence: U32, payload: seq<Byte>, size: nat): (ControlModel, ControlResponse) {
      if |payload| != 4 then (this, RespondError(InvalidPayload, sequence, size))
      else
        var index := ReadU32(payload, 0);
        if index >= |rules| then (this, RespondError(RuleIndexOutOfRange, sequence, size))
        else (this.(rules := Decisions.Without(rules, index)), Respond(PONG, sequence, [], size))
    }

    /** Dispatch on the opcode of a request that decoded. */
    function Dispatch(opcode: Byte, sequence: U32, payload: seq<Byte>, size: nat): (ControlModel, ControlResponse) {
      match opcode
      case 0x01 => (this, Respond(PONG, sequence, [], size))
      case 0x10 => (this, Respond(STATS_RESPONSE, sequence, StatsPayload(), size))
      case 0x20 => HandleAdd(sequence, payload, size)
      case 0x21 => HandleRemove(sequence, payload, size)
      case 0x22 => (this.(rules := []), Respond(PONG, sequence, [], size))
      case 0x23 => (this, Respond(RULES_RESPONSE, sequence, TableBytes(rules), size))
      case _ => (this, RespondError(UnknownOpcode, sequence, size))
    }

    function Handle(request: seq<Byte>, size: nat): (ControlModel, ControlResponse) {
      var decoded := Decode(request);
      if decoded.status != Ok then (this, RespondError(decoded.status, 0, size))
      else Dispatch(decoded.header.opcode, decoded.header.sequence, decoded.payload, size)
    }
  }

  // ---------------------------------------------------------------------------------------
  // The plane: snapshots
  // ---------------------------------------------------------------------------------------

  function PeekOpcode(request: seq<Byte>): Byte {
    if |request| < 4 then PING else request[3]
  }

  predicate Mutates(opcode: Byte) {
    opcode == ADD_RULE || opcode == REMOVE_RULE || opcode == CLEAR_RULES
  }

  datatype PlaneModel = PlaneModel(control: ControlModel, snapshot: seq<ChaosRule>)
  {
    function HandleRequest(request: seq<Byte>, size: nat): (PlaneModel, ControlResponse) {
      var (control', response) := control.Handle(request, size);
      (PlaneModel(control',
                  if response.status == Ok && Mutates(PeekOpcode(request)) then control'.rules else snapshot),
       response)
    }
  }

  /** Whether a request, if carried out, changes the rule table: told from the request and the
      table before the call. */
  predicate WouldChange(m: ControlModel, request: seq<Byte>) {
    var decoded := Decode(request);
    && decoded.status == Ok
    && Changes(m, decoded.header.opcode, decoded.payload)
  }

  predicate Changes(m: ControlModel, opcode: Byte, payload: seq<Byte>) {
    match opcode
    case 0x20 => |payload| == RULE_BYTES && |m.rules| < m.maxRules
    case 0x21 => |payload| == 4 && ReadU32(payload, 0) < |m.rules|
    case 0x22 => m.rules != []
    case _ => false
  }

  lemma DispatchAnswersOk(m: ControlModel, opcode: Byte, sequence: U32, payload: seq<Byte>, size: nat)
    requires Changes(m, opcode, payload)
    ensures m.Dispatch(opcode, sequence, payload, size).1.status == (if HEADER_BYTES <= size then Ok else BufferTooSmall)
    ensures Mutates(opcode)
  {
  }

  lemma OpcodePeeked(request: seq<Byte>)
    requires Decode(request).status == Ok
    ensures PeekOpcode(request) == Decode(request).header.opcode
  {
  }

  lemma ChangesIff(m: ControlModel, request: seq<Byte>, size: nat)
    ensures m.Handle(request, size).0.rules != m.rules <==> WouldChange(m, request)
    ensures m.Handle(request, size).0 == m.(rules := m.Handle(request, size).0.rules)
  {
    var decoded := Decode(request);
    if decoded.status == Ok {
      DispatchChangesIff(m, decoded.header.opcode, decoded.header.sequence, decoded.payload, size);
    }
  }

  lemma DispatchChangesIff(m: ControlModel, opcode: Byte, sequence: U32, payload: seq<Byte>, size: nat)
    ensures var r := m.Dispatch(opcode, sequence, payload, size).0;
            (r.rules != m.rules <==> Changes(m, opcode, payload)) && r == m.(rules := r.rules)
  {
    AddChanges(m, sequence, payload, size);
    RemoveChanges(m, sequence, payload, size);
  }

  lemma AddChanges(m: ControlModel, sequence: U32, payload: seq<Byte>, size: nat)
    ensures var r := m.HandleAdd(sequence, payload, size).0;
            (r.rules != m.rules <==> |payload| == RULE_BYTES && |m.rules| < m.maxRules) && r == m.(rules := r.rules)
  {
  }

  lemma RemoveChanges(m: ControlModel, sequence: U32, payload: seq<Byte>, size: nat)
    ensures var r := m.HandleRemove(sequence, payload, size).0;
            && (r.rules != m.rules <==> |payload| == 4 && ReadU32(payload, 0) < |m.rules|)
            && r == m.(rules := r.rules)
  {
  }

  /** A request that changes the table answers Ok exactly when the empty response fits. */
  lemma ChangeAnswersOk(m: ControlModel, request: seq<Byte>, size: nat)
    requires WouldChange(m, request)
    ensures m.Handle(request, size).1.status == (if HEADER_BYTES <= size then Ok else BufferTooSmall)
    ensures Mutates(PeekOpcode(request))
  {
    var decoded := Decode(request);
    OpcodePeeked(request);
    DispatchAnswersOk(m, decoded.header.opcode, decoded.header.sequence, decoded.payload, size);
  }

  /** From a state where the published snapshot is the rule table, one request leaves it so if
      and only if the response buffer holds a header or the request changes nothing. */
  lemma SnapshotInStepIff(p: PlaneModel, request: seq<Byte>, size: nat)
    requires p.snapshot == p.control.rules
    ensures var q := p.HandleRequest(request, size).0;
            q.snapshot == q.control.rules <==> HEADER_BYTES <= size || !WouldChange(p.control, request)
  {
    ChangesIff(p.control, request, size);
    if WouldChange(p.control, request) {
      ChangeAnswersOk(p.control, request, size);
    }
  }

  function Requests(p: PlaneModel, requests: seq<seq<Byte>>, size: nat): PlaneModel
    decreases |requests|
  {
    if requests == [] then p else Requests(p.HandleRequest(requests[0], size).0, requests[1..], size)
  }

  /** Over every sequence of requests, with at least 24 response bytes, the snapshot the data
      plane reads is the rule table, and the table never outgrows its capacity. */
  lemma {:induction false} SnapshotAlwaysInStep(p: PlaneModel, requests: seq<seq<Byte>>, size: nat)
    requires p.control.Valid() && p.snapshot == p.control.rules && HEADER_BYTES <= size
    ensures var q := Requests(p, requests, size);
            q.snapshot == q.control.rules && q.control.Valid() && q.control.maxRules == p.control.maxRules
    decreases |requests|
  {
    if requests == [] {
    } else {
      SnapshotInStepIff(p, requests[0], size);
      HandleKeepsValid(p.control, requests[0], size);
      SnapshotAlwaysInStep(p.HandleRequest(requests[0], size).0, requests[1..], size);
    }
  }

  lemma HandleKeepsValid(m: ControlModel, request: seq<Byte>, size: nat)
    requires m.Valid()
    ensures m.Handle(request, size).0.Valid() && m.Handle(request, size).0.maxRules == m.maxRules
  {
    ChangesIff(m, request, size);
  }

  // ---------------------------------------------------------------------------------------
  // Responses
  // ---------------------------------------------------------------------------------------

  /** A buffer with room for any response of a core with this many rules. */
  predicate Roomy(maxRules: nat, size: nat) {
    RULE_BYTES * maxRules <= MAX_PAYLOAD && HEADER_BYTES + STATS_BYTES <= size &&
    HEADER_BYTES + RULE_BYTES * maxRules <= size
  }

  /** What a client reads off a response. */
  ghost predicate Answers(response: ControlResponse, sequence: U32) {
    var d := Decode(response.bytes);
    d.status == Ok && d.header.sequence == sequence && d.header.opcode == response.opcode
  }

  lemma WrittenDecodes(opcode: Byte, sequence: U32, payload: seq<Byte>, size: nat)
    requires EncodeStatus(|payload|, size) == Ok
    ensures var d := Decode(Written(opcode, sequence, payload, size));
            d.status == Ok && d.header.sequence == sequence && d.header.opcode == opcode && d.payload == payload
  {
    var m := Encoding(Header(opcode, sequence), payload);
    DecodeOfEncoding(Header(opcode, sequence), payload, []);
    assert m + [] == m;
  }

  lemma ErrorAnswers(status: ProtocolStatus, sequence: U32, size: nat)
    requires HEADER_BYTES + MAX_NAME <= size
    ensures Answers(RespondError(status, sequence, size), sequence)
  {
    WrittenDecodes(ERROR, sequence, NameBytes(status), size);
  }

  lemma RespondAnswers(opcode: Byte, sequence: U32, payload: seq<Byte>, size: nat)
    requires EncodeStatus(|payload|, size) == Ok
    ensures Answers(Respond(opcode, sequence, payload, size), sequence)
  {
    WrittenDecodes(opcode, sequence, payload, size);
  }

  lemma AddAnswers(m: ControlModel, sequence: U32, payload: seq<Byte>, size: nat)
    requires Roomy(m.maxRules, size)
    ensures Answers(m.HandleAdd(sequence, payload, size).1, sequence)
  {
    if |payload| != RULE_BYTES {
      ErrorAnswers(InvalidPayload, sequence, size);
    } else if |m.rules| >= m.maxRules {
      ErrorAnswers(RuleTableFull, sequence, size);
    } else {
      RespondAnswers(PONG, sequence, [], size);
    }
  }

  lemma RemoveAnswers(m: ControlModel, sequence: U32, payload: seq<Byte>, size: nat)
    requires Roomy(m.maxRules, size)
    ensures Answers(m.HandleRemove(sequence, payload, size).1, sequence)
  {
    if |payload| != 4 {
      ErrorAnswers(InvalidPayload, sequence, size);
    } else if ReadU32(payload, 0) >= |m.rules| {
      ErrorAnswers(RuleIndexOutOfRange, sequence, size);
    } else {
      RespondAnswers(PONG, sequence, [], size);
    }
  }

  lemma DispatchAnswers(m: ControlModel, opcode: Byte, sequence: U32, payload: seq<Byte>, size: nat)
    requires m.Valid() && Roomy(m.maxRules, size)
    ensures Answers(m.Dispatch(opcode, sequence, payload, size).1, sequence)
  {
    match opcode
    case 0x01 => RespondAnswers(PONG, sequence, [], size);
    case 0x10 => RespondAnswers(STATS_RESPONSE, sequence, m.StatsPayload(), size);
    case 0x20 => AddAnswers(m, sequence, payload, size);
    case 0x21 => RemoveAnswers(m, sequence, payload, size);
    case 0x22 => RespondAnswers(PONG, sequence, [], size);
    case 0x23 =>
      TableFits(m, size);
      RespondAnswers(RULES_RESPONSE, sequence, TableBytes(m.rules), size);
    case _ => ErrorAnswers(UnknownOpcode, sequence, size);
  }

  /** Every request whatsoever gets a response that decodes, with the request's sequence
      number, or zero when the request itself does not decode. */
  lemma EveryRequestAnswered(m: ControlModel, request: seq<Byte>, size: nat)
    requires m.Valid() && Roomy(m.maxRules, size)
    ensures var decoded := Decode(request);
            Answers(m.Handle(request, size).1, if decoded.status == Ok then decoded.header.sequence else 0)
  {
    var decoded := Decode(request);
    if decoded.status == Ok {
      DispatchAnswers(m, decoded.header.opcode, decoded.header.sequence, decoded.payload, size);
    } else {
      ErrorAnswers(decoded.status, 0, size);
    }
  }

  lemma TableFits(m: ControlModel, size: nat)
    requires m.Valid() && Roomy(m.maxRules, size)
    ensures EncodeStatus(|TableBytes(m.rules)|, size) == Ok
  {
    TableRoundTrip(m.rules);
    MulLe(|m.rules|, m.maxRules, RULE_BYTES);
  }

  /** The default core and server: 128 rules, 8192 response bytes. */
  lemma DefaultsAreRoomy()
    ensures Roomy(128, 8192)
  {
  }
}
