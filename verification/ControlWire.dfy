/** The control core as a client sees it: encoded requests in, decoded responses out. */
module ControlWire {
  import opened Machine
  import opened ChaosEngine
  import opened Protocol
  import opened RuleLayout
  import opened Control
  import Decisions

  /** The core handles what was encoded. */
  lemma RequestArrives(m: ControlModel, h: MessageHeader, payload: seq<Byte>, size: nat)
    requires |payload| <= MAX_PAYLOAD
    ensures m.Handle(Encoding(h, payload), size) == m.Dispatch(h.opcode, h.sequence, payload, size)
  {
    DecodeOfEncoding(h, payload, []);
    assert Encoding(h, payload) + [] == Encoding(h, payload);
  }

  /** The client's view of an answer with this payload. */
  ghost predicate Carries(response: ControlResponse, opcode: Byte, sequence: U32, payload: seq<Byte>) {
    var d := Decode(response.bytes);
    && response.status == Ok && d.status == Ok && d.header.opcode == opcode && d.header.sequence == sequence
    && d.payload == payload
  }

  lemma ResponseCarries(opcode: Byte, sequence: U32, payload: seq<Byte>, size: nat)
    requires EncodeStatus(|payload|, size) == Ok
    ensures Carries(Respond(opcode, sequence, payload, size), opcode, sequence, payload)
  {
    WrittenDecodes(opcode, sequence, payload, size);
  }

  lemma ListDispatched(m: ControlModel, sequence: U32, payload: seq<Byte>, size: nat)
    ensures m.Dispatch(LIST_RULES, sequence, payload, size) ==
            (m, Respond(RULES_RESPONSE, sequence, TableBytes(m.rules), size))
  {
  }

  /** A response from which a client recovers these rules. */
  ghost predicate Lists(response: ControlResponse, sequence: U32, rules: seq<ChaosRule>) {
    var d := Decode(response.bytes);
    && d.status == Ok && d.header.opcode == RULES_RESPONSE && d.header.sequence == sequence
    && |d.payload| == RULE_BYTES * |rules| && TableFrom(d.payload, |rules|) == rules
  }

  lemma TableLists(response: ControlResponse, sequence: U32, rules: seq<ChaosRule>)
    requires Carries(response, RULES_RESPONSE, sequence, TableBytes(rules))
    ensures Lists(response, sequence, rules)
  {
    TableRoundTrip(rules);
  }

  /** A listing request leaves the table alone, and the rules are read back from its response. */
  lemma ListingIsTable(m: ControlModel, h: MessageHeader, payload: seq<Byte>, size: nat,
                       after: ControlModel, response: ControlResponse)
    requires m.Valid() && Roomy(m.maxRules, size) && h.opcode == LIST_RULES && |payload| <= MAX_PAYLOAD
    requires (after, response) == m.Handle(Encoding(h, payload), size)
    ensures after == m && Lists(response, h.sequence, m.rules)
  {
    RequestArrives(m, h, payload, size);
    ListDispatched(m, h.sequence, payload, size);
    TableFits(m, size);
    ResponseCarries(RULES_RESPONSE, h.sequence, TableBytes(m.rules), size);
    TableLists(response, h.sequence, m.rules);
  }

  lemma AddDispatched(m: ControlModel, rule: ChaosRule, sequence: U32, size: nat)
    requires |m.rules| < m.maxRules
    ensures m.Dispatch(ADD_RULE, sequence, RuleBytes(rule), size) ==
            (m.(rules := m.rules + [rule]), Respond(PONG, sequence, [], size))
  {
    RuleRoundTrip(rule);
  }

  lemma AddAcknowledged(m: ControlModel, h: MessageHeader, rule: ChaosRule, size: nat,
                        after: ControlModel, answer: ControlResponse)
    requires m.Valid() && |m.rules| < m.maxRules && Roomy(m.maxRules, size) && h.opcode == ADD_RULE
    requires (after, answer) == m.Handle(Encoding(h, RuleBytes(rule)), size)
    ensures after == m.(rules := m.rules + [rule]) && Carries(answer, PONG, h.sequence, [])
  {
    RequestArrives(m, h, RuleBytes(rule), size);
    AddDispatched(m, rule, h.sequence, size);
    ResponseCarries(PONG, h.sequence, [], size);
  }

  /** A rule sent in an encoded request is acknowledged, and is the last rule of the next
      listing a client asks for and decodes. */
  lemma AddedRuleIsListed(m: ControlModel, h: MessageHeader, rule: ChaosRule, after: ControlModel, answer: ControlResponse,
                          h': MessageHeader, payload: seq<Byte>, last: ControlModel, listing: ControlResponse, size: nat)
    requires m.Valid() && |m.rules| < m.maxRules && Roomy(m.maxRules, size)
    requires h.opcode == ADD_RULE && h'.opcode == LIST_RULES && |payload| <= MAX_PAYLOAD
    requires (after, answer) == m.Handle(Encoding(h, RuleBytes(rule)), size)
    requires (last, listing) == after.Handle(Encoding(h', payload), size)
    ensures Carries(answer, PONG, h.sequence, []) && Lists(listing, h'.sequence, m.rules + [rule])
  {
    AddAcknowledged(m, h, rule, size, after, answer);
    ListingIsTable(after, h', payload, size, last, listing);
  }

  lemma RemoveDispatched(m: ControlModel, index: U32, sequence: U32, size: nat)
    requires index < |m.rules|
    ensures m.Dispatch(REMOVE_RULE, sequence, U32Bytes(index), size) ==
            (m.(rules := Decisions.Without(m.rules, index)), Respond(PONG, sequence, [], size))
  {
    ReadBackU32(U32Bytes(index), 0, index);
  }

  lemma RemoveAcknowledged(m: ControlModel, h: MessageHeader, index: U32, size: nat,
                           after: ControlModel, answer: ControlResponse)
    requires m.Valid() && index < |m.rules| && Roomy(m.maxRules, size) && h.opcode == REMOVE_RULE
    requires (after, answer) == m.Handle(Encoding(h, U32Bytes(index)), size)
    ensures after == m.(rules := Decisions.Without(m.rules, index)) && Carries(answer, PONG, h.sequence, [])
  {
    RequestArrives(m, h, U32Bytes(index), size);
    RemoveDispatched(m, index, h.sequence, size);
    ResponseCarries(PONG, h.sequence, [], size);
  }

  /** Removing by index over the wire, likewise: the next listing lacks that rule and no other. */
  lemma RemovedRuleIsGone(m: ControlModel, h: MessageHeader, index: U32, after: ControlModel, answer: ControlResponse,
                          h': MessageHeader, payload: seq<Byte>, last: ControlModel, listing: ControlResponse, size: nat)
    requires m.Valid() && index < |m.rules| && Roomy(m.maxRules, size)
    requires h.opcode == REMOVE_RULE && h'.opcode == LIST_RULES && |payload| <= MAX_PAYLOAD
    requires (after, answer) == m.Handle(Encoding(h, U32Bytes(index)), size)
    requires (last, listing) == after.Handle(Encoding(h', payload), size)
    ensures Carries(answer, PONG, h.sequence, []) && Lists(listing, h'.sequence, Decisions.Without(m.rules, index))
  {
    RemoveAcknowledged(m, h, index, size, after, answer);
    ListingIsTable(after, h', payload, size, last, listing);
  }

  lemma StatsDispatched(m: ControlModel, sequence: U32, payload: seq<Byte>, size: nat)
    ensures m.Dispatch(GET_STATS, sequence, payload, size) ==
            (m, Respond(STATS_RESPONSE, sequence, m.StatsPayload(), size))
  {
  }

  /** A statistics request returns the record last published, or zeros before the first. */
  lemma StatsAreReturned(m: ControlModel, h: MessageHeader, payload: seq<Byte>, size: nat)
    requires m.Valid() && Roomy(m.maxRules, size) && h.opcode == GET_STATS && |payload| <= MAX_PAYLOAD
    ensures var (after, response) := m.Handle(Encoding(h, payload), size);
            after == m &&
            Carries(response, STATS_RESPONSE, h.sequence, if m.stats.Some? then m.stats.value else seq(STATS_BYTES, _ => 0))
  {
    RequestArrives(m, h, payload, size);
    StatsDispatched(m, h.sequence, payload, size);
    ResponseCarries(STATS_RESPONSE, h.sequence, m.StatsPayload(), size);
    assert m.StatsPayload() == if m.stats.Some? then m.stats.value else seq(STATS_BYTES, _ => 0);
  }
}
