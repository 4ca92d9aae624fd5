/** The rule table, the control core and the control plane as objects. */
module ControlObject {
  import opened Machine
  import opened ChaosEngine
  import opened Protocol
  import opened ProtocolMethods
  import opened RuleLayout
  import opened Control
  import Decisions

  class RuleTable {
    const rules: array<ChaosRule>
    var count: nat

    ghost predicate Valid()
      reads this
    {
      count <= rules.Length
    }

    ghost function Contents(): seq<ChaosRule>
      requires Valid()
      reads this, rules
    {
      rules[..count]
    }

    constructor (maxRules: nat)
      ensures Valid() && fresh(rules) && rules.Length == maxRules && Contents() == []
    {
      rules := new ChaosRule[maxRules](_ => DEFAULT_RULE);
      count := 0;
    }

    method Add(rule: ChaosRule) returns (status: ProtocolStatus)
      requires Valid()
      modifies this, rules
      ensures Valid()
      ensures status == if |old(Contents())| < rules.Length then Ok else RuleTableFull
      ensures Contents() == if status == Ok then old(Contents()) + [rule] else old(Contents())
    {
      if count >= rules.Length {
        return RuleTableFull;
      }
      rules[count] := rule;
      count := count + 1;
      return Ok;
    }

    /** Close the gap by shifting the rules after it down one place. */
    method RemoveAt(index: nat) returns (status: ProtocolStatus)
      requires Valid()
      modifies this, rules
      ensures Valid()
      ensures status == if index < |old(Contents())| then Ok else RuleIndexOutOfRange
      ensures Contents() == if index < |old(Contents())| then Decisions.Without(old(Contents()), index) else old(Contents())
    {
      if index >= count {
        return RuleIndexOutOfRange;
      }
      ShiftDown(index);
      count := count - 1;
      rules[count] := DEFAULT_RULE;
      return Ok;
    }

    method ShiftDown(index: nat)
      requires Valid() && index < count
      modifies rules
      ensures rules[..count - 1] == Decisions.Without(old(Contents()), index)
    {
      ghost var before := rules[..];
      GapStart(before, index);
      for current := index + 1 to count
        invariant rules[..] == Gap(before, index, current)
      {
        GapStep(before, index, current);
        rules[current - 1] := rules[current];
      }
      GapEnd(before, index, count);
    }

    method Clear()
      requires Valid()
      modifies this, rules
      ensures Valid() && Contents() == []
    {
      for index := 0 to count
        invariant count == old(count)
      {
        rules[index] := DEFAULT_RULE;
      }
      count := 0;
    }
  }

  /** The table while the rules after `index` are being moved down: those before `current` have
      been. */
  ghost function Gap(rules: seq<ChaosRule>, index: nat, current: nat): (r: seq<ChaosRule>)
    requires index < current <= |rules|
    ensures |r| == |rules|
  {
    rules[..index] + rules[index + 1..current] + rules[current - 1..]
  }

  lemma GapStart(rules: seq<ChaosRule>, index: nat)
    requires index < |rules|
    ensures Gap(rules, index, index + 1) == rules
  {
    assert rules[index + 1..index + 1] == [];
  }

  lemma GapStep(rules: seq<ChaosRule>, index: nat, current: nat)
    requires index < current < |rules|
    ensures var s := Gap(rules, index, current);
            s[current - 1 := s[current]] == Gap(rules, index, current + 1)
  {
    var s := Gap(rules, index, current);
    assert s[current] == rules[current];
    assert rules[index + 1..current + 1] == rules[index + 1..current] + [rules[current]];
    assert rules[current - 1..] == [rules[current - 1]] + rules[current..];
  }

  lemma GapEnd(rules: seq<ChaosRule>, index: nat, count: nat)
    requires index < count <= |rules|
    ensures Gap(rules, index, count)[..count - 1] == Decisions.Without(rules[..count], index)
  {
    assert rules[..count][..index] == rules[..index] && rules[..count][index + 1..] == rules[index + 1..count];
  }

  class ControlCore {
    const table: RuleTable
    const crcTable: array<U32>
    var stats: Option<seq<Byte>>

    ghost function Repr(): set<object> {
      {this, table, table.rules, crcTable}
    }

    ghost predicate Valid()
      reads Repr()
    {
      && table.Valid() && IsTable(crcTable) && crcTable as object != table.rules
      && (stats.Some? ==> |stats.value| == STATS_BYTES)
    }

    ghost function Model(): (m: ControlModel)
      requires Valid()
      reads Repr()
      ensures m.Valid()
    {
      ControlModel(table.Contents(), table.rules.Length, stats)
    }

    constructor (maxRules: nat, crcTable: array<U32>)
      requires IsTable(crcTable)
      ensures Valid() && fresh(this) && fresh(table) && fresh(table.rules) && this.crcTable == crcTable
      ensures Model() == ControlModel([], maxRules, None)
    {
      table := new RuleTable(maxRules);
      this.crcTable := crcTable;
      stats := None;
    }

    method PublishStats(update: seq<Byte>)
      requires Valid() && |update| == STATS_BYTES
      modifies this
      ensures Valid() && Model() == old(Model()).(stats := Some(update))
    {
      stats := Some(update);
    }

    /** Encode a response into the caller's buffer. */
    method Encode(opcode: Byte, sequence: U32, payload: seq<Byte>, response: array<Byte>)
      returns (status: ProtocolStatus, written: nat)
      requires Valid() && response !in Repr()
      modifies response
      ensures written <= response.Length && status == EncodeStatus(|payload|, response.Length)
      ensures response[..written] == Written(opcode, sequence, payload, response.Length)
    {
      status, written := EncodeMessage(crcTable, Header(opcode, sequence), payload, response);
    }

    method EncodeError(error: ProtocolStatus, sequence: U32, response: array<Byte>)
      returns (status: ProtocolStatus, opcode: Byte, written: nat)
      requires Valid() && response !in Repr()
      modifies response
      ensures written <= response.Length
      ensures ControlResponse(status, opcode, response[..written]) == RespondError(error, sequence, response.Length)
    {
      status, written := Encode(ERROR, sequence, NameBytes(error), response);
      status, opcode := error, ERROR;
    }

    method EncodePayload(code: Byte, sequence: U32, payload: seq<Byte>, response: array<Byte>)
      returns (status: ProtocolStatus, opcode: Byte, written: nat)
      requires Valid() && response !in Repr()
      modifies response
      ensures written <= response.Length
      ensures ControlResponse(status, opcode, response[..written]) == Respond(code, sequence, payload, response.Length)
    {
      status, written := Encode(code, sequence, payload, response);
      opcode := code;
    }

    method HandleAdd(sequence: U32, payload: seq<Byte>, response: array<Byte>)
      returns (status: ProtocolStatus, opcode: Byte, written: nat)
      requires Valid() && response !in Repr()
      modifies table, table.rules, response
      ensures Valid() && written <= response.Length
      ensures (Model(), ControlResponse(status, opcode, response[..written])) ==
              old(Model()).HandleAdd(sequence, payload, response.Length)
    {
      if |payload| != RULE_BYTES {
        status, opcode, written := EncodeError(InvalidPayload, sequence, response);
        return;
      }
      status := table.Add(RuleFrom(payload));
      if status != Ok {
        status, opcode, written := EncodeError(status, sequence, response);
        return;
      }
      status, opcode, written := EncodePayload(PONG, sequence, [], response);
    }

    method HandleRemove(sequence: U32, payload: seq<Byte>, response: array<Byte>)
      returns (status: ProtocolStatus, opcode: Byte, written: nat)
      requires Valid() && response !in Repr()
      modifies table, table.rules, response
      ensures Valid() && written <= response.Length
      ensures (Model(), ControlResponse(status, opcode, response[..written])) ==
              old(Model()).HandleRemove(sequence, payload, response.Length)
    {
      if |payload| != 4 {
        status, opcode, written := EncodeError(InvalidPayload, sequence, response);
        return;
      }
      status := table.RemoveAt(ReadU32(payload, 0));
      if status != Ok {
        status, opcode, written := EncodeError(status, sequence, response);
        return;
      }
      status, opcode, written := EncodePayload(PONG, sequence, [], response);
    }

    method Dispatch(code: Byte, sequence: U32, payload: seq<Byte>, response: array<Byte>)
      returns (status: ProtocolStatus, opcode: Byte, written: nat)
      requires Valid() && response !in Repr()
      modifies table, table.rules, response
      ensures Valid() && written <= response.Length
      ensures (Model(), ControlResponse(status, opcode, response[..written])) ==
              old(Model()).Dispatch(code, sequence, payload, response.Length)
    {
      match code
      case 0x01 => status, opcode, written := EncodePayload(PONG, sequence, [], response);
      case 0x10 =>
        var update := match stats case Some(bytes) => bytes case None => seq(STATS_BYTES, _ => 0);
        status, opcode, written := EncodePayload(STATS_RESPONSE, sequence, update, response);
      case 0x20 => status, opcode, written := HandleAdd(sequence, payload, response);
      case 0x21 => status, opcode, written := HandleRemove(sequence, payload, response);
      case 0x22 =>
        table.Clear();
        status, opcode, written := EncodePayload(PONG, sequence, [], response);
      case 0x23 =>
        status, opcode, written :=
          EncodePayload(RULES_RESPONSE, sequence, TableBytes(table.rules[..table.count]), response);
      case _ => status, opcode, written := EncodeError(UnknownOpcode, sequence, response);
    }

    method Handle(request: seq<Byte>, response: array<Byte>) returns (status: ProtocolStatus, opcode: Byte, written: nat)
      requires Valid() && response !in Repr()
      modifies table, table.rules, response
      ensures Valid() && written <= response.Length
      ensures (Model(), ControlResponse(status, opcode, response[..written])) ==
              old(Model()).Handle(request, response.Length)
    {
      var decoded := DecodeMessage(crcTable, request);
      if decoded.status != Ok {
        status, opcode, written := EncodeError(decoded.status, 0, response);
        return;
      }
      status, opcode, written := Dispatch(decoded.header.opcode, decoded.header.sequence, decoded.payload, response);
    }
  }

  /** An immutable copy of the rules. */
  class RuleSnapshot {
    const rules: seq<ChaosRule>

    constructor (rules: seq<ChaosRule>)
      ensures this.rules == rules
    {
      this.rules := rules;
    }
  }

  class ControlPlaneCore {
    const control: ControlCore
    var snapshot: RuleSnapshot

    ghost function Repr(): set<object> {
      {this} + control.Repr()
    }

    ghost predicate Valid()
      reads Repr()
    {
      this !in control.Repr() && control.Valid()
    }

    ghost function Model(): PlaneModel
      requires Valid()
      reads Repr()
    {
      PlaneModel(control.Model(), snapshot.rules)
    }

    constructor (maxRules: nat, crcTable: array<U32>)
      requires IsTable(crcTable)
      ensures Valid() && Model() == PlaneModel(ControlModel([], maxRules, None), [])
    {
      control := new ControlCore(maxRules, crcTable);
      snapshot := new RuleSnapshot([]);
    }

    method PublishRules()
      requires Valid()
      modifies this
      ensures Valid() && fresh(snapshot)
      ensures Model() == PlaneModel(old(control.Model()), old(control.Model()).rules)
    {
      snapshot := new RuleSnapshot(control.table.rules[..control.table.count]);
    }

    /** Publishing replaces the snapshot; whoever holds the old one keeps the old rules. */
    method HandleRequest(request: seq<Byte>, response: array<Byte>)
      returns (status: ProtocolStatus, opcode: Byte, written: nat)
      requires Valid() && response !in Repr()
      modifies this, control.Repr(), response
      ensures Valid() && written <= response.Length
      ensures (Model(), ControlResponse(status, opcode, response[..written])) ==
              old(Model()).HandleRequest(request, response.Length)
      ensures snapshot == old(snapshot) || fresh(snapshot)
    {
      var code := if |request| < 4 then PING else request[3];
      status, opcode, written := control.Handle(request, response);
      if status == Ok && Mutates(code) {
        PublishRules();
      }
    }
  }
}
