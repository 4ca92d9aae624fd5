/** What the engine decides for a packet: the first matching rule, then a roll of that
    rule's deterministic dice. The fast form, which the data plane uses, rolls on the flow
    hash instead of hashing the payload. */
module Decisions {
  import opened Machine
  import opened PacketParser
  import opened ChaosEngine
  import opened Hashing

  const PASS_DECISION := ChaosDecision(0, 0, 0, 0, PASS, false)

  function PassFromRule(rule: ChaosRule, hash: U64, roll: U16): ChaosDecision {
    ChaosDecision(hash, 0, rule.id, roll, PASS, true)
  }

  function AppliedDecision(rule: ChaosRule, hash: U64, roll: U16): ChaosDecision {
    ChaosDecision(hash, if rule.action == DELAY then rule.delayNs else 0, rule.id, roll, rule.action, true)
  }

  /** Whether the outcome is settled without rolling: always or never. */
  predicate Settled(rule: ChaosRule) {
    rule.action == PASS || ClampProbability(rule.probability) in {0, PROBABILITY_SCALE}
  }

  function RollOf(hash: U64): U16 {
    var h: int := hash;
    h % PROBABILITY_SCALE
  }

  /** The decision of a matching rule, given the hash it rolls on. */
  function DecideOnHash(rule: ChaosRule, hash: U64): ChaosDecision {
    var probability := ClampProbability(rule.probability);
    if rule.action == PASS || probability == 0 then PassFromRule(rule, 0, 0)
    else if probability == PROBABILITY_SCALE then AppliedDecision(rule, 0, 0)
    else if RollOf(hash) >= probability then PassFromRule(rule, hash, RollOf(hash))
    else AppliedDecision(rule, hash, RollOf(hash))
  }

  function DecideForRule(rule: ChaosRule, packet: PacketView, payload: seq<Byte>): ChaosDecision {
    DecideOnHash(rule, PacketHash(rule, packet, payload))
  }

  function DecideForRuleFast(rule: ChaosRule, packet: PacketView): ChaosDecision {
    DecideOnHash(rule, FlowHash(rule, packet))
  }

  /** The index of the first matching rule, or the number of rules when none matches. */
  function FirstMatch(rules: seq<ChaosRule>, packet: PacketView): (k: nat)
    ensures k <= |rules|
    ensures k < |rules| ==> RuleMatches(rules[k], packet)
    ensures forall i :: 0 <= i < k ==> !RuleMatches(rules[i], packet)
  {
    if rules == [] || RuleMatches(rules[0], packet) then 0
    else 1 + FirstMatch(rules[1..], packet)
  }

  /** The rule that decides a packet, if any does. */
  function ChosenRule(rules: seq<ChaosRule>, packet: PacketView): Option<ChaosRule> {
    var k := FirstMatch(rules, packet);
    if k == |rules| then None else Some(rules[k])
  }

  function DecidePacket(packet: PacketView, payload: seq<Byte>, rules: seq<ChaosRule>): ChaosDecision {
    match ChosenRule(rules, packet)
    case None => PASS_DECISION
    case Some(rule) => DecideForRule(rule, packet, payload)
  }

  function DecidePacketFast(packet: PacketView, rules: seq<ChaosRule>): ChaosDecision {
    match ChosenRule(rules, packet)
    case None => PASS_DECISION
    case Some(rule) => DecideForRuleFast(rule, packet)
  }

  /** The first match is the only index with the first-match property. */
  lemma FirstMatchUnique(rules: seq<ChaosRule>, packet: PacketView, k: nat)
    requires k <= |rules|
    requires k < |rules| ==> RuleMatches(rules[k], packet)
    requires forall i :: 0 <= i < k ==> !RuleMatches(rules[i], packet)
    ensures FirstMatch(rules, packet) == k
  {
  }

  /** The code's loop: take the first rule that matches, or pass. */
  method Decide(packet: PacketView, payload: seq<Byte>, rules: seq<ChaosRule>) returns (decision: ChaosDecision)
    ensures decision == DecidePacket(packet, payload, rules)
  {
    for k := 0 to |rules|
      invariant forall i :: 0 <= i < k ==> !RuleMatches(rules[i], packet)
    {
      if RuleMatches(rules[k], packet) {
        FirstMatchUnique(rules, packet, k);
        var hash := StablePacketHash(rules[k], packet, payload);
        return DecideOnHash(rules[k], hash);
      }
    }
    FirstMatchUnique(rules, packet, |rules|);
    return PASS_DECISION;
  }

  method DecideFast(packet: PacketView, rules: seq<ChaosRule>) returns (decision: ChaosDecision)
    ensures decision == DecidePacketFast(packet, rules)
  {
    for k := 0 to |rules|
      invariant forall i :: 0 <= i < k ==> !RuleMatches(rules[i], packet)
    {
      if RuleMatches(rules[k], packet) {
        FirstMatchUnique(rules, packet, k);
        var hash := StableFlowHash(rules[k], packet);
        return DecideOnHash(rules[k], hash);
      }
    }
    FirstMatchUnique(rules, packet, |rules|);
    return PASS_DECISION;
  }

  /** Fast and full always pick the same rule, and agree completely when there is no payload
      to hash or the chosen rule's outcome is settled without rolling. */
  lemma FastAgreesWithFull(packet: PacketView, payload: seq<Byte>, rules: seq<ChaosRule>)
    ensures var full, fast := DecidePacket(packet, payload, rules), DecidePacketFast(packet, rules);
            var k := FirstMatch(rules, packet);
            && full.ruleId == fast.ruleId && full.matched == fast.matched
            && full.matched == (k < |rules|)
            && (k < |rules| ==> full.action in {PASS, rules[k].action} && fast.action in {PASS, rules[k].action})
            && (payload == [] || k == |rules| || Settled(rules[k]) ==> full == fast)
  {
    var k := FirstMatch(rules, packet);
    if payload == [] && k < |rules| {
      assert FlowBytes(rules[k], packet) + [] == FlowBytes(rules[k], packet);
    }
  }

  /** A matching rule applies its action exactly when its roll is below its probability:
      certainly at full probability, never at zero. */
  lemma AppliesIff(rule: ChaosRule, hash: U64)
    requires rule.action != PASS
    ensures DecideOnHash(rule, hash).action == rule.action <==> RollOf(hash) < ClampProbability(rule.probability)
    ensures DecideOnHash(rule, hash).action == PASS <==> RollOf(hash) >= ClampProbability(rule.probability)
  {
  }

  /** Replace the probability of rule `k`. */
  function WithProbability(rules: seq<ChaosRule>, k: nat, probability: U16): (r: seq<ChaosRule>)
    requires k < |rules|
    ensures |r| == |rules|
  {
    rules[k := rules[k].(probability := probability)]
  }

  /** A rule's probability has no say in which rule decides. */
  lemma ChosenWithProbability(packet: PacketView, rules: seq<ChaosRule>, k: nat, more: U16)
    requires k < |rules|
    ensures FirstMatch(WithProbability(rules, k, more), packet) == FirstMatch(rules, packet)
  {
    var more' := WithProbability(rules, k, more);
    assert forall i :: 0 <= i < |rules| ==> RuleMatches(more'[i], packet) == RuleMatches(rules[i], packet);
    FirstMatchUnique(more', packet, FirstMatch(rules, packet));
  }

  /** Raising a rule's probability never takes away an action it already applied, in either
      form, and changes no packet another rule decides. */
  lemma MonotoneInProbability(packet: PacketView, payload: seq<Byte>, rules: seq<ChaosRule>, k: nat, more: U16)
    requires k < |rules| && rules[k].probability <= more
    ensures var raised := WithProbability(rules, k, more);
            if k == FirstMatch(rules, packet) then
              && (DecidePacket(packet, payload, rules).action == rules[k].action ==>
                    DecidePacket(packet, payload, raised).action == rules[k].action)
              && (DecidePacketFast(packet, rules).action == rules[k].action ==>
                    DecidePacketFast(packet, raised).action == rules[k].action)
            else
              && DecidePacket(packet, payload, raised) == DecidePacket(packet, payload, rules)
              && DecidePacketFast(packet, raised) == DecidePacketFast(packet, rules)
  {
    ChosenWithProbability(packet, rules, k, more);
    if k == FirstMatch(rules, packet) {
      RaisedForRule(rules[k], more, packet, payload);
    }
  }

  lemma RaisedForRule(rule: ChaosRule, more: U16, packet: PacketView, payload: seq<Byte>)
    requires rule.probability <= more
    ensures DecideForRule(rule, packet, payload).action == rule.action ==>
              DecideForRule(rule.(probability := more), packet, payload).action == rule.action
    ensures DecideForRuleFast(rule, packet).action == rule.action ==>
              DecideForRuleFast(rule.(probability := more), packet).action == rule.action
  {
    SameHashes(rule, rule.(probability := more), packet, payload);
    RaisedProbability(rule, more, PacketHash(rule, packet, payload));
    RaisedProbability(rule, more, FlowHash(rule, packet));
  }

  lemma SameHashes(rule: ChaosRule, rule': ChaosRule, packet: PacketView, payload: seq<Byte>)
    requires rule.seed == rule'.seed
    ensures PacketHash(rule, packet, payload) == PacketHash(rule', packet, payload)
    ensures FlowHash(rule, packet) == FlowHash(rule', packet)
  {
    assert FlowBytes(rule, packet) == FlowBytes(rule', packet);
  }

  lemma RaisedProbability(rule: ChaosRule, more: U16, hash: U64)
    requires rule.probability <= more
    ensures DecideOnHash(rule, hash).action == rule.action ==>
              DecideOnHash(rule.(probability := more), hash).action == rule.action
  {
  }

  function Without(rules: seq<ChaosRule>, k: nat): (r: seq<ChaosRule>)
    requires k < |rules|
    ensures |r| == |rules| - 1
  {
    rules[..k] + rules[k + 1..]
  }

  lemma {:induction false} ChosenConcat(packet: PacketView, a: seq<ChaosRule>, b: seq<ChaosRule>)
    ensures ChosenRule(a + b, packet) ==
            if FirstMatch(a, packet) < |a| then ChosenRule(a, packet) else ChosenRule(b, packet)
  {
    if FirstMatch(a, packet) < |a| {
      FirstMatchUnique(a + b, packet, FirstMatch(a, packet));
    } else {
      FirstMatchUnique(a + b, packet, |a| + FirstMatch(b, packet));
    }
  }

  lemma ChosenWithout(packet: PacketView, rules: seq<ChaosRule>, k: nat)
    requires k < |rules|
    ensures ChosenRule(Without(rules, k), packet) ==
            ChosenRule(if k == FirstMatch(rules, packet) then rules[k + 1..] else rules, packet)
  {
    var a, rule, b := rules[..k], rules[k], rules[k + 1..];
    assert rules == a + [rule] + b;
    ChosenConcat(packet, a, b);
    ChosenBetween(packet, a, rule, b);
  }

  /** Who decides when a rule stands between two groups, and whether that rule is the first match. */
  lemma ChosenBetween(packet: PacketView, a: seq<ChaosRule>, rule: ChaosRule, b: seq<ChaosRule>)
    ensures FirstMatch(a + [rule] + b, packet) == |a| <==> FirstMatch(a, packet) == |a| && RuleMatches(rule, packet)
    ensures ChosenRule(a + [rule] + b, packet) ==
            if FirstMatch(a, packet) < |a| then ChosenRule(a, packet)
            else if RuleMatches(rule, packet) then Some(rule) else ChosenRule(b, packet)
  {
    var m := FirstMatch(a, packet);
    if m < |a| {
      FirstMatchUnique(a + [rule] + b, packet, m);
    } else if RuleMatches(rule, packet) {
      FirstMatchUnique(a + [rule] + b, packet, |a|);
    } else {
      FirstMatchUnique(a + [rule] + b, packet, |a| + 1 + FirstMatch(b, packet));
    }
  }

  /** Removing a rule: if it was not the packet's first match (it does not match, or an
      earlier rule shadows it) nothing changes; if it was, the rules after it decide. */
  lemma RemovingARule(packet: PacketView, payload: seq<Byte>, rules: seq<ChaosRule>, k: nat)
    requires k < |rules|
    ensures k != FirstMatch(rules, packet) <==>
              !RuleMatches(rules[k], packet) || exists i :: 0 <= i < k && RuleMatches(rules[i], packet)
    ensures var kept := if k == FirstMatch(rules, packet) then rules[k + 1..] else rules;
            && DecidePacket(packet, payload, Without(rules, k)) == DecidePacket(packet, payload, kept)
            && DecidePacketFast(packet, Without(rules, k)) == DecidePacketFast(packet, kept)
  {
    ChosenWithout(packet, rules, k);
  }
}
