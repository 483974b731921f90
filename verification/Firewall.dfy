/** Firewall rules, what they match, and the rule list (src/driver/linux_resource/filter.c). */
module Firewall {
  import opened Arith
  import opened Chains
  import opened Options

  // ----- Rules -----

  datatype Protocol = Tcp | Udp | Ip | Eth
  datatype Kind = PortRange | MacAddress
  datatype Action = Unsupported | Accept | Drop

  type Octet = n: nat | n < 256
  type Short = n: nat | n < 65536

  /** The bytes of an IPv4 address and of a hardware address. */
  type IpBytes = s: seq<Octet> | |s| == 4 witness [0, 0, 0, 0]
  type MacBytes = s: seq<Octet> | |s| == 6 witness [0, 0, 0, 0, 0, 0]

  datatype Range = Range(lclMin: Short, lclMax: Short, rmtMin: Short, rmtMax: Short,
                         lclIp: IpBytes, lclMask: IpBytes, rmtIp: IpBytes, rmtMask: IpBytes)

  datatype Mac = Mac(addr: MacBytes, mask: MacBytes)

  datatype Rule = Rule(kind: Kind, range: Range, mac: Mac, vlan: Short, protocol: Protocol, action: Action)

  const VID_UNSPEC: Short := 0xffff

  /** A filter about to be installed: the fields its match flags select. */
  datatype Spec = Spec(ipv4: bool, ipProto: Option<nat>, locHost: Option<IpBytes>, remHost: Option<IpBytes>,
                       locPort: Option<Short>, remPort: Option<Short>, outerVid: Option<Short>,
                       macSpec: bool, locMac: MacBytes)

  const IPPROTO_TCP := 6
  const IPPROTO_UDP := 17

  function OrElse<T>(o: Option<T>, d: T): T {
    if o.Some? then o.value else d
  }

  // ----- Matching -----

  /** efrm_protocol_matches. */
  predicate ProtocolMatches(spec: Spec, p: Protocol) {
    || (spec.ipv4 && p == Ip)
    || (spec.ipv4 && spec.ipProto == Some(IPPROTO_TCP) && p == Tcp)
    || (spec.ipv4 && spec.ipProto == Some(IPPROTO_UDP) && p == Udp)
    || (spec.macSpec && p == Eth)
  }

  predicate Within(low: int, high: int, test: int) {
    low <= test <= high
  }

  /** The bytes agree wherever the mask is set. */
  predicate Agree(a: seq<Octet>, mask: seq<Octet>, test: seq<Octet>)
    requires |a| == |mask| == |test|
  {
    forall i | 0 <= i < |a| :: And(test[i], mask[i]) == And(a[i], mask[i])
  }

  /** ip_matches: an address that is not specified matches. */
  predicate IpMatches(ip: IpBytes, mask: IpBytes, test: IpBytes) {
    test == [0, 0, 0, 0] || Agree(ip, mask, test)
  }

  /** The field of a specification, if it is for IPv4 and selects it, and else nothing, which is zero. */
  function Ipv4Field<T>(spec: Spec, field: Option<T>, zero: T): T {
    if spec.ipv4 then OrElse(field, zero) else zero
  }

  /** efrm_vlan_matches: rules for vlan zero match any, and unspecified is matched by any. */
  predicate VlanMatches(spec: Spec, vlan: int) {
    var vid := OrElse(spec.outerVid, VID_UNSPEC);
    vlan == 0 || vid == VID_UNSPEC || vid == vlan
  }

  /** efrm_portrange_match. */
  predicate RangeMatches(spec: Spec, rule: Rule) {
    && ProtocolMatches(spec, rule.protocol)
    && Within(rule.range.lclMin, rule.range.lclMax, Ipv4Field(spec, spec.locPort, 0))
    && Within(rule.range.rmtMin, rule.range.rmtMax, Ipv4Field(spec, spec.remPort, 0))
    && IpMatches(rule.range.lclIp, rule.range.lclMask, Ipv4Field(spec, spec.locHost, [0, 0, 0, 0]))
    && IpMatches(rule.range.rmtIp, rule.range.rmtMask, Ipv4Field(spec, spec.remHost, [0, 0, 0, 0]))
    && VlanMatches(spec, rule.vlan)
  }

  /** efrm_mac_match. */
  predicate MacMatches(spec: Spec, rule: Rule) {
    spec.macSpec && Agree(rule.mac.addr, rule.mac.mask, spec.locMac) && VlanMatches(spec, rule.vlan)
  }

  /** efrm_mac_match, counting the bytes that agree. */
  method MacMatch(spec: Spec, rule: Rule) returns (hit: bool)
    ensures hit <==> MacMatches(spec, rule)
  {
    if !spec.macSpec {
      return false;
    }
    var count := 0;
    for i := 0 to 6
      invariant count <= i
      invariant count == i <==> forall j | 0 <= j < i ::
                  And(spec.locMac[j], rule.mac.mask[j]) == And(rule.mac.addr[j], rule.mac.mask[j])
    {
      if And(spec.locMac[i], rule.mac.mask[i]) == And(rule.mac.addr[i], rule.mac.mask[i]) {
        count := count + 1;
      }
    }
    hit := count == 6 && VlanMatches(spec, rule.vlan);
  }

  predicate Matches(spec: Spec, rule: Rule) {
    if rule.kind == PortRange then RangeMatches(spec, rule) else MacMatches(spec, rule)
  }

  /** The filter is refused: the first rule that matches it is a drop rule. */
  ghost predicate Refuses(rules: seq<Rule>, spec: Spec) {
    exists i :: 0 <= i < |rules| && Matches(spec, rules[i]) && rules[i].action == Drop &&
                forall j | 0 <= j < i :: !Matches(spec, rules[j])
  }

  // ----- The rule list -----

  /** Where adding at a position puts a rule: at the end when there is no such position. */
  function Insert(rules: seq<Rule>, position: int, rule: Rule): seq<Rule> {
    if 0 <= position < |rules| then rules[..position] + [rule] + rules[position..] else rules + [rule]
  }

  lemma InsertMeans(rules: seq<Rule>, position: int, i: nat, rule: Rule)
    requires i <= |rules| && (i == position || (i == |rules| && (position < 0 || position > i)))
    ensures Insert(rules, position, rule) == rules[..i] + [rule] + rules[i..]
  {
  }

  function RulesOf(s: seq<Cell<Rule>>): (r: seq<Rule>)
    ensures |r| == |s| && forall i | 0 <= i < |r| :: r[i] == s[i].value
  {
    seq(|s|, i requires 0 <= i < |s| => s[i].value)
  }

  lemma RulesInsert(s: seq<Cell<Rule>>, i: nat, n: Cell<Rule>)
    requires i <= |s|
    ensures RulesOf(s[..i] + [n] + s[i..]) == RulesOf(s)[..i] + [n.value] + RulesOf(s)[i..]
  {
  }

  lemma RulesRemove(s: seq<Cell<Rule>>, i: nat)
    requires i < |s|
    ensures RulesOf(s[..i] + s[i + 1..]) == RulesOf(s)[..i] + RulesOf(s)[i + 1..]
  {
  }

  class Table {
    var first: Cell?<Rule>
    var last: Cell?<Rule>
    /** The nodes in list order. */
    ghost var nodes: seq<Cell<Rule>>

    ghost predicate Valid()
      reads this, nodes
    {
      && first == At(nodes, 0) && last == At(nodes, |nodes| - 1)
      && Linked(nodes) && Distinct(nodes)
    }

    ghost function Rules(): seq<Rule>
      reads this
    {
      RulesOf(nodes)
    }

    constructor ()
      ensures Valid() && Rules() == [] && nodes == []
    {
      first, last, nodes := null, null, [];
    }

    /** The pointers set by ethrm_link_rule. */
    method SetPointers(rule: Cell<Rule>, prev: Cell?<Rule>, next: Cell?<Rule>, ghost i: nat)
      requires Valid() && rule !in nodes && i <= |nodes| && prev == At(nodes, i - 1) && next == At(nodes, i)
      modifies this`first, this`last, rule, prev
      ensures rule.next == At(nodes, i)
      ensures forall j | 0 <= j < |nodes| :: nodes[j].next == if j + 1 == i then rule else At(nodes, j + 1)
      ensures first == (if i == 0 then rule else old(first)) && last == if i == |nodes| then rule else old(last)
    {
      if prev != null {
        rule.next := next;
        prev.next := rule;
      } else {
        rule.next := first;
        first := rule;
      }
      if prev == last {
        last := rule;
      }
    }

    /** ethrm_link_rule: put the rule between two neighbours, or first. */
    method LinkRule(rule: Cell<Rule>, prev: Cell?<Rule>, next: Cell?<Rule>, ghost i: nat)
      requires Valid() && rule !in nodes && i <= |nodes| && prev == At(nodes, i - 1) && next == At(nodes, i)
      modifies this, rule, prev
      ensures Valid() && nodes == old(nodes[..i] + [rule] + nodes[i..])
    {
      ghost var s := nodes;
      SetPointers(rule, prev, next, i);
      ChainInsert(s, i, rule);
      hide At, Distinct, Linked;
      nodes := s[..i] + [rule] + s[i..];
    }

    /** The pointers set by ethrm_unlink_rule. */
    method ClearPointers(rule: Cell<Rule>, prev: Cell?<Rule>, ghost i: nat)
      requires Valid() && i < |nodes| && rule == nodes[i] && prev == At(nodes, i - 1)
      modifies this`first, this`last, prev
      ensures forall j | 0 <= j < |nodes| :: nodes[j].next == if j + 1 == i then At(nodes, i + 1) else At(nodes, j + 1)
      ensures first == if i == 0 then At(nodes, 1) else old(first)
      ensures last == if i == |nodes| - 1 then prev else old(last)
    {
      if prev == null {
        first := rule.next;
      } else {
        prev.next := rule.next;
      }
      if rule == last {
        last := prev;
      }
    }

    /** ethrm_unlink_rule: take out the rule after prev, or the first. */
    method UnlinkRule(rule: Cell<Rule>, prev: Cell?<Rule>, ghost i: nat)
      requires Valid() && i < |nodes| && rule == nodes[i] && prev == At(nodes, i - 1)
      modifies this, prev
      ensures Valid() && nodes == old(nodes[..i] + nodes[i + 1..])
    {
      ghost var s := nodes;
      ClearPointers(rule, prev, i);
      ChainRemove(s, i);
      hide At, Distinct, Linked;
      nodes := s[..i] + s[i + 1..];
    }

    /** The neighbours of a position counted from the front, and how much further it lies. */
    method Walk(position: nat) returns (prev: Cell?<Rule>, next: Cell?<Rule>, left: nat, ghost i: nat)
      requires Valid()
      ensures i <= |nodes| && prev == At(nodes, i - 1) && next == At(nodes, i)
      ensures i + left == position && (left > 0 ==> i == |nodes|)
    {
      prev, next, left, i := null, first, position, 0;
      while left > 0 && next != null
        invariant i <= |nodes| && prev == At(nodes, i - 1) && next == At(nodes, i) && i + left == position && Valid()
        decreases left
      {
        prev, next, left, i := next, next.next, left - 1, i + 1;
      }
    }

    /** add_rule_to_table. */
    method AddRule(rule: Cell<Rule>, position: int)
      requires Valid() && rule !in nodes
      modifies this, rule, nodes
      ensures Valid() && Rules() == Insert(old(Rules()), position, rule.value)
      ensures forall n | n in nodes :: n == rule || n in old(nodes)
    {
      hide Linked, Distinct, Insert;
      ghost var s, r := nodes, Rules();
      var prev, next, left, i := last, null, 0, |nodes|;
      if position >= 0 {
        prev, next, left, i := Walk(position);
      }
      if left > 0 {
        prev, next := last, null;
      }
      RulesInsert(s, i, rule);
      InsertMeans(r, position, i, rule.value);
      LinkRule(rule, prev, next, i);
    }

    /** remove_rule_from_table: fails, and changes nothing, when there is no such position. */
    method RemoveRule(position: int) returns (failed: bool)
      requires Valid()
      modifies this, nodes
      ensures Valid() && (failed <==> !(0 <= position < |old(Rules())|))
      ensures failed ==> Rules() == old(Rules())
      ensures !failed ==> Rules() == old(Rules()[..position] + Rules()[position + 1..])
    {
      ghost var r, i := Rules(), 0;
      var prev, rule, left := null, first, position;
      while rule != null && left != 0
        invariant Valid() && i <= |nodes| && prev == At(nodes, i - 1) && rule == At(nodes, i) && i + left == position
        invariant (0 <= left <==> 0 <= position) && Rules() == r && nodes == old(nodes)
        decreases |nodes| - i
      {
        prev, rule, left, i := rule, rule.next, left - 1, i + 1;
      }
      failed := rule == null;
      if !failed {
        RulesRemove(nodes, i);
        UnlinkRule(rule, prev, i);
      }
    }

    /** efrm_filter_check, for an interface that has a table: true when the filter is refused. */
    method FilterCheck(spec: Spec) returns (refused: bool)
      requires Valid()
      ensures refused <==> Refuses(Rules(), spec)
    {
      ghost var r, i := Rules(), 0;
      var rule, action := first, Unsupported;
      while rule != null
        invariant Valid() && Rules() == r && i <= |nodes| && rule == At(nodes, i) && action == Unsupported
        invariant forall j | 0 <= j < i :: !Matches(spec, r[j])
        decreases |nodes| - i
      {
        var hit;
        if rule.value.kind == PortRange {
          hit := RangeMatches(spec, rule.value);
        } else {
          hit := MacMatch(spec, rule.value);
        }
        if hit {
          action := rule.value.action;
          break;
        }
        rule, i := rule.next, i + 1;
      }
      refused := action == Drop;
      if rule != null {
        assert Matches(spec, r[i]) && r[i].action == action;
      }
    }
  }
}
