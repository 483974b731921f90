/**
 Which filters a table of rules refuses, field by field and bit by bit, without the matching functions of the program.
 */
module FirewallMatching {
  import opened Arith
  import opened Options
  import opened Firewall

  /** The filter is for packets of the rule's protocol. */
  predicate Carries(spec: Spec, p: Protocol) {
    match p
    case Ip => spec.ipv4
    case Tcp => spec.ipv4 && spec.ipProto == Some(6)
    case Udp => spec.ipv4 && spec.ipProto == Some(17)
    case Eth => spec.macSpec
  }

  /** A field of a filter that is not for IPv4, or does not select it, reads as zero. */
  function LocalPort(spec: Spec): Short {
    if spec.ipv4 && spec.locPort.Some? then spec.locPort.value else 0
  }

  function RemotePort(spec: Spec): Short {
    if spec.ipv4 && spec.remPort.Some? then spec.remPort.value else 0
  }

  /** The filter's address is not given, is zero, or has the rule's bit wherever the mask has one. */
  ghost predicate AddressFits(spec: Spec, host: Option<IpBytes>, ip: IpBytes, mask: IpBytes) {
    spec.ipv4 && host.Some? && host.value != [0, 0, 0, 0] ==> SameUnder(ip, mask, host.value)
  }

  ghost predicate SameUnder(a: seq<Octet>, mask: seq<Octet>, b: seq<Octet>)
    requires |a| == |mask| == |b|
  {
    forall i | 0 <= i < |a| :: SameWhere(a[i], b[i], mask[i])
  }

  /** The rule is for any vlan, the filter for any, or both for the same. */
  predicate VlanFits(spec: Spec, vlan: Short) {
    vlan == 0 || spec.outerVid.None? || spec.outerVid.value == 0xffff || spec.outerVid.value == vlan
  }

  lemma AgreeMeans(a: seq<Octet>, mask: seq<Octet>, b: seq<Octet>)
    requires |a| == |mask| == |b|
    ensures Agree(a, mask, b) <==> SameUnder(a, mask, b)
  {
    forall i | 0 <= i < |a| ensures And(b[i], mask[i]) == And(a[i], mask[i]) <==> SameWhere(a[i], b[i], mask[i]) {
      AndAgrees(a[i], b[i], mask[i]);
    }
  }

  /** A table of one drop rule for addresses and ports refuses exactly the filters of its protocol whose local port lies in
      its local range and whose remote port lies in its remote range, with addresses and vlan that fit. */
  lemma RangeRuleExactly(r: Rule, spec: Spec)
    requires r.kind == PortRange && r.action == Drop
    ensures Refuses([r], spec) <==>
            && Carries(spec, r.protocol)
            && r.range.lclMin <= LocalPort(spec) <= r.range.lclMax
            && r.range.rmtMin <= RemotePort(spec) <= r.range.rmtMax
            && AddressFits(spec, spec.locHost, r.range.lclIp, r.range.lclMask)
            && AddressFits(spec, spec.remHost, r.range.rmtIp, r.range.rmtMask)
            && VlanFits(spec, r.vlan)
  {
    OneRule(r, spec);
    if spec.ipv4 && spec.locHost.Some? {
      AgreeMeans(r.range.lclIp, r.range.lclMask, spec.locHost.value);
    }
    if spec.ipv4 && spec.remHost.Some? {
      AgreeMeans(r.range.rmtIp, r.range.rmtMask, spec.remHost.value);
    }
    hide Agree, SameUnder;
  }

  /** A table of one drop rule for hardware addresses refuses exactly the filters for hardware addresses that have the rule's
      bit wherever its mask has one, with a vlan that fits. */
  lemma MacRuleExactly(r: Rule, spec: Spec)
    requires r.kind == MacAddress && r.action == Drop
    ensures Refuses([r], spec) <==> spec.macSpec && SameUnder(r.mac.addr, r.mac.mask, spec.locMac) && VlanFits(spec, r.vlan)
  {
    OneRule(r, spec);
    AgreeMeans(r.mac.addr, r.mac.mask, spec.locMac);
  }

  lemma OneRule(r: Rule, spec: Spec)
    ensures Refuses([r], spec) <==> Matches(spec, r) && r.action == Drop
  {
    if Matches(spec, r) && r.action == Drop {
      assert Matches(spec, [r][0]);
    }
  }

  /** The first rule decides about the filters it would refuse alone as a drop rule, and the others about the rest. */
  lemma FirstDecides(r: Rule, rules: seq<Rule>, spec: Spec)
    ensures !Refuses([], spec)
    ensures Refuses([r] + rules, spec) <==>
              if Refuses([r.(action := Drop)], spec) then r.action == Drop else Refuses(rules, spec)
  {
    var all := [r] + rules;
    OneRule(r.(action := Drop), spec);
    assert Matches(spec, r.(action := Drop)) <==> Matches(spec, r);
    if Refuses(all, spec) {
      var i :| 0 <= i < |all| && Matches(spec, all[i]) && all[i].action == Drop &&
               forall j | 0 <= j < i :: !Matches(spec, all[j]);
      if i > 0 {
        assert !Matches(spec, all[0]);
        assert rules[i - 1] == all[i];
        assert forall j | 0 <= j < i - 1 :: rules[j] == all[j + 1];
      }
    }
    if !Matches(spec, r) && Refuses(rules, spec) {
      var i :| 0 <= i < |rules| && Matches(spec, rules[i]) && rules[i].action == Drop &&
               forall j | 0 <= j < i :: !Matches(spec, rules[j]);
      assert all[i + 1] == rules[i];
      assert forall j | 0 <= j < i + 1 :: all[j] == if j == 0 then r else rules[j - 1];
    }
    if Matches(spec, r) {
      assert all[0] == r;
    }
  }

  /** Under a rule for all remote ports the remote port does not matter, and likewise for local ones; under an empty mask
      the address does not matter. */
  lemma OpenFieldsIgnored(r: Rule, spec: Spec, port: Option<Short>, host: Option<IpBytes>)
    requires r.kind == PortRange && r.action == Drop
    ensures r.range.rmtMin == 0 && r.range.rmtMax == 65535 ==>
              (Refuses([r], spec.(remPort := port)) <==> Refuses([r], spec))
    ensures r.range.lclMin == 0 && r.range.lclMax == 65535 ==>
              (Refuses([r], spec.(locPort := port)) <==> Refuses([r], spec))
    ensures r.range.rmtMask == [0, 0, 0, 0] ==> (Refuses([r], spec.(remHost := host)) <==> Refuses([r], spec))
    ensures r.range.lclMask == [0, 0, 0, 0] ==> (Refuses([r], spec.(locHost := host)) <==> Refuses([r], spec))
  {
    hide Refuses;
    RangeRuleExactly(r, spec);
    RangeRuleExactly(r, spec.(remPort := port));
    RangeRuleExactly(r, spec.(locPort := port));
    RangeRuleExactly(r, spec.(remHost := host));
    RangeRuleExactly(r, spec.(locHost := host));
    forall a: Octet, b: Octet ensures SameWhere(a, b, 0) {
      AndAgrees(a, b, 0);
    }
  }
}
