/** Printing firewall rules, and reading back what was printed (src/driver/linux_resource/filter.c). */
module FirewallRoundTrip {
  import opened Firewall
  import opened FirewallText
  import opened Numerals

  // ----- Printing -----

  /** %02x of a byte. */
  function Hex(b: Octet): string {
    [HexDigit(b / 16), HexDigit(b % 16)]
  }

  /** The bytes of an address from k on, with dots between them. */
  function IpName(ip: IpBytes, k: nat): string
    requires k < 4
    decreases 4 - k
  {
    Dec(ip[k]) + if k == 3 then "" else "." + IpName(ip, k + 1)
  }

  function MacName(mac: MacBytes, k: nat): string
    requires k < 6
    decreases 6 - k
  {
    Hex(mac[k]) + if k == 5 then "" else ":" + MacName(mac, k + 1)
  }

  function ProtocolName(p: Protocol): string {
    match p
    case Tcp => "tcp"
    case Udp => "udp"
    case Ip => "ip"
    case Eth => "eth"
  }

  function ActionName(a: Action): string {
    match a
    case Unsupported => "???"
    case Accept => "ACCEPT"
    case Drop => "DECELERATE"
  }

  // The fields of a printed rule, each followed by the rest of the text.

  function IfField(name: string, rest: string): string {
    "if=" + (name + rest)
  }

  /** A field after a space. */
  function Field(name: string, value: string): string {
    " " + (name + value)
  }

  function RuleField(number: nat, rest: string): string {
    Field("rule=", Dec(number) + rest)
  }

  function ProtocolField(p: Protocol, rest: string): string {
    Field("protocol=", ProtocolName(p) + rest)
  }

  function IpMaskName(ip: IpBytes, mask: IpBytes, rest: string): string {
    IpName(ip, 0) + ("/" + (IpName(mask, 0) + rest))
  }

  function PortsName(min: Short, max: Short, rest: string): string {
    Dec(min) + ("-" + (Dec(max) + rest))
  }

  function MacMaskName(mac: Mac, rest: string): string {
    MacName(mac.addr, 0) + ("/" + (MacName(mac.mask, 0) + rest))
  }

  function VlanField(vlan: Short, rest: string): string {
    Field("vlan=", Dec(vlan) + rest)
  }

  function ActionField(a: Action, rest: string): string {
    Field("action=", ActionName(a) + ("\n" + rest))
  }

  /** print_rule, followed by the rest of the text. */
  function PrintRule(name: string, number: nat, r: Rule, rest: string): string {
    var tail := VlanField(r.vlan, ActionField(r.action, rest));
    var fields :=
      if r.protocol == Eth then Field("mac=", MacMaskName(r.mac, tail))
      else Field("local_ip=", IpMaskName(r.range.lclIp, r.range.lclMask,
           Field("remote_ip=", IpMaskName(r.range.rmtIp, r.range.rmtMask,
           Field("local_port=", PortsName(r.range.lclMin, r.range.lclMax,
           Field("remote_port=", PortsName(r.range.rmtMin, r.range.rmtMax, tail))))))));
    IfField(name, RuleField(number, ProtocolField(r.protocol, fields)))
  }

  /** The rules of a table from position i on, one after the other. */
  function PrintTable(name: string, rules: seq<Rule>, i: nat): string
    requires i <= |rules|
    decreases |rules| - i
  {
    if i == |rules| then "" else PrintRule(name, i, rules[i], PrintTable(name, rules, i + 1))
  }

  // ----- Reading numbers back -----

  /** The text goes on with something a number does not take in. */
  predicate EndsDec(rest: string) {
    rest == "" || !IsDigit(rest[0])
  }

  predicate EndsHex(rest: string) {
    rest == "" || !IsHex(rest[0])
  }

  lemma Reassociate(a: string, b: string, c: string)
    ensures (a + b) + c == a + (b + c)
  {
  }

  lemma {:induction false} DecDigits(n: nat, rest: string)
    requires n < INT_LIMIT
    ensures Digits(0, Dec(n) + rest) == Digits(n, rest)
    ensures Dec(n) != "" && IsDigit(Dec(n)[0])
    decreases n
  {
    if n >= 10 {
      var last := [Digit(n % 10)];
      DecDigits(n / 10, last + rest);
      Reassociate(Dec(n / 10), last, rest);
      assert (last + rest)[1..] == rest;
    } else {
      assert (Dec(n) + rest)[1..] == rest;
    }
  }

  lemma DecRead(n: nat, rest: string)
    requires n < INT_LIMIT && EndsDec(rest)
    ensures Atoi(Dec(n) + rest) == Read(n, rest)
  {
    DecDigits(n, rest);
  }

  lemma HexRead(b: Octet, rest: string)
    requires EndsHex(rest)
    ensures HexDigits(0, Hex(b) + rest) == Read(b, rest)
  {
    var s := Hex(b) + rest;
    assert s[1..] == [HexDigit(b % 16)] + rest && s[1..][1..] == rest;
    assert HexDigits(b / 16, s[1..]) == HexDigits(b, rest);
  }

  lemma {:induction false} IpRead(ip: IpBytes, was: IpBytes, k: nat, rest: string)
    requires k < 4 && EndsDec(rest)
    ensures IpText(IpName(ip, k) + rest, was, k) == Read(Filled(true, was[..k] + ip[k..]), rest)
    decreases 4 - k
  {
    hide Dec, Atoi;
    if k == 3 {
      assert IpName(ip, k) == Dec(ip[k]);
      DecRead(ip[k], rest);
      assert was[k := ip[k]] == was[..k] + ip[k..];
    } else {
      var tail := "." + (IpName(ip, k + 1) + rest);
      assert IpName(ip, k) + rest == Dec(ip[k]) + tail;
      DecRead(ip[k], tail);
      assert tail[1..] == IpName(ip, k + 1) + rest;
      IpRead(ip, was[k := ip[k]], k + 1, rest);
      assert was[k := ip[k]][..k + 1] + ip[k + 1..] == was[..k] + ip[k..];
    }
  }

  lemma {:induction false} MacRead(mac: MacBytes, was: MacBytes, k: nat, rest: string)
    requires k < 6 && EndsHex(rest)
    ensures HexText(MacName(mac, k) + rest, was, k) == Read(Filled(true, was[..k] + mac[k..]), rest)
    decreases 6 - k
  {
    hide Hex, HexDigits;
    if k == 5 {
      assert MacName(mac, k) == Hex(mac[k]);
      HexRead(mac[k], rest);
      assert was[k := mac[k]] == was[..k] + mac[k..];
    } else {
      var tail := ":" + (MacName(mac, k + 1) + rest);
      assert MacName(mac, k) + rest == Hex(mac[k]) + tail;
      HexRead(mac[k], tail);
      assert tail[1..] == MacName(mac, k + 1) + rest;
      MacRead(mac, was[k := mac[k]], k + 1, rest);
      assert was[k := mac[k]][..k + 1] + mac[k + 1..] == was[..k] + mac[k..];
    }
  }

  lemma IpMaskRead(ip: IpBytes, mask: IpBytes, oldIp: IpBytes, oldMask: IpBytes, rest: string)
    requires EndsDec(rest)
    ensures IpMaskText(IpMaskName(ip, mask, rest), oldIp, oldMask) == Read((true, ip, mask), rest)
  {
    var tail := "/" + (IpName(mask, 0) + rest);
    IpRead(ip, oldIp, 0, tail);
    IpRead(mask, oldMask, 0, rest);
    hide IpName, IpText;
    assert tail[1..] == IpName(mask, 0) + rest;
    assert oldIp[..0] + ip[0..] == ip && oldMask[..0] + mask[0..] == mask;
  }

  lemma MacReadWhole(mac: MacBytes, was: MacBytes, rest: string)
    requires EndsHex(rest)
    ensures HexText(MacName(mac, 0) + rest, was, 0) == Read(Filled(true, mac), rest)
  {
    hide MacName, HexText;
    MacRead(mac, was, 0, rest);
    assert was[..0] + mac[0..] == mac;
  }

  lemma MacMaskRead(mac: Mac, rest: string)
    requires EndsHex(rest)
    ensures MacText(MacMaskName(mac, rest)) == Read((true, mac), rest)
  {
    var tail := "/" + (MacName(mac.mask, 0) + rest);
    MacReadWhole(mac.addr, ZERO_MAC, tail);
    MacReadWhole(mac.mask, FULL_MAC, rest);
    hide MacName, HexText, TopBits;
    assert tail[1..] == MacName(mac.mask, 0) + rest;
  }

  lemma PortsRead(min: Short, max: Short, rest: string)
    requires EndsDec(rest)
    ensures PortRangeText(PortsName(min, max, rest)) == Read((min, max), rest)
  {
    var tail := "-" + (Dec(max) + rest);
    DecRead(min, tail);
    DecRead(max, rest);
    assert tail[1..] == Dec(max) + rest;
  }

  // ----- Reading the fields back -----

  lemma SkipPrefix(p: string, rest: string)
    ensures StartsWith(p + rest, p) && (p + rest)[|p|..] == rest
  {
  }

  /** Texts that differ somewhere within the prefix do not start with it. */
  lemma Mismatch(s: string, p: string, i: nat)
    requires i < |p| && (i < |s| ==> s[i] != p[i])
    ensures !StartsWith(s, p)
  {
    if |p| <= |s| {
      assert s[..|p|][i] == s[i];
    }
  }

  lemma FieldText(name: string, value: string)
    requires name != "" && !IsSpace(name[0])
    ensures SkipSpace(Field(name, value)) == name + value && Field(name, value) != "" && Field(name, value)[0] == ' '
  {
    var s := Field(name, value);
    assert s[1..] == name + value;
    assert SkipSpace(s[1..]) == s[1..];
  }

  lemma ControlStep(p: Partial, k: nat, name: string, value: string, t: Try)
    requires !p.done && name != "" && !IsSpace(name[0]) && ReadControl(p, name + value) == t && t.matched
    ensures Interpret(p, k, Field(name, value)) == Interpret(t.state, k, t.rest)
  {
    FieldText(name, value);
  }

  lemma MatchStep(p: Partial, k: nat, name: string, value: string, t: Try)
    requires !p.done && name != "" && !IsSpace(name[0]) && NoControl(name)
    requires ReadMatch(p, name + value) == t && t.matched
    ensures Interpret(p, k, Field(name, value)) == Interpret(t.state, k + 1, t.rest)
  {
    FieldText(name, value);
    NotControl(p, name, value);
  }

  /** Names of fields that say what a rule matches. */
  predicate NoControl(name: string) {
    && name != "" && name[0] != 'i' && name[0] != 'a' && name[0] != 'p'
    && (name[0] == 'r' ==> |name| > 1 && name[1] != 'u')
  }

  lemma NotControl(p: Partial, name: string, value: string)
    requires NoControl(name)
    ensures ReadControl(p, name + value) == Try(false, p, name + value)
  {
    var text := name + value;
    assert text[0] == name[0] && (|name| > 1 ==> text[1] == name[1]);
    Mismatch(text, "if=", 0);
    Mismatch(text, "rule=", if text[0] == 'r' then 1 else 0);
    Mismatch(text, "action=", 0);
    Mismatch(text, "protocol=", 0);
  }

  predicate ProperName(name: string) {
    0 < |name| < 16 && forall c | c in name :: !IsSpace(c) && c != '\0'
  }

  lemma {:induction false} WordRead(name: string, room: nat, rest: string)
    requires |name| < room && forall c | c in name :: !IsSpace(c) && c != '\0'
    requires rest != "" && IsSpace(rest[0])
    ensures Word(name + rest, room) == Read(name, rest)
  {
    hide IsSpace;
    var s := name + rest;
    if name == "" {
      assert s == rest;
    } else {
      assert name[0] in name;
      WordRead(name[1..], room - 1, rest);
      assert s[1..] == name[1..] + rest && s[0] == name[0];
      assert [name[0]] + name[1..] == name;
    }
  }

  lemma IfStep(p: Partial, k: nat, name: string, rest: string)
    requires !p.done && !p.ifSeen && ProperName(name) && rest != "" && IsSpace(rest[0])
    ensures Interpret(p, k, IfField(name, rest)) == Interpret(p.(ifname := name, ifSeen := true), k, rest)
  {
    var s := IfField(name, rest);
    SkipPrefix("if=", name + rest);
    WordRead(name, IFNAMSIZ, rest);
    assert SkipSpace(s) == s;
    assert ReadIf(p, s) == Try(true, p.(ifname := name, ifSeen := true), rest);
  }

  lemma RuleStep(p: Partial, k: nat, n: nat, rest: string)
    requires !p.done && p.number == -1 && n < INT_LIMIT && EndsDec(rest)
    ensures Interpret(p, k, RuleField(n, rest)) == Interpret(p.(number := n), k, rest)
  {
    hide Interpret;
    var value := Dec(n) + rest;
    var text := "rule=" + value;
    SkipPrefix("rule=", value);
    DecRead(n, rest);
    Mismatch(text, "if=", 0);
    ControlStep(p, k, "rule=", value, ReadRule(p, text));
  }

  lemma ProtocolTaken(p: Partial, protocol: Protocol, rest: string)
    requires !p.protoSeen
    ensures ReadProtocol(p, "protocol=" + (ProtocolName(protocol) + rest)) ==
            Try(true, WithProtocol(p, protocol, if protocol == Eth then MacAddress else PortRange), rest)
  {
    var value := ProtocolName(protocol) + rest;
    SkipPrefix("protocol=", value);
    SkipPrefix(ProtocolName(protocol), rest);
    if protocol != Tcp { Mismatch(value, "tcp", 0); }
    if protocol == Ip || protocol == Eth { Mismatch(value, "udp", 0); }
    if protocol == Eth { Mismatch(value, "ip", 0); }
  }

  lemma ProtocolStep(p: Partial, k: nat, protocol: Protocol, rest: string)
    requires !p.done && !p.protoSeen
    ensures Interpret(p, k, ProtocolField(protocol, rest)) ==
            Interpret(WithProtocol(p, protocol, if protocol == Eth then MacAddress else PortRange), k, rest)
  {
    hide Interpret;
    var value := ProtocolName(protocol) + rest;
    var text := "protocol=" + value;
    ProtocolTaken(p, protocol, rest);
    Mismatch(text, "if=", 0);
    Mismatch(text, "rule=", 0);
    Mismatch(text, "action=", 0);
    ControlStep(p, k, "protocol=", value, ReadProtocol(p, text));
  }

  lemma LclIpStep(p: Partial, k: nat, ip: IpBytes, mask: IpBytes, rest: string)
    requires !p.done && EndsDec(rest)
    ensures Interpret(p, k, Field("local_ip=", IpMaskName(ip, mask, rest))) ==
            Interpret(WithRange(p, p.rule.range.(lclIp := ip, lclMask := mask)), k + 1, rest)
  {
    hide Interpret, IpMaskName;
    var value := IpMaskName(ip, mask, rest);
    SkipPrefix("local_ip=", value);
    IpMaskRead(ip, mask, p.rule.range.lclIp, p.rule.range.lclMask, rest);
    MatchStep(p, k, "local_ip=", value, ReadLclIp(p, "local_ip=" + value));
  }

  lemma RmtIpStep(p: Partial, k: nat, ip: IpBytes, mask: IpBytes, rest: string)
    requires !p.done && EndsDec(rest)
    ensures Interpret(p, k, Field("remote_ip=", IpMaskName(ip, mask, rest))) ==
            Interpret(WithRange(p, p.rule.range.(rmtIp := ip, rmtMask := mask)), k + 1, rest)
  {
    hide Interpret, IpMaskName;
    var value := IpMaskName(ip, mask, rest);
    var text := "remote_ip=" + value;
    SkipPrefix("remote_ip=", value);
    IpMaskRead(ip, mask, p.rule.range.rmtIp, p.rule.range.rmtMask, rest);
    Mismatch(text, "local_ip=", 0);
    MatchStep(p, k, "remote_ip=", value, ReadRmtIp(p, text));
  }

  lemma LclPortStep(p: Partial, k: nat, min: Short, max: Short, rest: string)
    requires !p.done && EndsDec(rest)
    ensures Interpret(p, k, Field("local_port=", PortsName(min, max, rest))) ==
            Interpret(WithRange(p, p.rule.range.(lclMin := min, lclMax := max)), k + 1, rest)
  {
    hide Interpret, PortsName;
    var value := PortsName(min, max, rest);
    var text := "local_port=" + value;
    SkipPrefix("local_port=", value);
    PortsRead(min, max, rest);
    Mismatch(text, "local_ip=", 6);
    Mismatch(text, "remote_ip=", 0);
    MatchStep(p, k, "local_port=", value, ReadLclPort(p, text));
  }

  lemma RmtPortStep(p: Partial, k: nat, min: Short, max: Short, rest: string)
    requires !p.done && EndsDec(rest)
    ensures Interpret(p, k, Field("remote_port=", PortsName(min, max, rest))) ==
            Interpret(WithRange(p, p.rule.range.(rmtMin := min, rmtMax := max)), k + 1, rest)
  {
    hide Interpret, PortsName;
    var value := PortsName(min, max, rest);
    var text := "remote_port=" + value;
    SkipPrefix("remote_port=", value);
    PortsRead(min, max, rest);
    Mismatch(text, "local_ip=", 0);
    Mismatch(text, "remote_ip=", 7);
    Mismatch(text, "local_port=", 0);
    MatchStep(p, k, "remote_port=", value, ReadRmtPort(p, text));
  }

  lemma LastReaders(p: Partial, text: string)
    requires text != "" && text[0] != 'l' && text[0] != 'r'
    ensures var e := ReadMac(p, text); ReadMatch(p, text) == if e.matched then e else ReadVlan(e.state, e.rest)
  {
    Mismatch(text, "local_ip=", 0);
    Mismatch(text, "remote_ip=", 0);
    Mismatch(text, "local_port=", 0);
    Mismatch(text, "remote_port=", 0);
  }

  lemma MacStep(p: Partial, k: nat, mac: Mac, rest: string)
    requires !p.done && EndsHex(rest)
    ensures Interpret(p, k, Field("mac=", MacMaskName(mac, rest))) ==
            Interpret(p.(rule := p.rule.(mac := mac)), k + 1, rest)
  {
    hide Interpret, MacMaskName;
    var value := MacMaskName(mac, rest);
    SkipPrefix("mac=", value);
    MacMaskRead(mac, rest);
    LastReaders(p, "mac=" + value);
    MatchStep(p, k, "mac=", value, Try(true, p.(rule := p.rule.(mac := mac)), rest));
  }

  lemma VlanTaken(p: Partial, vlan: Short, rest: string)
    requires EndsDec(rest)
    ensures ReadVlan(p, "vlan=" + (Dec(vlan) + rest)) == Try(true, p.(rule := p.rule.(vlan := vlan)), rest)
  {
    SkipPrefix("vlan=", Dec(vlan) + rest);
    DecRead(vlan, rest);
  }

  lemma VlanStep(p: Partial, k: nat, vlan: Short, rest: string)
    requires !p.done && EndsDec(rest)
    ensures Interpret(p, k, VlanField(vlan, rest)) == Interpret(p.(rule := p.rule.(vlan := vlan)), k + 1, rest)
  {
    hide Interpret;
    var value := Dec(vlan) + rest;
    VlanTaken(p, vlan, rest);
    hide ReadVlan;
    LastReaders(p, "vlan=" + value);
    Mismatch("vlan=" + value, "mac=", 0);
    hide ReadMatch;
    MatchStep(p, k, "vlan=", value, Try(true, p.(rule := p.rule.(vlan := vlan)), rest));
  }

  lemma LineEnd(p: Partial, k: nat, rest: string)
    requires !p.done && p.ifSeen && p.protoSeen && p.actSeen && k > 0
    ensures Interpret(p, k, "\n" + rest) == Accepted(p.rule, p.ifname, p.number, rest)
  {
    var s := "\n" + rest;
    assert SkipSpace(s) == s && s[1..] == rest;
    NotControl(p, "\n", rest);
    LastReaders(p, s);
    Mismatch(s, "mac=", 0);
    Mismatch(s, "vlan=", 0);
    SkipPrefix("\n", rest);
  }

  lemma ActionTaken(p: Partial, a: Action, rest: string)
    requires !p.actSeen && a != Unsupported
    ensures ReadAction(p, "action=" + (ActionName(a) + rest)) ==
            Try(true, p.(rule := p.rule.(action := a), actSeen := true), rest)
  {
    var value := ActionName(a) + rest;
    SkipPrefix("action=", value);
    SkipPrefix(ActionName(a), rest);
    if a == Drop {
      Mismatch(value, "ACCEPT", 0);
      Mismatch(value, "ACCELERATE", 0);
      Mismatch(value, "REJECT", 0);
      Mismatch(value, "DROP", 1);
    }
  }

  lemma ActionStep(p: Partial, k: nat, a: Action, rest: string)
    requires !p.done && p.ifSeen && p.protoSeen && !p.actSeen && k > 0 && a != Unsupported
    ensures Interpret(p, k, ActionField(a, rest)) == Accepted(p.rule.(action := a), p.ifname, p.number, rest)
  {
    hide Interpret;
    var value := ActionName(a) + ("\n" + rest);
    var text := "action=" + value;
    ActionTaken(p, a, "\n" + rest);
    Mismatch(text, "if=", 0);
    Mismatch(text, "rule=", 0);
    ControlStep(p, k, "action=", value, ReadAction(p, text));
    LineEnd(p.(rule := p.rule.(action := a), actSeen := true), k, rest);
  }

  // ----- What reading makes -----

  /** A rule as far as it has been read, with the text still to come. */
  predicate PartialOk(p: Partial, s: string) {
    Built(p.rule) && (p.ifSeen && s != "" ==> ProperName(p.ifname))
  }

  lemma {:induction false} WordProper(s: string, room: nat)
    ensures var w := Word(s, room).value;
            (room > 0 ==> |w| < room) && forall c | c in w :: !IsSpace(c) && c != '\0'
  {
    if s != "" && room > 1 && !IsSpace(s[0]) && s[0] != '\0' {
      WordProper(s[1..], room - 1);
    }
  }

  lemma IfOk(p: Partial, s: string)
    requires PartialOk(p, s)
    ensures PartialOk(ReadIf(p, s).state, ReadIf(p, s).rest)
  {
    if |s| >= 3 {
      WordProper(s[3..], IFNAMSIZ);
    }
  }

  lemma ControlOk(p: Partial, s: string)
    requires PartialOk(p, s)
    ensures PartialOk(ReadControl(p, s).state, ReadControl(p, s).rest)
  {
    hide ReadIf, ReadRule, ReadAction, ReadProtocol;
    IfOk(p, s);
  }

  /** Whatever the text, an accepted rule can be printed and has a name that can be read. */
  lemma {:induction false} InterpretBuilds(p: Partial, k: nat, s: string)
    requires PartialOk(p, s)
    ensures var o := Interpret(p, k, s); o.Accepted? ==> Built(o.rule) && ProperName(o.ifname)
    decreases |s|
  {
    if !p.done && s != "" && s[0] != '\0' {
      var s1 := SkipSpace(s);
      ControlOk(p, s1);
      var c := ReadControl(p, s1);
      if c.matched {
        InterpretBuilds(c.state, k, c.rest);
      } else {
        var m := ReadMatch(c.state, c.rest);
        if m.matched {
          InterpretBuilds(m.state, k + 1, m.rest);
        }
      }
    }
  }

  ghost predicate TablesOk(tables: Tables) {
    forall name | name in tables :: ProperName(name) && forall r | r in tables[name] :: Built(r)
  }

  lemma {:induction false} AddTextBuilds(tables: Tables, s: string)
    requires TablesOk(tables)
    ensures TablesOk(AddText(tables, s))
    decreases |s|
  {
    if s != "" && s[0] != '\0' {
      InterpretBuilds(Blank(), 0, s);
      match Interpret(Blank(), 0, s)
      case NoRule =>
      case Accepted(rule, ifname, number, rest) =>
        AddTextBuilds(tables[ifname := Insert(TableOf(tables, ifname), number, rule)], rest);
    }
  }

  /** What is written to the files of the firewall. */
  datatype Write = AddRules(text: string) | RemoveRule(name: string, position: int) | RemoveAll(name: string)

  function Apply(tables: Tables, w: Write): Tables {
    match w
    case AddRules(text) => AddText(tables, text)
    case RemoveRule(name, position) =>
      if name in tables && 0 <= position < |tables[name]| then
        tables[name := tables[name][..position] + tables[name][position + 1..]]
      else tables
    case RemoveAll(name) => if name in tables then tables[name := []] else tables
  }

  function Run(writes: seq<Write>): Tables {
    if writes == [] then map[] else Apply(Run(writes[..|writes| - 1]), writes[|writes| - 1])
  }

  lemma {:induction false} RunBuilds(writes: seq<Write>)
    ensures TablesOk(Run(writes))
  {
    if writes != [] {
      RunBuilds(writes[..|writes| - 1]);
      var w := writes[|writes| - 1];
      if w.AddRules? {
        AddTextBuilds(Run(writes[..|writes| - 1]), w.text);
      }
    }
  }

  // ----- The round trip -----

  /** A rule read back: what is not printed is as in a blank rule. */
  function ReadBack(r: Rule): Rule {
    if r.protocol == Eth then
      BlankRule().(kind := MacAddress, protocol := Eth, mac := r.mac, vlan := r.vlan, action := r.action)
    else
      BlankRule().(protocol := r.protocol, range := r.range, vlan := r.vlan, action := r.action)
  }

  /** What was not printed does not matter. */
  lemma ReadBackMatches(r: Rule, spec: Spec)
    requires Built(r)
    ensures Matches(spec, ReadBack(r)) <==> Matches(spec, r)
    ensures ReadBack(r).action == r.action
  {
  }

  lemma FieldEnds(name: string, value: string)
    ensures EndsDec(Field(name, value)) && EndsHex(Field(name, value)) && IsSpace(Field(name, value)[0])
  {
  }

  lemma EthRoundTrip(p: Partial, r: Rule, rest: string)
    requires !p.done && p.ifSeen && p.protoSeen && !p.actSeen && Built(r) && r.protocol == Eth
    requires p.rule == BlankRule().(kind := MacAddress, protocol := Eth)
    ensures Interpret(p, 0, Field("mac=", MacMaskName(r.mac, VlanField(r.vlan, ActionField(r.action, rest))))) ==
            Accepted(ReadBack(r), p.ifname, p.number, rest)
  {
    hide Interpret, MacMaskName, Dec, ActionName;
    var action := ActionField(r.action, rest);
    var vlan := VlanField(r.vlan, action);
    FieldEnds("action=", ActionName(r.action) + ("\n" + rest));
    FieldEnds("vlan=", Dec(r.vlan) + action);
    assert EndsDec(action) && EndsDec(vlan) && EndsHex(vlan);
    hide Field, VlanField, ActionField;
    MacStep(p, 0, r.mac, vlan);
    var p1 := p.(rule := p.rule.(mac := r.mac));
    VlanStep(p1, 1, r.vlan, action);
    ActionStep(p1.(rule := p1.rule.(vlan := r.vlan)), 2, r.action, rest);
  }

  lemma AddressRoundTrip(p: Partial, r: Rule, rest: string)
    requires !p.done && EndsDec(rest)
    ensures Interpret(p, 0, Field("local_ip=", IpMaskName(r.range.lclIp, r.range.lclMask,
                            Field("remote_ip=", IpMaskName(r.range.rmtIp, r.range.rmtMask, rest))))) ==
            Interpret(WithRange(p, p.rule.range.(lclIp := r.range.lclIp, lclMask := r.range.lclMask,
                                                 rmtIp := r.range.rmtIp, rmtMask := r.range.rmtMask)), 2, rest)
  {
    hide Interpret, IpMaskName;
    FieldEnds("remote_ip=", IpMaskName(r.range.rmtIp, r.range.rmtMask, rest));
    LclIpStep(p, 0, r.range.lclIp, r.range.lclMask,
              Field("remote_ip=", IpMaskName(r.range.rmtIp, r.range.rmtMask, rest)));
    RmtIpStep(WithRange(p, p.rule.range.(lclIp := r.range.lclIp, lclMask := r.range.lclMask)), 1,
              r.range.rmtIp, r.range.rmtMask, rest);
  }

  lemma PortRoundTrip(p: Partial, r: Rule, rest: string)
    requires !p.done && EndsDec(rest)
    ensures Interpret(p, 2, Field("local_port=", PortsName(r.range.lclMin, r.range.lclMax,
                            Field("remote_port=", PortsName(r.range.rmtMin, r.range.rmtMax, rest))))) ==
            Interpret(WithRange(p, p.rule.range.(lclMin := r.range.lclMin, lclMax := r.range.lclMax,
                                                 rmtMin := r.range.rmtMin, rmtMax := r.range.rmtMax)), 4, rest)
  {
    hide Interpret, PortsName;
    FieldEnds("remote_port=", PortsName(r.range.rmtMin, r.range.rmtMax, rest));
    LclPortStep(p, 2, r.range.lclMin, r.range.lclMax,
                Field("remote_port=", PortsName(r.range.rmtMin, r.range.rmtMax, rest)));
    RmtPortStep(WithRange(p, p.rule.range.(lclMin := r.range.lclMin, lclMax := r.range.lclMax)), 3,
                r.range.rmtMin, r.range.rmtMax, rest);
  }

  lemma IpRoundTrip(p: Partial, r: Rule, rest: string)
    requires !p.done && p.ifSeen && p.protoSeen && !p.actSeen && Built(r) && r.protocol != Eth
    requires p.rule == BlankRule().(protocol := r.protocol)
    ensures Interpret(p, 0, Field("local_ip=", IpMaskName(r.range.lclIp, r.range.lclMask,
                            Field("remote_ip=", IpMaskName(r.range.rmtIp, r.range.rmtMask,
                            Field("local_port=", PortsName(r.range.lclMin, r.range.lclMax,
                            Field("remote_port=", PortsName(r.range.rmtMin, r.range.rmtMax,
                            VlanField(r.vlan, ActionField(r.action, rest)))))))))))  ==
            Accepted(ReadBack(r), p.ifname, p.number, rest)
  {
    hide Interpret, MacMaskName, Dec, ActionName;
    var action := ActionField(r.action, rest);
    var vlan := VlanField(r.vlan, action);
    FieldEnds("action=", ActionName(r.action) + ("\n" + rest));
    FieldEnds("vlan=", Dec(r.vlan) + action);
    assert EndsDec(action) && EndsDec(vlan) && EndsHex(vlan);
    hide Field, VlanField, ActionField;
    var ports := Field("local_port=", PortsName(r.range.lclMin, r.range.lclMax,
                 Field("remote_port=", PortsName(r.range.rmtMin, r.range.rmtMax, vlan))));
    AddressRoundTrip(p, r, ports);
    var p2 := WithRange(p, p.rule.range.(lclIp := r.range.lclIp, lclMask := r.range.lclMask,
                                         rmtIp := r.range.rmtIp, rmtMask := r.range.rmtMask));
    PortRoundTrip(p2, r, vlan);
    var p4 := WithRange(p, r.range);
    VlanStep(p4, 4, r.vlan, action);
    ActionStep(p4.(rule := p4.rule.(vlan := r.vlan)), 5, r.action, rest);
  }

  /** A printed rule is read back, with its interface and number, and the text after it is left. */
  lemma RuleRoundTrip(name: string, number: nat, r: Rule, rest: string)
    requires ProperName(name) && number < INT_LIMIT && Built(r)
    ensures Interpret(Blank(), 0, PrintRule(name, number, r, rest)) == Accepted(ReadBack(r), name, number, rest)
  {
    hide Interpret;
    var tail := VlanField(r.vlan, ActionField(r.action, rest));
    var fields :=
      if r.protocol == Eth then Field("mac=", MacMaskName(r.mac, tail))
      else Field("local_ip=", IpMaskName(r.range.lclIp, r.range.lclMask,
           Field("remote_ip=", IpMaskName(r.range.rmtIp, r.range.rmtMask,
           Field("local_port=", PortsName(r.range.lclMin, r.range.lclMax,
           Field("remote_port=", PortsName(r.range.rmtMin, r.range.rmtMax, tail))))))));
    var protocol := ProtocolField(r.protocol, fields);
    IfStep(Blank(), 0, name, RuleField(number, protocol));
    var p1 := Blank().(ifname := name, ifSeen := true);
    RuleStep(p1, 0, number, protocol);
    var p2 := p1.(number := number);
    ProtocolStep(p2, 0, r.protocol, fields);
    var p3 := WithProtocol(p2, r.protocol, if r.protocol == Eth then MacAddress else PortRange);
    if r.protocol == Eth {
      EthRoundTrip(p3, r, rest);
    } else {
      IpRoundTrip(p3, r, rest);
    }
  }

  function ReadBackAll(rules: seq<Rule>): (s: seq<Rule>)
    ensures |s| == |rules| && forall i | 0 <= i < |s| :: s[i] == ReadBack(rules[i])
  {
    seq(|rules|, i requires 0 <= i < |rules| => ReadBack(rules[i]))
  }

  lemma ReadBackNext(rules: seq<Rule>, i: nat)
    requires i < |rules|
    ensures ReadBackAll(rules[..i + 1]) == ReadBackAll(rules[..i]) + [ReadBack(rules[i])]
  {
    hide ReadBack;
  }

  lemma AddPrinted(tables: Tables, name: string, number: nat, r: Rule, rest: string)
    requires ProperName(name) && number < INT_LIMIT && Built(r)
    ensures AddText(tables, PrintRule(name, number, r, rest)) ==
            AddText(tables[name := Insert(TableOf(tables, name), number, ReadBack(r))], rest)
  {
    hide Interpret, ReadBack;
    RuleRoundTrip(name, number, r, rest);
    assert PrintRule(name, number, r, rest)[0] == 'i';
  }

  /** The text of the rules from i on, added to a table with those before i. */
  lemma {:induction false} RestRoundTrip(tables: Tables, name: string, rules: seq<Rule>, i: nat)
    requires ProperName(name) && |rules| <= INT_LIMIT && i <= |rules| && forall r | r in rules :: Built(r)
    requires TableOf(tables, name) == ReadBackAll(rules[..i])
    ensures TableOf(AddText(tables, PrintTable(name, rules, i)), name) == ReadBackAll(rules)
    decreases |rules| - i
  {
    hide PrintRule, Interpret, ReadBack;
    if i == |rules| {
      assert rules[..i] == rules;
    } else {
      var rest := PrintTable(name, rules, i + 1);
      AddPrinted(tables, name, i, rules[i], rest);
      var next := tables[name := Insert(TableOf(tables, name), i, ReadBack(rules[i]))];
      ReadBackNext(rules, i);
      RestRoundTrip(next, name, rules, i + 1);
    }
  }

  /** Printing the rules an interface has after any writes, and adding that text where there are no rules, gives
      a table that refuses the same filters. */
  lemma RoundTrip(writes: seq<Write>, name: string, spec: Spec)
    requires |TableOf(Run(writes), name)| <= INT_LIMIT
    ensures var rules := TableOf(Run(writes), name);
            var again := TableOf(AddText(map[], PrintTable(name, rules, 0)), name);
            Refuses(again, spec) <==> Refuses(rules, spec)
  {
    hide Run, Interpret, PrintRule, Matches, ReadBack;
    RunBuilds(writes);
    var rules := TableOf(Run(writes), name);
    if rules != [] {
      RestRoundTrip(map[], name, rules, 0);
      var again := ReadBackAll(rules);
      forall i | 0 <= i < |rules|
        ensures (Matches(spec, again[i]) <==> Matches(spec, rules[i])) && again[i].action == rules[i].action
      {
        ReadBackMatches(rules[i], spec);
      }
    }
  }
}
