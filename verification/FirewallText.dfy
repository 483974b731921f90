/** The text form of firewall rules: reading and printing (src/driver/linux_resource/filter.c). */
module FirewallText {
  import opened Firewall
  import opened Numerals

  // ----- Characters and numbers -----

  /** isspace of the kernel. */
  predicate IsSpace(c: char) {
    c as int in {9, 10, 11, 12, 13, 32, 160}
  }

  const INT_MODULUS := 0x1_0000_0000
  const INT_LIMIT := 0x8000_0000

  /** The value an int takes when arithmetic gives x: it wraps around. */
  function ToInt(x: int): (r: int)
    ensures -INT_LIMIT <= r < INT_LIMIT && (-INT_LIMIT <= x < INT_LIMIT ==> r == x)
    ensures (r - x) % INT_MODULUS == 0
  {
    (x + INT_LIMIT) % INT_MODULUS - INT_LIMIT
  }

  /** Something read, and the text after it. */
  datatype Read<+T> = Read(value: T, rest: string)

  predicate StartsWith(s: string, p: string) {
    |p| <= |s| && s[..|p|] == p
  }

  function Digits(acc: int, s: string): (r: Read<int>)
    ensures |r.rest| <= |s|
    decreases |s|
  {
    if s != "" && IsDigit(s[0]) then Digits(ToInt(ToInt(acc * 10) + DigitValue(s[0])), s[1..]) else Read(acc, s)
  }

  /** efrm_atoi. */
  function Atoi(s: string): (r: Read<int>)
    ensures |r.rest| <= |s|
  {
    if s == "" then Read(-1, s)
    else if s[0] == '-' then var d := Digits(0, s[1..]); Read(ToInt(d.value * -1), d.rest)
    else Digits(0, s)
  }

  function HexDigits(acc: int, s: string): (r: Read<int>)
    ensures |r.rest| <= |s|
    decreases |s|
  {
    if s != "" && IsHex(s[0]) then HexDigits(ToInt(ToInt(acc * 16) + HexValue(s[0])), s[1..]) else Read(acc, s)
  }

  /** efrm_skip_whitespace: a line end is not skipped. */
  function SkipSpace(s: string): (r: string)
    ensures |r| <= |s|
  {
    if s != "" && s[0] != '\n' && IsSpace(s[0]) then SkipSpace(s[1..]) else s
  }

  const IFNAMSIZ := 16

  /** efrm_consume_next_word on text that is not empty, with room for that many characters and a terminator. */
  function Word(s: string, room: nat): (r: Read<string>)
    ensures |r.rest| <= |s|
  {
    if s != "" && room > 1 && !IsSpace(s[0]) && s[0] != '\0' then
      var w := Word(s[1..], room - 1); Read([s[0]] + w.value, w.rest)
    else Read("", s)
  }

  function ToShort(x: int): Short {
    x % 65536
  }

  function ToOctet(x: int): Octet {
    x % 256
  }

  /** efrm_consume_portrange; its callers take the numbers whether or not they are in order. */
  function PortRangeText(s: string): (r: Read<(Short, Short)>)
    ensures |r.rest| <= |s|
  {
    var low := Atoi(s);
    if StartsWith(low.rest, ":") || StartsWith(low.rest, "-") then
      var high := Atoi(low.rest[1..]);
      Read((ToShort(low.value), ToShort(high.value)), high.rest)
    else Read((ToShort(low.value), ToShort(low.value)), low.rest)
  }

  // ----- Addresses -----

  /** Bytes being filled in, and whether all has gone well. */
  datatype Filled<+T> = Filled(ok: bool, bytes: T)

  /** efrm_consume_ip from byte k on: numbers with dots between them. */
  function IpText(s: string, ip: IpBytes, k: nat): (r: Read<Filled<IpBytes>>)
    requires k < 4
    ensures |r.rest| <= |s|
    decreases 4 - k
  {
    var v := Atoi(s);
    if v.value < 0 || v.value > 255 then Read(Filled(false, ip), v.rest)
    else
      var filled := ip[k := v.value];
      if k == 3 then Read(Filled(true, filled), v.rest)
      else if StartsWith(v.rest, ".") then IpText(v.rest[1..], filled, k + 1)
      else Read(Filled(false, filled), v.rest)
  }

  /** A byte with its top k bits set. */
  function TopByte(k: nat): Octet
    requires k <= 8
  {
    [0, 0x80, 0xc0, 0xe0, 0xf0, 0xf8, 0xfc, 0xfe, 0xff][k]
  }

  /** efrm_fill_top_bits: the bytes with the top n bits set; bytes further down stay. */
  function TopBits(n: nat, bytes: seq<Octet>): (r: seq<Octet>)
    ensures |r| == |bytes|
  {
    seq(|bytes|, i requires 0 <= i < |bytes| =>
      if n >= 8 * i + 8 then 0xff else if n > 8 * i then TopByte(n - 8 * i) else bytes[i])
  }

  /** efrm_consume_ip_mask: an address, and perhaps a mask in either form. */
  function IpMaskText(s: string, ip: IpBytes, mask: IpBytes): (r: Read<(bool, IpBytes, IpBytes)>)
    ensures |r.rest| <= |s|
  {
    var a := IpText(s, ip, 0);
    if !a.value.ok then Read((false, a.value.bytes, mask), a.rest)
    else if !StartsWith(a.rest, "/") then Read((true, a.value.bytes, [255, 255, 255, 255]), a.rest)
    else
      var m := IpText(a.rest[1..], mask, 0);
      if m.value.ok then Read((true, a.value.bytes, m.value.bytes), m.rest)
      else if m.value.bytes[0] > 32 then Read((false, a.value.bytes, m.value.bytes), m.rest)
      else Read((true, a.value.bytes, TopBits(m.value.bytes[0], m.value.bytes)), m.rest)
  }

  /** efrm_consume_hex from byte k on: hexadecimal numbers with colons or dashes between them. */
  function HexText(s: string, out: MacBytes, k: nat): (r: Read<Filled<MacBytes>>)
    requires k < 6
    ensures |r.rest| <= |s|
    decreases 6 - k
  {
    var v := HexDigits(0, s);
    var filled := out[k := ToOctet(v.value)];
    if k == 5 then Read(Filled(true, filled), v.rest)
    else if StartsWith(v.rest, ":") || StartsWith(v.rest, "-") then HexText(v.rest[1..], filled, k + 1)
    else Read(Filled(false, filled), v.rest)
  }

  const ZERO_MAC: MacBytes := [0, 0, 0, 0, 0, 0]
  const FULL_MAC: MacBytes := [255, 255, 255, 255, 255, 255]

  /** efrm_consume_mac. */
  function MacText(s: string): (r: Read<(bool, Mac)>)
    ensures |r.rest| <= |s|
  {
    var a := HexText(s, ZERO_MAC, 0);
    if !a.value.ok then Read((false, Mac(a.value.bytes, FULL_MAC)), a.rest)
    else if !StartsWith(a.rest, "/") then Read((true, Mac(a.value.bytes, FULL_MAC)), a.rest)
    else
      var m := HexText(a.rest[1..], FULL_MAC, 0);
      if m.value.ok then Read((true, Mac(a.value.bytes, m.value.bytes)), m.rest)
      else if m.value.bytes[0] > 48 then Read((false, Mac(a.value.bytes, m.value.bytes)), m.rest)
      else Read((true, Mac(a.value.bytes, TopBits(m.value.bytes[0], m.value.bytes))), m.rest)
  }

  // ----- Reading a rule -----

  /** What has been read of a rule. */
  datatype Partial = Partial(rule: Rule, ifname: string, number: int,
                             ifSeen: bool, actSeen: bool, protoSeen: bool, done: bool)

  /** Whether a reader took its token, and the state and the text after it. */
  datatype Try = Try(matched: bool, state: Partial, rest: string)

  predicate Shorter(t: Try, s: string) {
    |t.rest| <= |s| && (t.matched ==> |t.rest| < |s|)
  }

  /** efrm_allocate_blank_rule. */
  function BlankRule(): Rule {
    Rule(PortRange, Range(0, 65535, 0, 65535, [0, 0, 0, 0], [0, 0, 0, 0], [0, 0, 0, 0], [0, 0, 0, 0]),
         Mac(FULL_MAC, ZERO_MAC), 0, Tcp, Accept)
  }

  /** Nothing read: no rule number is -1. */
  function Blank(): Partial {
    Partial(BlankRule(), "", -1, false, false, false, false)
  }

  /** The rules that can be read: the kind goes with the protocol, and there is an action. */
  predicate Built(r: Rule) {
    (r.kind == MacAddress <==> r.protocol == Eth) && r.action != Unsupported
  }

  /** The interface is the same, and the rule is one that can be read if it was. */
  predicate SameName(p: Partial, q: Partial) {
    q.ifname == p.ifname && q.ifSeen == p.ifSeen && (Built(p.rule) ==> Built(q.rule))
  }

  function ReadIf(p: Partial, s: string): (t: Try)
    ensures Shorter(t, s)
  {
    if !StartsWith(s, "if=") then Try(false, p, s)
    else if p.ifSeen then Try(true, p.(done := true), s[3..])
    else if s[3..] == "" then Try(true, p.(ifSeen := true), "")
    else var w := Word(s[3..], IFNAMSIZ); Try(true, p.(ifname := w.value, ifSeen := w.value != ""), w.rest)
  }

  function ReadRule(p: Partial, s: string): (t: Try)
    ensures Shorter(t, s) && SameName(p, t.state)
  {
    if !StartsWith(s, "rule=") then Try(false, p, s)
    else if p.number == -1 then var v := Atoi(s[5..]); Try(true, p.(number := v.value), v.rest)
    else Try(true, p.(done := true), s[5..])
  }

  function ReadAction(p: Partial, s: string): (t: Try)
    ensures Shorter(t, s) && SameName(p, t.state)
  {
    if !StartsWith(s, "action=") then Try(false, p, s)
    else
      var r := s[7..];
      if p.actSeen then Try(true, p.(done := true), r)
      else if StartsWith(r, "ACCEPT") then Try(true, p.(rule := p.rule.(action := Accept), actSeen := true), r[6..])
      else if StartsWith(r, "ACCELERATE") then
        Try(true, p.(rule := p.rule.(action := Accept), actSeen := true), r[10..])
      else if StartsWith(r, "REJECT") then Try(true, p.(rule := p.rule.(action := Drop), actSeen := true), r[6..])
      else if StartsWith(r, "DROP") then Try(true, p.(rule := p.rule.(action := Drop), actSeen := true), r[4..])
      else if StartsWith(r, "DECELERATE") then
        Try(true, p.(rule := p.rule.(action := Drop), actSeen := true), r[10..])
      else Try(true, p.(done := true), r)
  }

  function WithProtocol(p: Partial, protocol: Protocol, kind: Kind): Partial {
    p.(rule := p.rule.(protocol := protocol, kind := kind), protoSeen := true)
  }

  function ReadProtocol(p: Partial, s: string): (t: Try)
    ensures Shorter(t, s) && SameName(p, t.state)
  {
    if !StartsWith(s, "protocol=") then Try(false, p, s)
    else
      var r := s[9..];
      if p.protoSeen then Try(true, p.(done := true), r)
      else if StartsWith(r, "tcp") then Try(true, WithProtocol(p, Tcp, PortRange), r[3..])
      else if StartsWith(r, "udp") then Try(true, WithProtocol(p, Udp, PortRange), r[3..])
      else if StartsWith(r, "ip") then Try(true, WithProtocol(p, Ip, PortRange), r[2..])
      else if StartsWith(r, "eth") then Try(true, WithProtocol(p, Eth, MacAddress), r[3..])
      else Try(true, p.(done := true), r)
  }

  function WithRange(p: Partial, range: Range): Partial {
    p.(rule := p.rule.(range := range))
  }

  /** An invalid address ends the rule but does not count as read, so that reading goes on after it. */
  function ReadLclIp(p: Partial, s: string): (t: Try)
    ensures Shorter(t, s) && SameName(p, t.state)
  {
    if !StartsWith(s, "local_ip=") then Try(false, p, s)
    else
      var v := IpMaskText(s[9..], p.rule.range.lclIp, p.rule.range.lclMask);
      var q := WithRange(p, p.rule.range.(lclIp := v.value.1, lclMask := v.value.2));
      if v.value.0 then Try(true, q, v.rest) else Try(false, q.(done := true), v.rest)
  }

  function ReadRmtIp(p: Partial, s: string): (t: Try)
    ensures Shorter(t, s) && SameName(p, t.state)
  {
    if !StartsWith(s, "remote_ip=") then Try(false, p, s)
    else
      var v := IpMaskText(s[10..], p.rule.range.rmtIp, p.rule.range.rmtMask);
      var q := WithRange(p, p.rule.range.(rmtIp := v.value.1, rmtMask := v.value.2));
      if v.value.0 then Try(true, q, v.rest) else Try(false, q.(done := true), v.rest)
  }

  function ReadLclPort(p: Partial, s: string): (t: Try)
    ensures Shorter(t, s) && SameName(p, t.state)
  {
    if !StartsWith(s, "local_port=") then Try(false, p, s)
    else
      var v := PortRangeText(s[11..]);
      Try(true, WithRange(p, p.rule.range.(lclMin := v.value.0, lclMax := v.value.1)), v.rest)
  }

  function ReadRmtPort(p: Partial, s: string): (t: Try)
    ensures Shorter(t, s) && SameName(p, t.state)
  {
    if !StartsWith(s, "remote_port=") then Try(false, p, s)
    else
      var v := PortRangeText(s[12..]);
      Try(true, WithRange(p, p.rule.range.(rmtMin := v.value.0, rmtMax := v.value.1)), v.rest)
  }

  function ReadMac(p: Partial, s: string): (t: Try)
    ensures Shorter(t, s) && SameName(p, t.state)
  {
    if !StartsWith(s, "mac=") then Try(false, p, s)
    else
      var v := MacText(s[4..]);
      var q := p.(rule := p.rule.(mac := v.value.1));
      if v.value.0 then Try(true, q, v.rest) else Try(false, q.(done := true), v.rest)
  }

  function ReadVlan(p: Partial, s: string): (t: Try)
    ensures Shorter(t, s) && SameName(p, t.state)
  {
    if !StartsWith(s, "vlan=") then Try(false, p, s)
    else var v := Atoi(s[5..]); Try(true, p.(rule := p.rule.(vlan := ToShort(v.value))), v.rest)
  }

  /** The readers of what a rule is about, in turn. */
  function ReadControl(p: Partial, s: string): (t: Try)
    ensures Shorter(t, s)
  {
    var a := ReadIf(p, s);
    if a.matched then a else
    var b := ReadRule(a.state, a.rest);
    if b.matched then b else
    var c := ReadAction(b.state, b.rest);
    if c.matched then c else ReadProtocol(c.state, c.rest)
  }

  /** The readers of what a rule matches, in turn. */
  function ReadMatch(p: Partial, s: string): (t: Try)
    ensures Shorter(t, s) && SameName(p, t.state)
  {
    var a := ReadLclIp(p, s);
    if a.matched then a else
    var b := ReadRmtIp(a.state, a.rest);
    if b.matched then b else
    var c := ReadLclPort(b.state, b.rest);
    if c.matched then c else
    var d := ReadRmtPort(c.state, c.rest);
    if d.matched then d else
    var e := ReadMac(d.state, d.rest);
    if e.matched then e else ReadVlan(e.state, e.rest)
  }

  /** A rule read from text, with its interface and position and the text after it; or none. */
  datatype Outcome = NoRule | Accepted(rule: Rule, ifname: string, number: int, rest: string)

  /** efrm_interpret_rule, from what has been read of the rule and of its matches. */
  function Interpret(p: Partial, matches: nat, s: string): (o: Outcome)
    ensures o.Accepted? ==> |o.rest| < |s|
    decreases |s|
  {
    if p.done || s == "" || s[0] == '\0' then NoRule
    else
      var c := ReadControl(p, SkipSpace(s));
      if c.matched then Interpret(c.state, matches, c.rest)
      else
        var m := ReadMatch(c.state, c.rest);
        if m.matched then Interpret(m.state, matches + 1, m.rest)
        else if StartsWith(m.rest, "\n") && m.state.ifSeen && m.state.protoSeen && m.state.actSeen && matches > 0 then
          Accepted(m.state.rule, m.state.ifname, m.state.number, m.rest[1..])
        else NoRule
  }

  /** The rules of each interface that has a table. */
  type Tables = map<string, seq<Rule>>

  function TableOf(tables: Tables, name: string): seq<Rule> {
    if name in tables then tables[name] else []
  }

  /** efrm_add_rule: add the rules of a text, up to the first that cannot be read. */
  function AddText(tables: Tables, s: string): Tables
    decreases |s|
  {
    if s == "" || s[0] == '\0' then tables
    else match Interpret(Blank(), 0, s)
      case NoRule => tables
      case Accepted(rule, ifname, number, rest) =>
        AddText(tables[ifname := Insert(TableOf(tables, ifname), number, rule)], rest)
  }
}
