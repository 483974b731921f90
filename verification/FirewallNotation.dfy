/**
 What else the text of a rule may say, beyond what is printed: the words for actions, masks left out or given by their
 length, single ports, and the fields a rule cannot do without.
 */
module FirewallNotation {
  import opened Firewall
  import opened FirewallText
  import opened FirewallParser
  import opened FirewallRoundTrip
  import opened Numerals

  // ----- Actions -----

  /** The words for an action, and the action. */
  const ACTIONS := [("ACCEPT", Accept), ("ACCELERATE", Accept), ("REJECT", Drop), ("DROP", Drop), ("DECELERATE", Drop)]

  /** The first action of a rule is the one its word stands for. */
  lemma ActionWord(p: Partial, i: nat, rest: string)
    requires !p.actSeen && i < |ACTIONS|
    ensures ReadAction(p, "action=" + (ACTIONS[i].0 + rest)) ==
            Try(true, p.(rule := p.rule.(action := ACTIONS[i].1), actSeen := true), rest)
  {
    var value := ACTIONS[i].0 + rest;
    SkipPrefix("action=", value);
    SkipPrefix(ACTIONS[i].0, rest);
    if i == 1 {
      Mismatch(value, "ACCEPT", 4);
    } else if i >= 2 {
      Mismatch(value, "ACCEPT", 0);
      Mismatch(value, "ACCELERATE", 0);
      if i >= 3 {
        Mismatch(value, "REJECT", 0);
      }
      if i == 4 {
        Mismatch(value, "DROP", 1);
      }
    }
  }

  /** No other word stands for one: the rule ends there. */
  lemma OtherAction(p: Partial, value: string)
    requires !p.actSeen && forall i | 0 <= i < |ACTIONS| :: !StartsWith(value, ACTIONS[i].0)
    ensures ReadAction(p, "action=" + value) == Try(true, p.(done := true), value)
  {
    SkipPrefix("action=", value);
    assert !StartsWith(value, ACTIONS[0].0) && !StartsWith(value, ACTIONS[1].0) && !StartsWith(value, ACTIONS[2].0);
    assert !StartsWith(value, ACTIONS[3].0) && !StartsWith(value, ACTIONS[4].0);
  }

  // ----- Addresses -----

  /** The text does not go on with a mask. */
  predicate NoMask(rest: string) {
    rest == "" || rest[0] != '/'
  }

  /** An address without a mask is matched in all its bits. */
  lemma WholeAddress(ip: IpBytes, oldIp: IpBytes, oldMask: IpBytes, rest: string)
    requires EndsDec(rest) && NoMask(rest)
    ensures IpMaskText(IpName(ip, 0) + rest, oldIp, oldMask) == Read((true, ip, [255, 255, 255, 255]), rest)
  {
    IpRead(ip, oldIp, 0, rest);
    Mismatch(rest, "/", 0);
    hide IpName, IpText, StartsWith, TopBits;
    assert oldIp[..0] + ip[0..] == ip;
  }

  lemma WholeMac(mac: MacBytes, rest: string)
    requires EndsHex(rest) && NoMask(rest)
    ensures MacText(MacName(mac, 0) + rest) == Read((true, Mac(mac, FULL_MAC)), rest)
  {
    MacReadWhole(mac, ZERO_MAC, rest);
    Mismatch(rest, "/", 0);
    hide MacName, HexText, TopBits, StartsWith;
  }

  /** The mask has exactly its top n bits. */
  predicate IsPrefix(mask: seq<Octet>, n: nat) {
    forall j | 0 <= j < 8 * |mask| :: Bit(mask[j / 8], 7 - j % 8) == if j < n then 1 else 0
  }

  lemma NumberOnly(n: nat, was: IpBytes, rest: string)
    requires n < 256 && EndsDec(rest) && (rest == "" || rest[0] != '.')
    ensures IpText(Dec(n) + rest, was, 0) == Read(Filled(false, was[0 := n]), rest)
  {
    DecRead(n, rest);
    Mismatch(rest, ".", 0);
    hide Dec, Atoi, StartsWith;
  }

  /** A mask given by its length has that many top bits, if it is the first of its rule, and is refused beyond 32. */
  lemma PrefixMask(ip: IpBytes, oldIp: IpBytes, n: nat, rest: string)
    requires n < 256 && EndsDec(rest) && (rest == "" || rest[0] != '.')
    ensures var r := IpMaskText(IpName(ip, 0) + ("/" + (Dec(n) + rest)), oldIp, [0, 0, 0, 0]);
            && r.rest == rest && (r.value.0 <==> n <= 32)
            && (n <= 32 ==> r.value.1 == ip && IsPrefix(r.value.2, n))
  {
    hide IpMaskText, IpText, TopBits, IsPrefix, IpName, Dec;
    var tail := "/" + (Dec(n) + rest);
    var was: IpBytes := [0, 0, 0, 0];
    IpRead(ip, oldIp, 0, tail);
    assert oldIp[..0] + ip[0..] == ip;
    NumberOnly(n, was, rest);
    IpMaskFilled(IpName(ip, 0) + tail, ip, oldIp, was, Dec(n) + rest, was[0 := n], rest);
    if n <= 32 {
      ClearFilled(n, was[0 := n]);
    }
  }

  /** What becomes of a mask that is not a whole address. */
  lemma IpMaskFilled(s: string, ip: IpBytes, oldIp: IpBytes, oldMask: IpBytes, t: string, bytes: IpBytes, rest: string)
    requires IpText(s, oldIp, 0) == Read(Filled(true, ip), "/" + t)
    requires IpText(t, oldMask, 0) == Read(Filled(false, bytes), rest)
    ensures IpMaskText(s, oldIp, oldMask) ==
            if bytes[0] > 32 then Read((false, ip, bytes), rest) else Read((true, ip, TopBits(bytes[0], bytes)), rest)
  {
    SkipPrefix("/", t);
    hide IpText, TopBits, StartsWith;
  }

  /** Filling bytes that are clear beyond the first n bits gives a mask of length n. */
  lemma ClearFilled(n: nat, bytes: seq<Octet>)
    requires forall i | 0 <= i < |bytes| && n <= 8 * i :: bytes[i] == 0
    ensures IsPrefix(TopBits(n, bytes), n)
  {
    var mask := TopBits(n, bytes);
    forall j | 0 <= j < 8 * |mask| ensures Bit(mask[j / 8], 7 - j % 8) == if j < n then 1 else 0 {
      if 8 * (j / 8) < n {
        TopBitsSet(n, bytes, j);
      } else {
        assert mask[j / 8] == 0;
        ZeroBits(7 - j % 8);
      }
    }
  }

  lemma ZeroBits(k: nat)
    requires k < 8
    ensures Bit(0, k) == 0 && Bit(255, k) == 1
  {
    TopByteBits(0, 7 - k);
    TopByteBits(8, 7 - k);
  }

  lemma HexNumberOnly(n: Octet, was: MacBytes, rest: string)
    requires EndsHex(rest) && (rest == "" || (rest[0] != ':' && rest[0] != '-'))
    ensures HexText(Hex(n) + rest, was, 0) == Read(Filled(false, was[0 := n]), rest)
  {
    HexRead(n, rest);
    Mismatch(rest, ":", 0);
    Mismatch(rest, "-", 0);
    hide Hex, HexDigits, StartsWith;
  }

  /** A hardware address mask given by its length, in hexadecimal, is refused beyond 48; it has that many top bits exactly
      if the length is more than 40, since the bytes the filling does not reach stay full. */
  lemma MacPrefixExactly(mac: MacBytes, n: Octet, rest: string)
    requires EndsHex(rest) && (rest == "" || (rest[0] != ':' && rest[0] != '-'))
    ensures var r := MacText(MacName(mac, 0) + ("/" + (Hex(n) + rest)));
            && r.rest == rest && (r.value.0 <==> n <= 48)
            && (n <= 48 ==> r.value.1.addr == mac && (IsPrefix(r.value.1.mask, n) <==> n > 40))
  {
    hide MacText, HexText, TopBits, IsPrefix, MacName, Hex;
    var tail := "/" + (Hex(n) + rest);
    MacReadWhole(mac, ZERO_MAC, tail);
    HexNumberOnly(n, FULL_MAC, rest);
    MacMaskFilled(MacName(mac, 0) + tail, mac, Hex(n) + rest, FULL_MAC[0 := n], rest);
    if n <= 48 {
      FullFilled(n, FULL_MAC[0 := n]);
    }
  }

  /** What becomes of a mask that is not a whole address. */
  lemma MacMaskFilled(s: string, mac: MacBytes, t: string, bytes: MacBytes, rest: string)
    requires HexText(s, ZERO_MAC, 0) == Read(Filled(true, mac), "/" + t)
    requires HexText(t, FULL_MAC, 0) == Read(Filled(false, bytes), rest)
    ensures MacText(s) ==
            if bytes[0] > 48 then Read((false, Mac(mac, bytes)), rest)
            else Read((true, Mac(mac, TopBits(bytes[0], bytes))), rest)
  {
    SkipPrefix("/", t);
    hide HexText, TopBits, StartsWith;
  }

  lemma FullFilled(n: nat, bytes: MacBytes)
    requires n <= 48 && bytes[5] == 255 && (forall i | 1 <= i < 6 :: bytes[i] == 255)
    ensures IsPrefix(TopBits(n, bytes), n) <==> n > 40
  {
    var mask := TopBits(n, bytes);
    if n > 40 {
      ClearFilled(n, bytes);
    } else {
      assert mask[5] == 255;
      ZeroBits(0);
      assert mask[47 / 8] == 255 && Bit(mask[47 / 8], 7 - 47 % 8) == 1;
    }
  }

  // ----- Ports -----

  /** A single port is a range of one. */
  lemma SinglePort(port: Short, rest: string)
    requires EndsDec(rest) && (rest == "" || (rest[0] != ':' && rest[0] != '-'))
    ensures PortRangeText(Dec(port) + rest) == Read((port, port), rest)
  {
    DecRead(port, rest);
    Mismatch(rest, ":", 0);
    Mismatch(rest, "-", 0);
    ShortStays(port);
    hide Dec, Atoi, StartsWith, ToShort;
  }

  lemma ShortStays(x: Short)
    ensures ToShort(x) == x
  {
  }

  /** A colon does for a dash. */
  lemma ColonPorts(low: Short, high: Short, rest: string)
    requires EndsDec(rest)
    ensures PortRangeText(Dec(low) + (":" + (Dec(high) + rest))) == Read((low, high), rest)
  {
    var tail := ":" + (Dec(high) + rest);
    DecRead(low, tail);
    DecRead(high, rest);
    SkipPrefix(":", Dec(high) + rest);
    ShortStays(low);
    ShortStays(high);
    hide Dec, Atoi, StartsWith, ToShort;
  }

  // ----- Fields a rule cannot do without -----

  predicate Suffix(r: string, s: string) {
    |r| <= |s| && r == s[|s| - |r|..]
  }

  lemma After(s: string, i: nat)
    requires i <= |s|
    ensures Suffix(s[i..], s)
  {
  }

  lemma Later(a: string, b: string, c: string)
    requires Suffix(a, b) && Suffix(b, c)
    ensures Suffix(a, c)
  {
  }

  lemma AfterPrefix(s: string, p: string)
    requires StartsWith(s, p)
    ensures |p| <= |s| && Suffix(s[|p|..], s)
  {
  }

  lemma {:induction false} DigitsAfter(acc: int, s: string)
    ensures Suffix(Digits(acc, s).rest, s)
    decreases |s|
  {
    if s != "" && IsDigit(s[0]) {
      DigitsAfter(ToInt(ToInt(acc * 10) + DigitValue(s[0])), s[1..]);
    }
  }

  lemma AtoiAfter(s: string)
    ensures Suffix(Atoi(s).rest, s)
  {
    if s != "" {
      DigitsAfter(0, s);
      DigitsAfter(0, s[1..]);
    }
  }

  lemma {:induction false} HexAfter(acc: int, s: string)
    ensures Suffix(HexDigits(acc, s).rest, s)
    decreases |s|
  {
    if s != "" && IsHex(s[0]) {
      HexAfter(ToInt(ToInt(acc * 16) + HexValue(s[0])), s[1..]);
    }
  }

  lemma {:induction false} SpaceAfter(s: string)
    ensures Suffix(SkipSpace(s), s)
  {
    if s != "" && s[0] != '\n' && IsSpace(s[0]) {
      SpaceAfter(s[1..]);
    }
  }

  lemma {:induction false} WordAfter(s: string, room: nat)
    ensures Suffix(Word(s, room).rest, s)
  {
    if s != "" && room > 1 && !IsSpace(s[0]) && s[0] != '\0' {
      WordAfter(s[1..], room - 1);
    }
  }

  lemma PortsAfter(s: string)
    ensures Suffix(PortRangeText(s).rest, s)
  {
    var rest := Atoi(s).rest;
    AtoiAfter(s);
    hide Atoi, StartsWith, Suffix;
    if StartsWith(rest, ":") || StartsWith(rest, "-") {
      AfterPrefix(rest, if StartsWith(rest, ":") then ":" else "-");
      AtoiAfter(rest[1..]);
      Later(rest[1..], rest, s);
      Later(Atoi(rest[1..]).rest, rest[1..], s);
    }
  }

  lemma {:induction false} IpAfter(s: string, ip: IpBytes, k: nat)
    requires k < 4
    ensures Suffix(IpText(s, ip, k).rest, s)
    decreases 4 - k
  {
    var v := Atoi(s);
    AtoiAfter(s);
    hide Atoi, StartsWith, Suffix;
    if 0 <= v.value <= 255 && k < 3 && StartsWith(v.rest, ".") {
      AfterPrefix(v.rest, ".");
      var filled := ip[k := v.value];
      IpAfter(v.rest[1..], filled, k + 1);
      Later(v.rest[1..], v.rest, s);
      Later(IpText(v.rest[1..], filled, k + 1).rest, v.rest[1..], s);
    }
  }

  lemma IpMaskAfter(s: string, ip: IpBytes, mask: IpBytes)
    ensures Suffix(IpMaskText(s, ip, mask).rest, s)
  {
    var rest := IpText(s, ip, 0).rest;
    IpAfter(s, ip, 0);
    hide IpText, TopBits, StartsWith, Suffix;
    if StartsWith(rest, "/") {
      AfterPrefix(rest, "/");
      IpAfter(rest[1..], mask, 0);
      Later(rest[1..], rest, s);
      Later(IpText(rest[1..], mask, 0).rest, rest[1..], s);
    }
  }

  lemma {:induction false} HexTextAfter(s: string, out: MacBytes, k: nat)
    requires k < 6
    ensures Suffix(HexText(s, out, k).rest, s)
    decreases 6 - k
  {
    var v := HexDigits(0, s);
    HexAfter(0, s);
    hide HexDigits, StartsWith, Suffix;
    if k < 5 && (StartsWith(v.rest, ":") || StartsWith(v.rest, "-")) {
      AfterPrefix(v.rest, if StartsWith(v.rest, ":") then ":" else "-");
      var filled := out[k := ToOctet(v.value)];
      HexTextAfter(v.rest[1..], filled, k + 1);
      Later(v.rest[1..], v.rest, s);
      Later(HexText(v.rest[1..], filled, k + 1).rest, v.rest[1..], s);
    }
  }

  lemma MacAfter(s: string)
    ensures Suffix(MacText(s).rest, s)
  {
    var rest := HexText(s, ZERO_MAC, 0).rest;
    HexTextAfter(s, ZERO_MAC, 0);
    hide HexText, TopBits, StartsWith, Suffix;
    if StartsWith(rest, "/") {
      AfterPrefix(rest, "/");
      HexTextAfter(rest[1..], FULL_MAC, 0);
      Later(rest[1..], rest, s);
      Later(HexText(rest[1..], FULL_MAC, 0).rest, rest[1..], s);
    }
  }

  /** What a reader leaves is the end of its text. */
  predicate Leaves(t: Try, s: string) {
    Suffix(t.rest, s)
  }

  lemma IfAfter(p: Partial, s: string)
    ensures Leaves(ReadIf(p, s), s)
  {
    hide Word;
    if StartsWith(s, "if=") {
      WordAfter(s[3..], IFNAMSIZ);
    }
  }

  lemma RuleAfter(p: Partial, s: string)
    ensures Leaves(ReadRule(p, s), s)
  {
    hide Atoi, StartsWith, Suffix;
    After(s, 0);
    if StartsWith(s, "rule=") {
      AfterPrefix(s, "rule=");
      AtoiAfter(s[5..]);
      Later(Atoi(s[5..]).rest, s[5..], s);
    }
  }

  lemma ActionAfter(p: Partial, s: string)
    ensures Leaves(ReadAction(p, s), s)
  {
    if StartsWith(s, "action=") {
      After(s, 7);
    }
  }

  lemma ProtocolAfter(p: Partial, s: string)
    ensures Leaves(ReadProtocol(p, s), s)
  {
    if StartsWith(s, "protocol=") {
      After(s, 9);
    }
  }

  lemma LaterStill(t: Try, s: string, r: string)
    requires Leaves(t, r) && Suffix(r, s)
    ensures Leaves(t, s)
  {
  }

  lemma ControlAfter(p: Partial, s: string)
    ensures Leaves(ReadControl(p, s), s)
  {
    hide ReadIf, ReadRule, ReadAction, ReadProtocol, Suffix;
    var a := ReadIf(p, s);
    var b := ReadRule(a.state, a.rest);
    var c := ReadAction(b.state, b.rest);
    var d := ReadProtocol(c.state, c.rest);
    IfAfter(p, s);
    RuleAfter(a.state, a.rest);
    ActionAfter(b.state, b.rest);
    ProtocolAfter(c.state, c.rest);
    LaterStill(b, s, a.rest);
    LaterStill(c, s, b.rest);
    LaterStill(d, s, c.rest);
  }

  lemma LclIpAfter(p: Partial, s: string)
    ensures Leaves(ReadLclIp(p, s), s)
  {
    hide IpMaskText, StartsWith, Suffix;
    After(s, 0);
    if StartsWith(s, "local_ip=") {
      AfterPrefix(s, "local_ip=");
      IpMaskAfter(s[9..], p.rule.range.lclIp, p.rule.range.lclMask);
      Later(IpMaskText(s[9..], p.rule.range.lclIp, p.rule.range.lclMask).rest, s[9..], s);
    }
  }

  lemma RmtIpAfter(p: Partial, s: string)
    ensures Leaves(ReadRmtIp(p, s), s)
  {
    hide IpMaskText, StartsWith, Suffix;
    After(s, 0);
    if StartsWith(s, "remote_ip=") {
      AfterPrefix(s, "remote_ip=");
      IpMaskAfter(s[10..], p.rule.range.rmtIp, p.rule.range.rmtMask);
      Later(IpMaskText(s[10..], p.rule.range.rmtIp, p.rule.range.rmtMask).rest, s[10..], s);
    }
  }

  lemma LclPortAfter(p: Partial, s: string)
    ensures Leaves(ReadLclPort(p, s), s)
  {
    hide PortRangeText, StartsWith, Suffix;
    After(s, 0);
    if StartsWith(s, "local_port=") {
      AfterPrefix(s, "local_port=");
      PortsAfter(s[11..]);
      Later(PortRangeText(s[11..]).rest, s[11..], s);
    }
  }

  lemma RmtPortAfter(p: Partial, s: string)
    ensures Leaves(ReadRmtPort(p, s), s)
  {
    hide PortRangeText, StartsWith, Suffix;
    After(s, 0);
    if StartsWith(s, "remote_port=") {
      AfterPrefix(s, "remote_port=");
      PortsAfter(s[12..]);
      Later(PortRangeText(s[12..]).rest, s[12..], s);
    }
  }

  lemma MacFieldAfter(p: Partial, s: string)
    ensures Leaves(ReadMac(p, s), s)
  {
    hide MacText, StartsWith, Suffix;
    After(s, 0);
    if StartsWith(s, "mac=") {
      AfterPrefix(s, "mac=");
      MacAfter(s[4..]);
      Later(MacText(s[4..]).rest, s[4..], s);
    }
  }

  lemma VlanAfter(p: Partial, s: string)
    ensures Leaves(ReadVlan(p, s), s)
  {
    hide Atoi, StartsWith, Suffix;
    After(s, 0);
    if StartsWith(s, "vlan=") {
      AfterPrefix(s, "vlan=");
      AtoiAfter(s[5..]);
      Later(Atoi(s[5..]).rest, s[5..], s);
    }
  }

  lemma MatchAfter(p: Partial, s: string)
    ensures Leaves(ReadMatch(p, s), s)
  {
    hide ReadLclIp, ReadRmtIp, ReadLclPort, ReadRmtPort, ReadMac, ReadVlan, Suffix;
    var a := ReadLclIp(p, s);
    var b := ReadRmtIp(a.state, a.rest);
    var c := ReadLclPort(b.state, b.rest);
    var d := ReadRmtPort(c.state, c.rest);
    var e := ReadMac(d.state, d.rest);
    var f := ReadVlan(e.state, e.rest);
    LclIpAfter(p, s);
    RmtIpAfter(a.state, a.rest);
    LclPortAfter(b.state, b.rest);
    RmtPortAfter(c.state, c.rest);
    MacFieldAfter(d.state, d.rest);
    VlanAfter(e.state, e.rest);
    LaterStill(b, s, a.rest);
    LaterStill(c, s, b.rest);
    LaterStill(d, s, c.rest);
    LaterStill(e, s, d.rest);
    LaterStill(f, s, e.rest);
  }

  /** The word does not occur in the text. */
  predicate Lacks(s: string, w: string) {
    forall i | 0 <= i <= |s| :: !StartsWith(s[i..], w)
  }

  lemma LacksLater(r: string, s: string, w: string)
    requires Suffix(r, s) && Lacks(s, w)
    ensures Lacks(r, w) && !StartsWith(r, w)
  {
    forall i | 0 <= i <= |r| ensures !StartsWith(r[i..], w) {
      assert r[i..] == s[|s| - |r| + i..];
    }
    assert r[0..] == r;
  }

  const MATCHES := ["local_ip=", "remote_ip=", "local_port=", "remote_port=", "mac=", "vlan="]

  predicate LacksMatches(s: string) {
    forall i | 0 <= i < |MATCHES| :: Lacks(s, MATCHES[i])
  }

  lemma LacksMatchesLater(r: string, s: string)
    requires Suffix(r, s) && LacksMatches(s)
    ensures LacksMatches(r) && forall i | 0 <= i < |MATCHES| :: !StartsWith(r, MATCHES[i])
  {
    hide Lacks, StartsWith;
    forall i | 0 <= i < |MATCHES| ensures Lacks(r, MATCHES[i]) && !StartsWith(r, MATCHES[i]) {
      LacksLater(r, s, MATCHES[i]);
    }
  }

  /** What a rule read so far still needs is nowhere in the text. */
  predicate Wanting(p: Partial, k: nat, s: string) {
    || (!p.ifSeen && Lacks(s, "if="))
    || (!p.actSeen && Lacks(s, "action="))
    || (!p.protoSeen && Lacks(s, "protocol="))
    || (k == 0 && LacksMatches(s))
  }

  lemma ControlFlags(p: Partial, s: string)
    ensures var q := ReadControl(p, s).state;
            && (!StartsWith(s, "if=") ==> q.ifSeen == p.ifSeen)
            && (!StartsWith(s, "action=") ==> q.actSeen == p.actSeen)
            && (!StartsWith(s, "protocol=") ==> q.protoSeen == p.protoSeen)
  {
    hide Word, Atoi, StartsWith;
  }

  lemma ControlKeepsWanting(p: Partial, k: nat, s: string)
    requires Wanting(p, k, s)
    ensures var c := ReadControl(p, s); Wanting(c.state, k, c.rest)
  {
    var c := ReadControl(p, s);
    ControlAfter(p, s);
    ControlFlags(p, s);
    assert Suffix(s, s);
    hide ReadControl, Lacks, StartsWith, Suffix;
    if !p.ifSeen && Lacks(s, "if=") {
      LacksLater(s, s, "if=");
      LacksLater(c.rest, s, "if=");
    } else if !p.actSeen && Lacks(s, "action=") {
      LacksLater(s, s, "action=");
      LacksLater(c.rest, s, "action=");
    } else if !p.protoSeen && Lacks(s, "protocol=") {
      LacksLater(s, s, "protocol=");
      LacksLater(c.rest, s, "protocol=");
    } else {
      LacksMatchesLater(c.rest, s);
    }
  }

  lemma MatchKeepsWanting(p: Partial, k: nat, s: string)
    requires Wanting(p, k, s)
    ensures var m := ReadMatch(p, s); Wanting(m.state, if m.matched then k + 1 else k, m.rest)
  {
    var m := ReadMatch(p, s);
    MatchAfter(p, s);
    SameFlags(p, s);
    assert Suffix(s, s);
    if !p.ifSeen && Lacks(s, "if=") {
      LacksLater(m.rest, s, "if=");
    } else if !p.actSeen && Lacks(s, "action=") {
      LacksLater(m.rest, s, "action=");
    } else if !p.protoSeen && Lacks(s, "protocol=") {
      LacksLater(m.rest, s, "protocol=");
    } else {
      LacksMatchesLater(s, s);
      NothingMatches(p, s);
    }
  }

  /** A reader of what a rule matches leaves what the rule is about alone. */
  predicate KeepsFlags(p: Partial, t: Try) {
    t.state.ifSeen == p.ifSeen && t.state.actSeen == p.actSeen && t.state.protoSeen == p.protoSeen
  }

  lemma IpFlags(p: Partial, s: string)
    ensures KeepsFlags(p, ReadLclIp(p, s)) && KeepsFlags(p, ReadRmtIp(p, s))
  {
    hide IpMaskText, StartsWith;
  }

  lemma OtherFlags(p: Partial, s: string)
    ensures KeepsFlags(p, ReadLclPort(p, s)) && KeepsFlags(p, ReadRmtPort(p, s))
    ensures KeepsFlags(p, ReadMac(p, s)) && KeepsFlags(p, ReadVlan(p, s))
  {
    hide PortRangeText, MacText, Atoi, StartsWith;
  }

  lemma SameFlags(p: Partial, s: string)
    ensures KeepsFlags(p, ReadMatch(p, s))
  {
    hide ReadLclIp, ReadRmtIp, ReadLclPort, ReadRmtPort, ReadMac, ReadVlan;
    var a := ReadLclIp(p, s);
    var b := ReadRmtIp(a.state, a.rest);
    var c := ReadLclPort(b.state, b.rest);
    var d := ReadRmtPort(c.state, c.rest);
    var e := ReadMac(d.state, d.rest);
    IpFlags(p, s);
    IpFlags(a.state, a.rest);
    OtherFlags(b.state, b.rest);
    OtherFlags(c.state, c.rest);
    OtherFlags(d.state, d.rest);
    OtherFlags(e.state, e.rest);
  }

  lemma NothingMatches(p: Partial, s: string)
    requires forall i | 0 <= i < |MATCHES| :: !StartsWith(s, MATCHES[i])
    ensures ReadMatch(p, s) == Try(false, p, s)
  {
    assert !StartsWith(s, MATCHES[0]) && !StartsWith(s, MATCHES[1]) && !StartsWith(s, MATCHES[2]);
    assert !StartsWith(s, MATCHES[3]) && !StartsWith(s, MATCHES[4]) && !StartsWith(s, MATCHES[5]);
    hide StartsWith;
  }

  lemma SpaceKeepsWanting(p: Partial, k: nat, s: string)
    requires Wanting(p, k, s)
    ensures Wanting(p, k, SkipSpace(s))
  {
    SpaceAfter(s);
    hide Lacks, SkipSpace;
    if !p.ifSeen && Lacks(s, "if=") {
      LacksLater(SkipSpace(s), s, "if=");
    } else if !p.actSeen && Lacks(s, "action=") {
      LacksLater(SkipSpace(s), s, "action=");
    } else if !p.protoSeen && Lacks(s, "protocol=") {
      LacksLater(SkipSpace(s), s, "protocol=");
    } else {
      LacksMatchesLater(SkipSpace(s), s);
    }
  }

  /** A text without an interface, an action, a protocol, or anything to match gives no rule. */
  lemma {:induction false} WantingGivesNone(p: Partial, k: nat, s: string)
    requires Wanting(p, k, s)
    ensures Interpret(p, k, s).NoRule?
    decreases |s|
  {
    hide Wanting, ReadControl, ReadMatch;
    if !p.done && s != "" && s[0] != '\0' {
      var s1 := SkipSpace(s);
      SpaceKeepsWanting(p, k, s);
      ControlKeepsWanting(p, k, s1);
      var c := ReadControl(p, s1);
      if c.matched {
        WantingGivesNone(c.state, k, c.rest);
      } else {
        MatchKeepsWanting(c.state, k, c.rest);
        var m := ReadMatch(c.state, c.rest);
        if m.matched {
          WantingGivesNone(m.state, k + 1, m.rest);
        } else {
          NotYetAll(m.state, k, m.rest);
        }
      }
    }
  }

  lemma NotYetAll(p: Partial, k: nat, s: string)
    requires Wanting(p, k, s)
    ensures !(p.ifSeen && p.protoSeen && p.actSeen && k > 0)
  {
  }

  /** A field of which a rule has one may not come again. */
  lemma RepeatedEnds(p: Partial, k: nat, rest: string)
    ensures p.ifSeen ==> Interpret(p, k, "if=" + rest).NoRule?
    ensures p.actSeen ==> Interpret(p, k, "action=" + rest).NoRule?
    ensures p.protoSeen ==> Interpret(p, k, "protocol=" + rest).NoRule?
    ensures p.number != -1 ==> Interpret(p, k, "rule=" + rest).NoRule?
  {
    var (a, b, c, d) := ("if=" + rest, "action=" + rest, "protocol=" + rest, "rule=" + rest);
    assert SkipSpace(a) == a && SkipSpace(b) == b && SkipSpace(c) == c && SkipSpace(d) == d;
    SkipPrefix("if=", rest);
    SkipPrefix("action=", rest);
    SkipPrefix("protocol=", rest);
    SkipPrefix("rule=", rest);
    Mismatch(b, "if=", 0);
    Mismatch(b, "rule=", 0);
    Mismatch(c, "if=", 0);
    Mismatch(c, "rule=", 0);
    Mismatch(c, "action=", 0);
    Mismatch(d, "if=", 0);
  }
}
