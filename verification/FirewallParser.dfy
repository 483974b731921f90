/** The loops that read firewall rules, working along the text (src/driver/linux_resource/filter.c). */
module FirewallParser {
  import opened Firewall
  import opened FirewallText

  /** efrm_atoi. */
  method ReadInt(src: string) returns (value: int, rest: string)
    ensures Atoi(src) == Read(value, rest)
  {
    value, rest := 0, src;
    if |rest| == 0 {
      return -1, rest;
    }
    var multiplier := 1;
    if rest[0] == '-' {
      rest, multiplier := rest[1..], -1;
    }
    ghost var start := rest;
    while |rest| > 0
      invariant Digits(0, start) == Digits(value, rest)
      invariant -INT_LIMIT <= value < INT_LIMIT
      decreases |rest|
    {
      var c := rest[0];
      if '0' <= c <= '9' {
        value := ToInt(value * 10);
        value := ToInt(value + (c as int - '0' as int));
      } else {
        break;
      }
      rest := rest[1..];
    }
    value := ToInt(value * multiplier);
  }

  /** efrm_hextoi. */
  method ReadHexInt(src: string) returns (value: int, rest: string)
    ensures HexDigits(0, src) == Read(value, rest)
  {
    value, rest := 0, src;
    while |rest| > 0
      invariant HexDigits(0, src) == HexDigits(value, rest)
      decreases |rest|
    {
      var c := rest[0];
      if '0' <= c <= '9' {
        value := ToInt(ToInt(value * 16) + (c as int - '0' as int));
      } else if 'a' <= c <= 'f' {
        value := ToInt(ToInt(value * 16) + (10 + (c as int - 'a' as int)));
      } else if 'A' <= c <= 'F' {
        value := ToInt(ToInt(value * 16) + (10 + (c as int - 'A' as int)));
      } else {
        break;
      }
      rest := rest[1..];
    }
  }

  /** efrm_skip_whitespace. */
  method SkipWhitespace(src: string) returns (rest: string)
    ensures rest == SkipSpace(src)
  {
    rest := src;
    while |rest| > 0 && rest[0] != '\n' && IsSpace(rest[0])
      invariant SkipSpace(src) == SkipSpace(rest)
      decreases |rest|
    {
      rest := rest[1..];
    }
  }

  /** efrm_consume_next_word. */
  method ConsumeNextWord(src: string, room: nat) returns (word: string, rest: string)
    requires src != ""
    ensures Word(src, room) == Read(word, rest)
  {
    word, rest := "", src;
    var left := room;
    assert "" + Word(src, room).value == Word(src, room).value;
    while |rest| > 0 && left > 1 && !IsSpace(rest[0]) && rest[0] != '\0'
      invariant var w := Word(rest, left); Word(src, room) == Read(word + w.value, w.rest)
      decreases |rest|
    {
      ghost var w := Word(rest[1..], left - 1);
      assert word + ([rest[0]] + w.value) == word + [rest[0]] + w.value;
      word, rest, left := word + [rest[0]], rest[1..], left - 1;
    }
    assert word + "" == word;
  }

  /** The loop that sets the top n bits of one byte. */
  method FillByte(n: nat) returns (c: Octet)
    requires n < 8
    ensures c == TopByte(n)
  {
    var left := n;
    c := 0;
    while left > 0
      invariant 0 <= left <= n && c == TopByte(n - left)
    {
      c := c / 2;
      c := c + 0x80;
      left := left - 1;
    }
  }

  /** efrm_fill_top_bits. */
  method FillTopBits(n: int, out: array<Octet>) returns (ok: bool)
    modifies out
    ensures ok <==> 0 <= n <= out.Length * 8
    ensures out[..] == if ok then TopBits(n, old(out[..])) else old(out[..])
  {
    if n < 0 || n > out.Length * 8 {
      return false;
    }
    var w, left := 0, n;
    while left > 0
      invariant w <= out.Length && 0 <= left && (left > 0 ==> left == n - 8 * w) && (left == 0 ==> n <= 8 * w)
      invariant forall i | 0 <= i < w :: out[i] == TopBits(n, old(out[..]))[i]
      invariant forall i | w <= i < out.Length :: out[i] == old(out[i])
      decreases left
    {
      var c := 0;
      if left >= 8 {
        c, left := 0xff, left - 8;
      } else {
        c := FillByte(left);
        left := 0;
      }
      out[w] := c;
      w := w + 1;
    }
    ok := true;
    assert forall i | 0 <= i < out.Length :: out[i] == TopBits(n, old(out[..]))[i];
  }

  /** Bit k of a byte, counted from the lowest. */
  function Bit(b: Octet, k: nat): nat
    requires k < 8
  {
    b / [1, 2, 4, 8, 16, 32, 64, 128][k] % 2
  }

  /** Filling sets exactly the top n bits of the bytes it reaches. */
  lemma TopBitsSet(n: nat, bytes: seq<Octet>, j: nat)
    requires j < 8 * |bytes| && 8 * (j / 8) < n
    ensures Bit(TopBits(n, bytes)[j / 8], 7 - j % 8) == if j < n then 1 else 0
  {
    var i, k := j / 8, j % 8;
    var m := if n >= 8 * i + 8 then 8 else n - 8 * i;
    assert TopBits(n, bytes)[i] == TopByte(m);
    TopByteBits(m, k);
  }

  lemma TopByteBits(m: nat, k: nat)
    requires m <= 8 && k < 8
    ensures Bit(TopByte(m), 7 - k) == if k < m then 1 else 0
  {
    if k == 0 {
    } else if k == 1 {
    } else if k == 2 {
    } else if k == 3 {
    } else if k == 4 {
    } else if k == 5 {
    } else if k == 6 {
    }
  }

  /** efrm_interpret_rule. */
  method InterpretRule(src: string) returns (o: Outcome)
    ensures o == Interpret(Blank(), 0, src)
  {
    var p, matches, rest := Blank(), 0, src;
    while !p.done && rest != "" && rest[0] != '\0'
      invariant Interpret(Blank(), 0, src) == Interpret(p, matches, rest)
      decreases |rest|
    {
      hide ReadControl, ReadMatch;
      var s := SkipWhitespace(rest);
      var c := ReadControl(p, s);
      if c.matched {
        p, rest := c.state, c.rest;
      } else {
        var m := ReadMatch(c.state, c.rest);
        if m.matched {
          p, matches, rest := m.state, matches + 1, m.rest;
        } else if StartsWith(m.rest, "\n") {
          if m.state.ifSeen && m.state.protoSeen && m.state.actSeen && matches > 0 {
            return Accepted(m.state.rule, m.state.ifname, m.state.number, m.rest[1..]);
          } else {
            return NoRule;
          }
        } else {
          return NoRule;
        }
      }
    }
    o := NoRule;
  }

  /** efrm_add_rule. */
  method AddRules(tables: Tables, src: string) returns (after: Tables)
    ensures after == AddText(tables, src)
  {
    after := tables;
    var rest := src;
    while rest != "" && rest[0] != '\0'
      invariant AddText(tables, src) == AddText(after, rest)
      decreases |rest|
    {
      hide Interpret;
      var o := InterpretRule(rest);
      if o.NoRule? {
        break;
      }
      after, rest := after[o.ifname := Insert(TableOf(after, o.ifname), o.number, o.rule)], o.rest;
    }
  }
}
