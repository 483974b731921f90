/** Sets of integers as masks and as text (scripts/sfcmask.py). */
module Sfcmask {
  import opened Arith
  import opened Numerals
  import opened Options

  // ----- Bits -----

  /** m | 1 << i. */
  function SetBit(m: nat, i: nat): nat {
    if i == 0 then m - m % 2 + 1 else m % 2 + 2 * SetBit(m / 2, i - 1)
  }

  /** m & ~(1 << i). */
  function ClearBit(m: nat, i: nat): nat {
    if i == 0 then m - m % 2 else m % 2 + 2 * ClearBit(m / 2, i - 1)
  }

  /** m << i. */
  function ShiftUp(m: nat, i: nat): nat {
    if i == 0 then m else 2 * ShiftUp(m, i - 1)
  }

  /** m >> i. */
  function ShiftDown(m: nat, i: nat): nat {
    if i == 0 then m else ShiftDown(m / 2, i - 1)
  }

  lemma {:induction false} SetBitSets(m: nat, i: nat, j: nat)
    ensures BitAt(SetBit(m, i), j) <==> i == j || BitAt(m, j)
  {
    if i > 0 && j > 0 {
      SetBitSets(m / 2, i - 1, j - 1);
    }
  }

  lemma {:induction false} ClearBitClears(m: nat, i: nat, j: nat)
    ensures BitAt(ClearBit(m, i), j) <==> i != j && BitAt(m, j)
  {
    if i > 0 && j > 0 {
      ClearBitClears(m / 2, i - 1, j - 1);
    }
  }

  lemma {:induction false} ShiftUpMoves(m: nat, i: nat, j: nat)
    ensures BitAt(ShiftUp(m, i), j) <==> j >= i && BitAt(m, j - i)
  {
    if i > 0 && j > 0 {
      ShiftUpMoves(m, i - 1, j - 1);
    }
  }

  /** Testing and clearing bit h of a mask whose lower bits are gone. */
  lemma {:induction false} LowestBit(rest: nat, h: nat)
    ensures BitAt(ShiftUp(rest, h), h) <==> rest % 2 == 1
    ensures ClearBit(ShiftUp(rest, h), h) == ShiftUp(rest / 2, h + 1)
    ensures ShiftUp(rest, h) == 0 <==> rest == 0
  {
    if h > 0 {
      LowestBit(rest, h - 1);
    }
  }

  // ----- Runs of bits -----

  /** The bits from low up to and including high. */
  datatype Piece = Piece(low: nat, high: nat)

  /** The runs of bits of a mask, when those below high are done and a run has begun at low, if low is not negative. */
  function Runs(rest: nat, high: nat, low: int): seq<Piece>
    requires low < high
    decreases rest
  {
    if rest % 2 == 1 then Runs(rest / 2, high + 1, if low < 0 then high else low)
    else
      var run := if low >= 0 then [Piece(low, high - 1)] else [];
      if rest == 0 then run else run + Runs(rest / 2, high + 1, -1)
  }

  ghost predicate Covers(runs: seq<Piece>, i: nat) {
    exists k :: 0 <= k < |runs| && runs[k].low <= i <= runs[k].high
  }

  /** The runs hold exactly the bits of the mask. */
  lemma {:induction false} RunsCover(rest: nat, high: nat, low: int, i: nat)
    requires low < high
    ensures Covers(Runs(rest, high, low), i) <==> (0 <= low <= i < high) || (i >= high && BitAt(rest, i - high))
    decreases rest
  {
    hide Covers;
    if rest % 2 == 1 {
      RunsCover(rest / 2, high + 1, if low < 0 then high else low, i);
    } else {
      var run := if low >= 0 then [Piece(low, high - 1)] else [];
      RunCovers(low, high, i);
      if rest == 0 {
        if i >= high { NoBits(i - high); }
      } else {
        RunsCover(rest / 2, high + 1, -1, i);
        CoversSum(run, Runs(rest / 2, high + 1, -1), i);
      }
    }
  }

  lemma RunCovers(low: int, high: nat, i: nat)
    requires low < high
    ensures Covers(if low >= 0 then [Piece(low, high - 1)] else [], i) <==> 0 <= low <= i < high
  {
    if 0 <= low <= i < high {
      assert [Piece(low, high - 1)][0].low <= i <= [Piece(low, high - 1)][0].high;
    }
  }

  lemma CoversSum(a: seq<Piece>, b: seq<Piece>, i: nat)
    ensures Covers(a + b, i) <==> Covers(a, i) || Covers(b, i)
  {
    if Covers(a, i) {
      var k :| 0 <= k < |a| && a[k].low <= i <= a[k].high;
      assert (a + b)[k] == a[k];
    }
    if Covers(b, i) {
      var k :| 0 <= k < |b| && b[k].low <= i <= b[k].high;
      assert (a + b)[|a| + k] == b[k];
    }
  }

  /** Runs are not empty, and between one and the next there is a gap. */
  ghost predicate Separated(runs: seq<Piece>, from: nat) {
    && (forall k | 0 <= k < |runs| :: from <= runs[k].low <= runs[k].high)
    && (forall k, l | 0 <= k < l < |runs| :: runs[k].high + 1 < runs[l].low)
  }

  lemma SeparatedAfter(p: Piece, runs: seq<Piece>, from: nat)
    requires Separated(runs, from) && p.low <= p.high && p.high + 1 < from
    ensures Separated([p] + runs, p.low)
  {
    var all := [p] + runs;
    forall k | 0 <= k < |all| ensures p.low <= all[k].low <= all[k].high {
      assert k > 0 ==> all[k] == runs[k - 1];
    }
    forall k, l | 0 <= k < l < |all| ensures all[k].high + 1 < all[l].low {
      assert all[l] == runs[l - 1] && (k > 0 ==> all[k] == runs[k - 1]);
    }
  }

  lemma SeparatedFrom(runs: seq<Piece>, from: nat, to: nat)
    requires Separated(runs, from) && to <= from
    ensures Separated(runs, to)
  {
  }

  lemma SeparatedAtMostOne(runs: seq<Piece>, from: nat)
    requires |runs| <= 1 && forall r | r in runs :: from <= r.low <= r.high
    ensures Separated(runs, from)
  {
    assert forall k | 0 <= k < |runs| :: runs[k] in runs;
  }

  lemma {:induction false} RunsSeparated(rest: nat, high: nat, low: int)
    requires low < high
    ensures Separated(Runs(rest, high, low), if low < 0 then high else low)
    decreases rest
  {
    hide Separated;
    if rest % 2 == 1 {
      RunsSeparated(rest / 2, high + 1, if low < 0 then high else low);
    } else if rest > 0 {
      RunsSeparated(rest / 2, high + 1, -1);
      if low >= 0 {
        SeparatedAfter(Piece(low, high - 1), Runs(rest / 2, high + 1, -1), high + 1);
      } else {
        SeparatedFrom(Runs(rest / 2, high + 1, -1), high + 1, high);
        assert [] + Runs(rest / 2, high + 1, -1) == Runs(rest / 2, high + 1, -1);
      }
    } else {
      SeparatedAtMostOne(Runs(rest, high, low), if low < 0 then high else low);
    }
  }

  /** Each run is as long as it can be: it consists of bits of the mask, and the bits next to it are not. */
  lemma RunsMaximal(m: nat, k: nat, i: nat)
    requires k < |Runs(m, 0, -1)|
    ensures var r := Runs(m, 0, -1)[k];
            && (r.low <= i <= r.high ==> BitAt(m, i))
            && (i == r.high + 1 || i + 1 == r.low ==> !BitAt(m, i))
  {
    var runs := Runs(m, 0, -1);
    RunsSeparated(m, 0, -1);
    RunsCover(m, 0, -1, i);
    if Covers(runs, i) {
      var l :| 0 <= l < |runs| && runs[l].low <= i <= runs[l].high;
    }
    if runs[k].low <= i <= runs[k].high {
      assert Covers(runs, i);
    }
  }

  /** The mask with the bits from i up to and including high set too. */
  function SetRange(m: nat, i: nat, high: nat): nat
    decreases high + 1 - i
  {
    if i > high then m else SetRange(SetBit(m, i), i + 1, high)
  }

  lemma {:induction false} SetRangeSets(m: nat, i: nat, high: nat, j: nat)
    ensures BitAt(SetRange(m, i, high), j) <==> i <= j <= high || BitAt(m, j)
    decreases high + 1 - i
  {
    if i <= high {
      SetRangeSets(SetBit(m, i), i + 1, high, j);
      SetBitSets(m, i, j);
    }
  }

  /** The mask of the first n runs. */
  function MaskOf(runs: seq<Piece>): nat {
    if runs == [] then 0
    else var p := runs[|runs| - 1]; SetRange(MaskOf(runs[..|runs| - 1]), p.low, p.high)
  }

  lemma {:induction false} MaskOfCovers(runs: seq<Piece>, j: nat)
    ensures BitAt(MaskOf(runs), j) <==> Covers(runs, j)
  {
    if runs == [] {
      NoBits(j);
    } else {
      var init, p := runs[..|runs| - 1], runs[|runs| - 1];
      MaskOfCovers(init, j);
      SetRangeSets(MaskOf(init), p.low, p.high, j);
      CoversSum(init, [p], j);
      assert init + [p] == runs;
      assert Covers([p], j) <==> p.low <= j <= p.high by {
        if p.low <= j <= p.high { assert [p][0].low <= j <= [p][0].high; }
      }
    }
  }

  /** The runs of a mask make it up. */
  lemma RunsRoundTrip(m: nat)
    ensures MaskOf(Runs(m, 0, -1)) == m
  {
    forall i: nat ensures BitAt(MaskOf(Runs(m, 0, -1)), i) <==> BitAt(m, i) {
      MaskOfCovers(Runs(m, 0, -1), i);
      RunsCover(m, 0, -1, i);
    }
    SameBits(MaskOf(Runs(m, 0, -1)), m);
  }

  // ----- Text -----

  /** s.split(c). */
  function Split(s: string, c: char): (pieces: seq<string>)
    ensures |pieces| > 0
  {
    if s == "" then [""]
    else
      var rest := Split(s[1..], c);
      if s[0] == c then [""] + rest else [[s[0]] + rest[0]] + rest[1..]
  }

  /** The pieces with a separator between them. */
  function Join(pieces: seq<string>, c: char): string
    requires |pieces| > 0
  {
    if |pieces| == 1 then pieces[0] else pieces[0] + [c] + Join(pieces[1..], c)
  }

  lemma {:induction false} SplitPiece(piece: string, c: char, rest: string)
    requires c !in piece
    ensures Split(piece + [c] + rest, c) == [piece] + Split(rest, c)
  {
    var s := piece + [c] + rest;
    if piece == "" {
      assert s[1..] == rest;
    } else {
      SplitPiece(piece[1..], c, rest);
      assert s[1..] == piece[1..] + [c] + rest;
      assert [piece[0]] + piece[1..] == piece;
    }
  }

  lemma {:induction false} SplitWhole(piece: string, c: char)
    requires c !in piece
    ensures Split(piece, c) == [piece]
  {
    if piece != "" {
      SplitWhole(piece[1..], c);
      assert [piece[0]] + piece[1..] == piece;
    }
  }

  /** Splitting undoes joining. */
  lemma {:induction false} SplitJoin(pieces: seq<string>, c: char)
    requires |pieces| > 0 && forall p | p in pieces :: c !in p
    ensures Split(Join(pieces, c), c) == pieces
  {
    if |pieces| == 1 {
      SplitWhole(pieces[0], c);
    } else {
      SplitPiece(pieces[0], c, Join(pieces[1..], c));
      SplitJoin(pieces[1..], c);
    }
  }

  /** The value of decimal digits read after others. */
  function DecValue(acc: nat, s: string): nat
    requires forall c | c in s :: IsDigit(c)
    decreases |s|
  {
    if s == "" then acc else DecValue(acc * 10 + DigitValue(s[0]), s[1..])
  }

  /** int(s) for digits; anything else is an error here. */
  function ParseDec(s: string): Option<nat> {
    if s != "" && forall c | c in s :: IsDigit(c) then Some(DecValue(0, s)) else None
  }

  lemma {:induction false} DecValueLast(acc: nat, s: string, d: char)
    requires IsDigit(d) && forall c | c in s :: IsDigit(c)
    ensures forall c | c in s + [d] :: IsDigit(c)
    ensures DecValue(acc, s + [d]) == DecValue(acc, s) * 10 + DigitValue(d)
    decreases |s|
  {
    if s == "" {
      assert s + [d] == [d];
    } else {
      DecValueLast(acc * 10 + DigitValue(s[0]), s[1..], d);
      assert (s + [d])[1..] == s[1..] + [d];
    }
  }

  lemma {:induction false} DecRead(n: nat)
    ensures Dec(n) != "" && (forall c | c in Dec(n) :: IsDigit(c)) && DecValue(0, Dec(n)) == n
  {
    if n >= 10 {
      DecRead(n / 10);
      DecValueLast(0, Dec(n / 10), Digit(n % 10));
    }
  }

  /** How a run is written. */
  function PieceText(p: Piece): string {
    if p.low < p.high then Dec(p.low) + "-" + Dec(p.high) else Dec(p.low)
  }

  /** How a piece of a list is read. */
  function ParsePiece(s: string): Option<Piece> {
    if '-' in s then
      var ends := Split(s, '-');
      if |ends| == 2 && ParseDec(ends[0]).Some? && ParseDec(ends[1]).Some? then
        Some(Piece(ParseDec(ends[0]).value, ParseDec(ends[1]).value))
      else None
    else if ParseDec(s).Some? then Some(Piece(ParseDec(s).value, ParseDec(s).value))
    else None
  }

  lemma PieceRead(p: Piece)
    requires p.low <= p.high
    ensures ParsePiece(PieceText(p)) == Some(p) && ',' !in PieceText(p)
    ensures PieceText(p) != "" && IsDigit(PieceText(p)[0])
  {
    DecRead(p.low);
    DecRead(p.high);
    if p.low < p.high {
      SplitPiece(Dec(p.low), '-', Dec(p.high));
      SplitWhole(Dec(p.high), '-');
      assert '-' in PieceText(p) by {
        assert PieceText(p)[|Dec(p.low)|] == '-';
      }
    }
  }

  lemma {:induction false} JoinLast(pieces: seq<string>, c: char, last: string)
    requires |pieces| > 0
    ensures Join(pieces + [last], c) == Join(pieces, c) + [c] + last
  {
    var all := pieces + [last];
    if |pieces| == 1 {
      assert all[1..] == [last];
    } else {
      JoinLast(pieces[1..], c, last);
      assert all[1..] == pieces[1..] + [last];
      assert pieces[0] + [c] + (Join(pieces[1..], c) + [c] + last) ==
             pieces[0] + [c] + Join(pieces[1..], c) + [c] + last;
    }
  }

  // ----- The list form -----

  function Texts(runs: seq<Piece>): (t: seq<string>)
    ensures |t| == |runs| && forall i | 0 <= i < |t| :: t[i] == PieceText(runs[i])
  {
    seq(|runs|, i requires 0 <= i < |runs| => PieceText(runs[i]))
  }

  /** The list form of a mask. */
  function ListForm(m: nat): string {
    var runs := Runs(m, 0, -1);
    if runs == [] then "" else Join(Texts(runs), ',')
  }

  function ParsePieces(pieces: seq<string>): (r: Option<seq<Piece>>)
    ensures r.Some? ==> |r.value| == |pieces|
  {
    if pieces == [] then Some([])
    else
      var init, last := ParsePieces(pieces[..|pieces| - 1]), ParsePiece(pieces[|pieces| - 1]);
      if init.Some? && last.Some? then Some(init.value + [last.value]) else None
  }

  /** comma_sep_list_to_int; none when a piece is no number or range. */
  function ListToInt(s: string): Option<nat> {
    var pieces := ParsePieces(Split(s, ','));
    if pieces.Some? then Some(MaskOf(pieces.value)) else None
  }

  lemma {:induction false} TextsRead(runs: seq<Piece>)
    requires forall r | r in runs :: r.low <= r.high
    ensures ParsePieces(Texts(runs)) == Some(runs)
  {
    if runs != [] {
      var init, last := runs[..|runs| - 1], runs[|runs| - 1];
      TextsRead(init);
      PieceRead(last);
      assert Texts(runs)[..|runs| - 1] == Texts(init) && init + [last] == runs;
    }
  }

  lemma NonZeroRuns(m: nat)
    requires m > 0
    ensures Runs(m, 0, -1) != []
  {
    RunsRoundTrip(m);
  }

  lemma ListPieces(m: nat)
    requires m > 0
    ensures Split(ListForm(m), ',') == Texts(Runs(m, 0, -1))
    ensures forall r | r in Runs(m, 0, -1) :: r.low <= r.high
  {
    var runs := Runs(m, 0, -1);
    NonZeroRuns(m);
    RunsSeparated(m, 0, -1);
    forall i | 0 <= i < |runs| ensures ',' !in Texts(runs)[i] {
      PieceRead(runs[i]);
    }
    SplitJoin(Texts(runs), ',');
  }

  // ----- The hexadecimal form -----

  function HexVal(acc: nat, s: string): nat
    requires forall c | c in s :: IsHex(c)
    decreases |s|
  {
    if s == "" then acc else HexVal(acc * 16 + HexValue(s[0]), s[1..])
  }

  /** int(s, 16) for digits, with or without prefix; anything else is an error here. */
  function ParseHex(s: string): Option<nat> {
    var digits := if |s| >= 2 && s[0] == '0' && s[1] in {'x', 'X'} then s[2..] else s;
    if digits != "" && forall c | c in digits :: IsHex(c) then Some(HexVal(0, digits)) else None
  }

  /** %0nx of a number of at most n hexadecimal digits. */
  function HexFixed(v: nat, n: nat): (s: string)
    ensures |s| == n && forall c | c in s :: IsHex(c)
  {
    if n == 0 then "" else HexFixed(v / 16, n - 1) + [HexDigit(v % 16)]
  }

  /** What is left of a number without its last n hexadecimal digits. */
  function Beyond(v: nat, n: nat): nat {
    if n == 0 then v else Beyond(v / 16, n - 1)
  }

  lemma {:induction false} HexValLast(acc: nat, s: string, d: char)
    requires IsHex(d) && forall c | c in s :: IsHex(c)
    ensures (forall c | c in s + [d] :: IsHex(c)) && HexVal(acc, s + [d]) == HexVal(acc, s) * 16 + HexValue(d)
    decreases |s|
  {
    if s == "" {
      assert s + [d] == [d];
    } else {
      HexValLast(acc * 16 + HexValue(s[0]), s[1..], d);
      assert (s + [d])[1..] == s[1..] + [d];
    }
  }

  lemma {:induction false} HexRead(v: nat, n: nat)
    requires Beyond(v, n) == 0
    ensures HexVal(0, HexFixed(v, n)) == v
  {
    if n > 0 {
      HexRead(v / 16, n - 1);
      HexValLast(0, HexFixed(v / 16, n - 1), HexDigit(v % 16));
    }
  }

  function Pow16(n: nat): nat {
    if n == 0 then 1 else 16 * Pow16(n - 1)
  }

  lemma {:induction false} BeyondSmall(v: nat, n: nat)
    requires v < Pow16(n)
    ensures Beyond(v, n) == 0
  {
    if n > 0 {
      BeyondSmall(v / 16, n - 1);
    }
  }

  const WORD32 := 0x1_0000_0000
  const WORD_BITS := 32

  /** Bit by bit from the lowest. */
  lemma OrHalves(a: nat, b: nat)
    ensures Or(a, b) == 2 * Or(a / 2, b / 2) + if a % 2 == 1 || b % 2 == 1 then 1 else 0
  {
    assert Or(a / 2, 0) == a / 2 && Or(0, b / 2) == b / 2;
  }

  lemma {:induction false} OrAdds(h: nat, v: nat, n: nat)
    requires v < Pow2(n)
    ensures Or(ShiftUp(h, n), v) == Pow2(n) * h + v
  {
    if n == 0 {
      assert Or(h, 0) == h;
    } else {
      hide Or;
      OrAdds(h, v / 2, n - 1);
      OrHalves(ShiftUp(h, n), v);
      assert 2 * (Pow2(n - 1) * h) == Pow2(n) * h;
    }
  }

  /** Setting the bits of a word in a mask shifted by 32 is adding it. */
  lemma ShiftedOr(h: nat, v: nat)
    requires v < WORD32
    ensures Or(ShiftUp(h, WORD_BITS), v) == h * WORD32 + v
  {
    hide Pow2, Or, ShiftUp;
    WordIsPower();
    OrAdds(h, v, WORD_BITS);
  }

  function Hex8(v: nat): string {
    HexFixed(v, 8)
  }

  lemma Hex8Read(v: nat)
    requires v < WORD32
    ensures |Hex8(v)| == 8 && ParseHex(Hex8(v)) == Some(v) && ',' !in Hex8(v)
  {
    BeyondSmall(v, 8);
    HexRead(v, 8);
  }

  /** The 32-bit words of a mask, the highest first. */
  function WordsOf(m: nat): (ws: seq<nat>)
    ensures |ws| > 0
  {
    if m < WORD32 then [m] else WordsOf(m / WORD32) + [m % WORD32]
  }

  function HexTexts(ws: seq<nat>): (t: seq<string>)
    ensures |t| == |ws| && forall i | 0 <= i < |t| :: t[i] == Hex8(ws[i])
  {
    seq(|ws|, i requires 0 <= i < |ws| => Hex8(ws[i]))
  }

  /** The comma-separated hexadecimal form of a mask. */
  function HexForm(m: nat): string {
    Join(HexTexts(WordsOf(m)), ',')
  }

  /** comma_sep_hex_to_int on the pieces; none when a piece is no number. */
  function HexPieces(pieces: seq<string>): Option<nat> {
    if pieces == [] then Some(0)
    else
      var high, low := HexPieces(pieces[..|pieces| - 1]), ParseHex(pieces[|pieces| - 1]);
      if high.Some? && low.Some? then Some(Or(ShiftUp(high.value, WORD_BITS), low.value)) else None
  }

  lemma {:induction false} HexWordsRead(m: nat)
    ensures HexPieces(HexTexts(WordsOf(m))) == Some(m)
    ensures forall p | p in HexTexts(WordsOf(m)) :: |p| == 8 && ParseHex(p).Some? && ',' !in p
  {
    hide Hex8, ParseHex, Or, ShiftUp;
    var t := HexTexts(WordsOf(m));
    if m < WORD32 {
      Hex8Read(m);
      ShiftedOr(0, m);
      assert t[..0] == [];
    } else {
      var init := HexTexts(WordsOf(m / WORD32));
      HexWordsRead(m / WORD32);
      Hex8Read(m % WORD32);
      ShiftedOr(m / WORD32, m % WORD32);
      assert t == init + [Hex8(m % WORD32)];
      assert t[..|t| - 1] == init;
    }
  }

  // ----- Telling the forms apart -----

  datatype Result = Value(mask: nat) | BadMask | BadNumber

  predicate IsCommaSepHex(s: string) {
    if ',' !in s && |s| < 8 then |s| >= 2 && s[..2] == "0x" && ParseHex(s).Some?
    else forall p | p in Split(s, ',') :: |p| == 8 && ParseHex(p).Some?
  }

  predicate IsCommaSepList(s: string) {
    forall p | p in Split(s, ',') :: p != "" && IsDigit(p[0]) && |p| <= 7
  }

  function OrBadNumber(o: Option<nat>): Result {
    if o.Some? then Value(o.value) else BadNumber
  }

  /** to_int of a string. */
  function ToInt(s: string): Result {
    if IsCommaSepHex(s) then OrBadNumber(HexPieces(Split(s, ',')))
    else if IsCommaSepList(s) then OrBadNumber(ListToInt(s))
    else BadMask
  }

  /** Every mask comes back from its hexadecimal form. */
  lemma HexRoundTrip(m: nat)
    ensures ToInt(HexForm(m)) == Value(m)
  {
    var t := HexTexts(WordsOf(m));
    HexWordsRead(m);
    SplitJoin(t, ',');
    var s := HexForm(m);
    if ',' !in s {
      SplitWhole(s, ',');
      assert s == t[0] && t[0] in t;
    }
  }

  /** Every mask but zero comes back from its list form, as long as no piece of it is too long. */
  lemma ListRoundTrip(m: nat)
    requires m > 0 && forall r | r in Runs(m, 0, -1) :: |PieceText(r)| <= 7
    ensures ToInt(ListForm(m)) == Value(m)
  {
    hide Runs, PieceText, MaskOf, ParsePieces, ListForm;
    var runs, s := Runs(m, 0, -1), ListForm(m);
    ListPieces(m);
    NonZeroRuns(m);
    TextsRead(runs);
    RunsRoundTrip(m);
    forall i | 0 <= i < |runs| ensures var t := Texts(runs)[i]; t != "" && IsDigit(t[0]) && |t| <= 7 {
      PieceRead(runs[i]);
      assert runs[i] in runs;
    }
    assert Texts(runs)[0] in Split(s, ',');
    if ',' !in s && |s| < 8 {
      NoPrefix(runs, s);
    }
  }

  /** A mask all of whose bits are far up is a multiple of 2^32. */
  lemma LowBitsClear(m: nat)
    requires forall j | 0 <= j < |Runs(m, 0, -1)| :: Runs(m, 0, -1)[j].low >= 10_000_000
    ensures m % WORD32 == 0
  {
    forall i: nat | i < 32 ensures !BitAt(m, i) {
      RunsCover(m, 0, -1, i);
    }
    Divisible(m, 32);
    Multiple(WORD32, ShiftDown(m, 32));
    WordIsPower();
  }

  lemma WordIsPower()
    ensures Pow2(32) == WORD32
  {
    assert Pow2(8) == 0x100;
    assert Pow2(16) == 0x1_0000;
    assert Pow2(24) == 0x100_0000;
  }

  lemma {:induction false} Divisible(m: nat, n: nat)
    requires forall i: nat | i < n :: !BitAt(m, i)
    ensures m == Pow2(n) * ShiftDown(m, n)
  {
    if n > 0 {
      assert !BitAt(m, 0);
      forall i: nat | i < n - 1 ensures !BitAt(m / 2, i) {
        assert !BitAt(m, i + 1);
      }
      Divisible(m / 2, n - 1);
    }
  }

  lemma {:induction false} DecLength(n: nat, k: nat)
    requires k > 0 && n < Pow10(k)
    ensures |Dec(n)| <= k
  {
    if n >= 10 {
      DecLength(n / 10, k - 1);
    }
  }

  function Pow10(k: nat): nat {
    if k == 0 then 1 else 10 * Pow10(k - 1)
  }

  lemma {:induction false} DecLead(n: nat)
    requires n > 0
    ensures Dec(n) != "" && Dec(n)[0] != '0'
  {
    if n >= 10 {
      DecLead(n / 10);
    }
  }

  lemma Scale(a: nat, b: nat, p: nat)
    requires a <= b * 16
    ensures a * p <= b * (16 * p)
  {
    assert b * (16 * p) - a * p == (b * 16 - a) * p;
  }

  lemma {:induction false} HexValBounds(acc: nat, s: string)
    requires forall c | c in s :: IsHex(c)
    ensures acc <= HexVal(acc, s) < (acc + 1) * Pow16(|s|)
    decreases |s|
  {
    if s != "" {
      var next := acc * 16 + HexValue(s[0]);
      HexValBounds(next, s[1..]);
      Scale(next + 1, acc + 1, Pow16(|s| - 1));
    }
  }

  /** A piece of eight characters that can be taken for hexadecimal is a number of eight digits. */
  lemma EightDigits(p: Piece)
    requires p.low <= p.high && |PieceText(p)| == 8 && ParseHex(PieceText(p)).Some?
    ensures p.low >= 10_000_000 && 0 < ParseHex(PieceText(p)).value < WORD32
  {
    hide Dec;
    if p.low < p.high {
      RangeIsNotHex(p);
    } else {
      NumberOfEight(p.low);
    }
  }

  lemma RangeIsNotHex(p: Piece)
    requires p.low < p.high
    ensures ParseHex(PieceText(p)).None?
  {
    hide Dec;
    var s := PieceText(p);
    DecRead(p.low);
    DecRead(p.high);
    assert s[|Dec(p.low)|] == '-' && s[0] == Dec(p.low)[0];
    assert s[1] == '-' || IsDigit(s[1]);
    assert '-' in s && !IsHex('-');
  }

  lemma NumberOfEight(n: nat)
    requires |Dec(n)| == 8 && ParseHex(Dec(n)).Some?
    ensures n >= 10_000_000 && 0 < ParseHex(Dec(n)).value < WORD32
  {
    hide Dec;
    DecRead(n);
    if n < 10_000_000 {
      assert Pow10(7) == 10_000_000;
      DecLength(n, 7);
    }
    DecLead(n);
    var s := Dec(n);
    assert s[1] in s && ParseHex(s) == Some(HexVal(0, s));
    HexValBounds(HexValue(s[0]), s[1..]);
    HexValBounds(0, s);
    assert Pow16(8) == WORD32;
  }

  /** Otherwise the list form is refused, or taken for hexadecimal and read as another mask. */
  lemma LongListFails(m: nat, k: nat)
    requires m > 0 && k < |Runs(m, 0, -1)| && |PieceText(Runs(m, 0, -1)[k])| > 7
    ensures ToInt(ListForm(m)) != Value(m)
  {
    hide Runs, PieceText, ListForm, ListToInt, ParseHex;
    var runs, s := Runs(m, 0, -1), ListForm(m);
    ListPieces(m);
    var pieces := Split(s, ',');
    assert pieces[k] == PieceText(runs[k]) && pieces[k] in pieces;
    if IsCommaSepHex(s) {
      if ',' !in s && |s| < 8 {
        SplitWhole(s, ',');
      }
      HexIsAnother(m, pieces);
    }
  }

  /** The last piece is the lowest word. */
  lemma LastPieceLowest(pieces: seq<string>)
    requires |pieces| > 0 && HexPieces(pieces).Some?
    ensures var low := ParseHex(pieces[|pieces| - 1]);
            low.Some? && (low.value < WORD32 ==> HexPieces(pieces).value % WORD32 == low.value)
  {
    hide Or, ShiftUp, ParseHex;
    var high, low := HexPieces(pieces[..|pieces| - 1]).value, ParseHex(pieces[|pieces| - 1]).value;
    if low < WORD32 {
      ShiftedOr(high, low);
      ModUnique(WORD32 * high + low, WORD32, high, low);
    }
  }

  lemma HexIsAnother(m: nat, pieces: seq<string>)
    requires pieces == Texts(Runs(m, 0, -1)) && |pieces| > 0
    requires forall r | r in Runs(m, 0, -1) :: r.low <= r.high
    requires forall p | p in pieces :: |p| == 8 && ParseHex(p).Some?
    ensures HexPieces(pieces) != Some(m)
  {
    hide Runs, PieceText, ParseHex, HexPieces;
    var runs := Runs(m, 0, -1);
    forall j | 0 <= j < |runs| ensures runs[j].low >= 10_000_000 && 0 < ParseHex(pieces[j]).value < WORD32 {
      assert pieces[j] == PieceText(runs[j]) && pieces[j] in pieces && runs[j] in runs;
      EightDigits(runs[j]);
    }
    LowBitsClear(m);
    if HexPieces(pieces).Some? {
      LastPieceLowest(pieces);
    }
  }

  /** A mask other than zero comes back from its list form exactly if no piece of it is longer than seven characters. */
  lemma ListRoundTripExactly(m: nat)
    requires m > 0
    ensures ToInt(ListForm(m)) == Value(m) <==> forall r | r in Runs(m, 0, -1) :: |PieceText(r)| <= 7
  {
    hide Runs, PieceText, ListForm, ToInt;
    var runs := Runs(m, 0, -1);
    if forall r | r in runs :: |PieceText(r)| <= 7 {
      ListRoundTrip(m);
    } else {
      var r :| r in runs && |PieceText(r)| > 7;
      var k :| 0 <= k < |runs| && runs[k] == r;
      LongListFails(m, k);
    }
  }

  lemma NoPrefix(runs: seq<Piece>, s: string)
    requires |runs| > 0 && Split(s, ',') == Texts(runs) && ',' !in s && runs[0].low <= runs[0].high
    ensures !(|s| >= 2 && s[..2] == "0x")
  {
    SplitWhole(s, ',');
    assert s == PieceText(runs[0]);
    DecRead(runs[0].low);
    if |s| >= 2 {
      assert s[1] == (if |Dec(runs[0].low)| > 1 then Dec(runs[0].low)[1] else '-');
      assert s[..2][1] == s[1];
    }
  }

  const LIST_BITS := 1000

  lemma {:induction false} BitsBelow(m: nat, n: nat, i: nat)
    requires ShiftDown(m, n) == 0 && BitAt(m, i)
    ensures i < n
  {
    if n == 0 {
      NoBits(i);
    } else if i > 0 {
      BitsBelow(m / 2, n - 1, i - 1);
    }
  }

  /** That is so for masks below 2^1000. */
  lemma ListRoundTripBelow(m: nat)
    requires m > 0 && ShiftDown(m, LIST_BITS) == 0
    ensures ToInt(ListForm(m)) == Value(m)
  {
    var runs := Runs(m, 0, -1);
    RunsSeparated(m, 0, -1);
    forall k | 0 <= k < |runs| ensures |PieceText(runs[k])| <= 7 {
      var r := runs[k];
      RunsMaximal(m, k, r.low);
      RunsMaximal(m, k, r.high);
      BitsBelow(m, LIST_BITS, r.low);
      BitsBelow(m, LIST_BITS, r.high);
      ShortDec(r.low);
      ShortDec(r.high);
    }
    ListRoundTrip(m);
  }

  lemma ShortDec(n: nat)
    requires n < 1000
    ensures |Dec(n)| <= 3
  {
    assert n / 10 < 100 && n / 10 / 10 < 10;
    assert |Dec(n / 10)| <= 2;
  }

  /** The list form of the empty set is not a mask. */
  lemma ZeroIsNoList()
    ensures ListForm(0) == "" && ToInt(ListForm(0)) == BadMask
  {
    assert Split("", ',') == [""];
    assert "" in Split("", ',');
  }
}
