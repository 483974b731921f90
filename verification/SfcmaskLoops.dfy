/** The loops that convert masks (scripts/sfcmask.py). */
module SfcmaskLoops {
  import opened Arith
  import opened Numerals
  import opened Options
  import opened Sfcmask

  /** Every run with a comma before it. */
  function Commas(runs: seq<Piece>): string {
    if runs == [] then "" else Commas(runs[..|runs| - 1]) + ("," + PieceText(runs[|runs| - 1]))
  }

  lemma {:induction false} CommasJoin(runs: seq<Piece>)
    requires runs != []
    ensures Commas(runs) == "," + Join(Texts(runs), ',')
  {
    hide PieceText;
    var init, last := runs[..|runs| - 1], PieceText(runs[|runs| - 1]);
    if init == [] {
      assert Texts(runs) == [last];
    } else {
      CommasJoin(init);
      assert Texts(runs) == Texts(init) + [last];
      JoinLast(Texts(init), ',', last);
      assert "," + Join(Texts(init), ',') + ("," + last) == "," + (Join(Texts(init), ',') + "," + last);
    }
  }

  lemma CommasAppend(runs: seq<Piece>, p: Piece)
    ensures Commas(runs + [p]) == Commas(runs) + ("," + PieceText(p))
  {
    assert (runs + [p])[..|runs|] == runs;
  }

  /** How the runs go on after a bit. */
  lemma RunsStep(done: seq<Piece>, rest: nat, high: nat, low: int)
    requires low < high
    ensures rest % 2 == 1 ==>
              done + Runs(rest, high, low) == done + Runs(rest / 2, high + 1, if low < 0 then high else low)
    ensures rest % 2 == 0 ==>
              done + Runs(rest, high, low) ==
              (if low < 0 then done else done + [Piece(low, high - 1)]) +
              (if rest == 0 then [] else Runs(rest / 2, high + 1, -1))
  {
  }

  /** The text of a run that ends before high. */
  method RunText(low: nat, high: nat) returns (t: string)
    requires low < high
    ensures t == PieceText(Piece(low, high - 1))
  {
    if high - low > 1 {
      t := Dec(low) + "-" + Dec(high - 1);
    } else {
      t := Dec(low);
    }
  }

  /** int_to_comma_sep_list. */
  method IntToCommaSepList(mask0: nat) returns (r: string)
    ensures r == ListForm(mask0)
  {
    hide Runs, PieceText, Join, Commas;
    var mask, low, high := mask0, -1, 0;
    r := "";
    ghost var rest, done := mask0, [];
    NoCommas();
    while true
      invariant low < high && mask == ShiftUp(rest, high)
      invariant r == Commas(done) && done + Runs(rest, high, low) == Runs(mask0, 0, -1)
      decreases rest
    {
      LowestBit(rest, high);
      RunsStep(done, rest, high, low);
      if BitAt(mask, high) {
        if low < 0 {
          low := high;
        }
      } else if low >= 0 {
        var t := RunText(low, high);
        r := r + ("," + t);
        CommasAppend(done, Piece(low, high - 1));
        done := done + [Piece(low, high - 1)];
        low := -1;
      }
      if mask == 0 {
        break;
      }
      mask := ClearBit(mask, high);
      high, rest := high + 1, rest / 2;
    }
    assert done == Runs(mask0, 0, -1);
    if done != [] {
      CommasJoin(done);
    }
    if r != "" {
      r := r[1..];
    }
  }

  lemma NoCommas()
    ensures Commas([]) == ""
  {
  }

  /** comma_sep_list_to_int. */
  method CommaSepListToInt(csl: string) returns (r: Option<nat>)
    ensures r == ListToInt(csl)
  {
    var mask, pieces := 0, Split(csl, ',');
    ghost var read := [];
    for k := 0 to |pieces|
      invariant ParsePieces(pieces[..k]) == Some(read) && mask == MaskOf(read)
    {
      assert pieces[..k + 1][..k] == pieces[..k];
      var piece := ParsePiece(pieces[k]);
      if piece.None? {
        NoneOf(pieces, k + 1);
        return None;
      }
      ghost var before := mask;
      for i := piece.value.low to Top(piece.value)
        invariant SetRange(before, piece.value.low, piece.value.high) == SetRange(mask, i, piece.value.high)
      {
        mask := SetBit(mask, i);
      }
      read := read + [piece.value];
      assert read[..|read| - 1] + [piece.value] == read;
    }
    assert pieces[..|pieces|] == pieces;
    r := Some(mask);
  }

  /** Where the range of a piece ends. */
  function Top(p: Piece): (t: nat)
    ensures t >= p.low
  {
    if p.low <= p.high then p.high + 1 else p.low
  }

  lemma {:induction false} NoneOf(pieces: seq<string>, k: nat)
    requires k <= |pieces| && ParsePieces(pieces[..k]).None?
    ensures ParsePieces(pieces).None?
    decreases |pieces| - k
  {
    if k < |pieces| {
      assert pieces[..k + 1][..k] == pieces[..k];
      NoneOf(pieces, k + 1);
    } else {
      assert pieces[..k] == pieces;
    }
  }

  /** int_to_comma_sep_hex. */
  method IntToCommaSepHex(mask0: nat) returns (r: string)
    ensures r == HexForm(mask0)
  {
    var mask: nat := mask0 / WORD32;
    r := Hex8(mask0 % WORD32);
    HexStep(mask0);
    while mask != 0
      invariant HexForm(mask0) == if mask == 0 then r else HexForm(mask) + ("," + r)
      decreases mask
    {
      HexStep(mask);
      assert HexForm(mask / WORD32) + ("," + Hex8(mask % WORD32)) + ("," + r) ==
             HexForm(mask / WORD32) + ("," + (Hex8(mask % WORD32) + ("," + r)));
      r := Hex8(mask % WORD32) + ("," + r);
      mask := mask / WORD32;
    }
  }

  lemma HexStep(m: nat)
    ensures HexForm(m) == if m / WORD32 == 0 then Hex8(m % WORD32)
                          else HexForm(m / WORD32) + ("," + Hex8(m % WORD32))
  {
    if m >= WORD32 {
      var init, last := HexTexts(WordsOf(m / WORD32)), Hex8(m % WORD32);
      assert HexTexts(WordsOf(m)) == init + [last];
      JoinLast(init, ',', last);
    } else {
      assert HexTexts(WordsOf(m)) == [Hex8(m)];
    }
  }

  /** comma_sep_hex_to_int. */
  method CommaSepHexToInt(cshm: string) returns (r: Option<nat>)
    ensures r == HexPieces(Split(cshm, ','))
  {
    var mask, pieces := 0, Split(cshm, ',');
    for k := 0 to |pieces|
      invariant HexPieces(pieces[..k]) == Some(mask)
    {
      assert pieces[..k + 1][..k] == pieces[..k];
      var v := ParseHex(pieces[k]);
      if v.None? {
        NoneOfHex(pieces, k + 1);
        return None;
      }
      mask := ShiftUp(mask, WORD_BITS);
      mask := Or(mask, v.value);
    }
    assert pieces[..|pieces|] == pieces;
    r := Some(mask);
  }

  lemma {:induction false} NoneOfHex(pieces: seq<string>, k: nat)
    requires k <= |pieces| && HexPieces(pieces[..k]).None?
    ensures HexPieces(pieces).None?
    decreases |pieces| - k
  {
    if k < |pieces| {
      assert pieces[..k + 1][..k] == pieces[..k];
      NoneOfHex(pieces, k + 1);
    } else {
      assert pieces[..k] == pieces;
    }
  }
}
