/**
 Reading a gcc 3.4 data file back: a stream of records, each a tag, a length in words and as many words.
 */
module Gcov34Reading {
  import opened Bytes
  import opened Words
  import opened Gcov34
  import opened Gcov34Counters

  datatype Record = Record(tag: Word, words: seq<Word>)

  // ----- Words and records -----

  function WordBytes(ws: seq<Word>): (b: seq<Byte>)
    ensures |b| == 4 * |ws|
  {
    if ws == [] then [] else WordBytes(ws[..|ws| - 1]) + Int32(ws[|ws| - 1])
  }

  function ReadWords(s: seq<Byte>, n: nat): seq<Word>
    requires 4 * n <= |s|
  {
    seq(n, i requires 0 <= i < n => Word32(s[4 * i..4 * i + 4]))
  }

  lemma {:induction false} WordPlace(ws: seq<Word>, i: nat)
    requires i < |ws|
    ensures WordBytes(ws)[4 * i..4 * i + 4] == Int32(ws[i])
    decreases |ws|
  {
    hide Int32;
    if i < |ws| - 1 {
      WordPlace(ws[..|ws| - 1], i);
    }
  }

  lemma SliceOfFront(s: seq<Byte>, t: seq<Byte>, i: nat, j: nat)
    requires i <= j <= |s|
    ensures (s + t)[i..j] == s[i..j]
  {
  }

  lemma WordReadBack(ws: seq<Word>, rest: seq<Byte>, i: nat)
    requires i < |ws|
    ensures Word32((WordBytes(ws) + rest)[4 * i..4 * i + 4]) == ws[i]
  {
    hide WordBytes, Int32, Word32;
    SliceOfFront(WordBytes(ws), rest, 4 * i, 4 * i + 4);
    WordPlace(ws, i);
    Int32RoundTrip(ws[i]);
  }

  lemma WordsReadBack(ws: seq<Word>, rest: seq<Byte>)
    ensures ReadWords(WordBytes(ws) + rest, |ws|) == ws
  {
    hide WordBytes, Int32, Word32;
    var s := WordBytes(ws) + rest;
    forall i | 0 <= i < |ws| ensures ReadWords(s, |ws|)[i] == ws[i] {
      WordReadBack(ws, rest, i);
    }
  }

  /** A record's bytes. */
  function Encoded(r: Record): seq<Byte> {
    Int32(r.tag) + Int32(|r.words| % WORD) + WordBytes(r.words)
  }

  function EncodedAll(rs: seq<Record>): seq<Byte> {
    if rs == [] then [] else EncodedAll(rs[..|rs| - 1]) + Encoded(rs[|rs| - 1])
  }

  /** The records a file's bytes hold after its header, as far as they go. */
  function ReadRecords(s: seq<Byte>): seq<Record>
    decreases |s|
  {
    if |s| < 8 then [] else
      var n := Word32(s[4..8]);
      if 8 + 4 * n > |s| then [] else
        [Record(Word32(s[..4]), ReadWords(s[8..], n))] + ReadRecords(s[8 + 4 * n..])
  }

  lemma ReadFirst(r: Record, rest: seq<Byte>)
    requires |r.words| < WORD
    ensures ReadRecords(Encoded(r) + rest) == [r] + ReadRecords(rest)
  {
    hide Int32, Word32, ReadWords, WordBytes;
    var s, n := Encoded(r) + rest, |r.words|;
    Int32RoundTrip(r.tag);
    Int32RoundTrip(n);
    WordsReadBack(r.words, rest);
    assert s[..4] == Int32(r.tag) && s[4..8] == Int32(n) && s[8..] == WordBytes(r.words) + rest;
    assert s[8 + 4 * n..] == rest;
  }

  lemma {:induction false} RecordsReadBack(rs: seq<Record>, rest: seq<Byte>)
    requires forall i | 0 <= i < |rs| :: |rs[i].words| < WORD
    ensures ReadRecords(EncodedAll(rs) + rest) == rs + ReadRecords(rest)
  {
    hide Encoded, ReadRecords;
    if rs == [] {
      assert EncodedAll(rs) + rest == rest;
    } else {
      var n := |rs| - 1;
      RecordsReadBack(rs[..n], Encoded(rs[n]) + rest);
      ReadFirst(rs[n], rest);
      assert EncodedAll(rs) + rest == EncodedAll(rs[..n]) + (Encoded(rs[n]) + rest);
      assert rs == rs[..n] + [rs[n]];
    }
  }

  lemma {:induction false} EncodedConcat(a: seq<Record>, b: seq<Record>)
    ensures EncodedAll(a + b) == EncodedAll(a) + EncodedAll(b)
  {
    hide Encoded;
    if b == [] {
      assert a + b == a;
    } else {
      var n := |b| - 1;
      EncodedConcat(a, b[..n]);
      assert (a + b)[..|a + b| - 1] == a + b[..n];
      assert (a + b)[|a + b| - 1] == b[n];
    }
  }

  // ----- What a file should hold -----

  /** The two words of each counter, of which the lower has lost its upper half. */
  function CounterWords(values: seq<DWord>): (ws: seq<Word>)
    ensures |ws| == 2 * |values|
  {
    if values == [] then [] else
      var v := values[|values| - 1];
      CounterWords(values[..|values| - 1]) + [v % 0x1_0000, v / 0x1_0000_0000]
  }

  /** A record for each of the active types below t. */
  function CounterRecords(u: Unit, f: nat, t: nat): seq<Record>
    requires WellFormed(u) && f < u.nFunctions && t <= GCOV_COUNTERS
  {
    if t == 0 then [] else
      CounterRecords(u, f, t - 1) +
      if Active(u, t - 1) then [Record(0x01a1_0000 + (t - 1) * 0x2_0000, CounterWords(SectionCounters(u, f, t - 1)))] else []
  }

  /** Of each function before f, its identifier and checksum, and then its counters by type. */
  function FunctionRecords(u: Unit, f: nat): seq<Record>
    requires WellFormed(u) && f <= u.nFunctions
  {
    if f == 0 then [] else
      FunctionRecords(u, f - 1) +
      ([Record(0x0100_0000, [RecordWord(u, f - 1, 0), RecordWord(u, f - 1, 1)])] + CounterRecords(u, f - 1, GCOV_COUNTERS))
  }

  // ----- It does -----

  lemma {:induction false} CounterBytes(values: seq<DWord>, parts: seq<seq<Byte>>)
    requires |parts| == |values| && forall c | 0 <= c < |values| :: parts[c] == Int64(values[c])
    ensures Flat(parts) == WordBytes(CounterWords(values))
  {
    if values != [] {
      var n := |values| - 1;
      CounterBytes(values[..n], parts[..n]);
      var ws := CounterWords(values[..n]);
      assert CounterWords(values) == (ws + [values[n] % 0x1_0000]) + [values[n] / WORD];
      assert (ws + [values[n] % 0x1_0000])[..|ws|] == ws;
      assert CounterWords(values)[..|ws| + 1] == ws + [values[n] % 0x1_0000];
    }
  }

  lemma SectionIsRecord(u: Unit, f: nat, t: nat)
    requires WellFormed(u) && f < u.nFunctions && t < GCOV_COUNTERS && Active(u, t)
    ensures CounterSection(u, f, t) ==
            Encoded(Record(0x01a1_0000 + t * 0x2_0000, CounterWords(SectionCounters(u, f, t))))
  {
    CounterBytes(SectionCounters(u, f, t), CounterData(u, f, t));
  }

  lemma {:induction false} SectionsAreRecords(u: Unit, f: nat, t: nat)
    requires WellFormed(u) && f < u.nFunctions && t <= GCOV_COUNTERS
    ensures Flat(CounterSections(u, f)[..t]) == EncodedAll(CounterRecords(u, f, t))
    decreases t
  {
    hide Encoded, CounterWords, SectionCounters;
    if t > 0 {
      var parts, rs := CounterSections(u, f), CounterRecords(u, f, t - 1);
      SectionsAreRecords(u, f, t - 1);
      assert parts[..t][..t - 1] == parts[..t - 1];
      if Active(u, t - 1) {
        SectionIsRecord(u, f, t - 1);
        hide CounterSection;
        var r := Record(0x01a1_0000 + (t - 1) * 0x2_0000, CounterWords(SectionCounters(u, f, t - 1)));
        assert (rs + [r])[..|rs|] == rs;
      } else {
        assert rs + [] == rs;
        assert Flat(parts[..t - 1]) + [] == Flat(parts[..t - 1]);
      }
    }
  }

  lemma FunctionIsRecords(u: Unit, f: nat)
    requires WellFormed(u) && f < u.nFunctions
    ensures FunctionSection(u, f) ==
            EncodedAll([Record(0x0100_0000, [RecordWord(u, f, 0), RecordWord(u, f, 1)])] + CounterRecords(u, f, GCOV_COUNTERS))
  {
    var head := Record(0x0100_0000, [RecordWord(u, f, 0), RecordWord(u, f, 1)]);
    SectionsAreRecords(u, f, GCOV_COUNTERS);
    assert CounterSections(u, f)[..GCOV_COUNTERS] == CounterSections(u, f);
    EncodedConcat([head], CounterRecords(u, f, GCOV_COUNTERS));
    assert WordBytes(head.words[..1]) == Int32(head.words[0]);
    assert WordBytes(head.words) == Int32(head.words[0]) + Int32(head.words[1]);
    assert EncodedAll([head]) == Encoded(head) == FunctionHeader(u, f);
  }

  lemma NoRecords()
    ensures EncodedAll([]) == []
  {
  }

  lemma {:induction false} FunctionsAreRecords(u: Unit, f: nat)
    requires WellFormed(u) && f <= u.nFunctions
    ensures Flat(FunctionSections(u)[..f]) == EncodedAll(FunctionRecords(u, f))
    decreases f
  {
    hide CounterRecords, FunctionSection, EncodedAll;
    if f == 0 {
      NoRecords();
    } else {
      FunctionsAreRecords(u, f - 1);
      FunctionIsRecords(u, f - 1);
      assert FunctionSections(u)[..f][..f - 1] == FunctionSections(u)[..f - 1];
      EncodedConcat(FunctionRecords(u, f - 1),
                    [Record(0x0100_0000, [RecordWord(u, f - 1, 0), RecordWord(u, f - 1, 1)])] +
                    CounterRecords(u, f - 1, GCOV_COUNTERS));
    }
  }

  /** The length of every counter section fits its word. */
  predicate LengthsFit(u: Unit)
    requires WellFormed(u)
  {
    forall f, t | 0 <= f < u.nFunctions && 0 <= t < GCOV_COUNTERS && Active(u, t) :: NCtrs(u, f, t) * 2 < WORD
  }

  predicate Short(rs: seq<Record>) {
    forall i | 0 <= i < |rs| :: |rs[i].words| < WORD
  }

  lemma {:induction false} CounterRecordsShort(u: Unit, f: nat, t: nat)
    requires WellFormed(u) && LengthsFit(u) && f < u.nFunctions && t <= GCOV_COUNTERS
    ensures Short(CounterRecords(u, f, t))
    decreases t
  {
    hide CounterWords;
    if t > 0 {
      CounterRecordsShort(u, f, t - 1);
    }
  }

  lemma {:induction false} RecordsShort(u: Unit, f: nat)
    requires WellFormed(u) && LengthsFit(u) && f <= u.nFunctions
    ensures Short(FunctionRecords(u, f))
    decreases f
  {
    hide CounterRecords, LengthsFit;
    if f > 0 {
      RecordsShort(u, f - 1);
      CounterRecordsShort(u, f - 1, GCOV_COUNTERS);
    }
  }

  /** A reader of the format finds in the file the magic number, the unit's version and stamp, and then of every function in
      turn its identifier and checksum and, by active type, its counters. */
  lemma FileReadsBack(u: Unit)
    requires WellFormed(u) && LengthsFit(u)
    ensures var s := File(u);
            && |s| >= 12
            && ReadWords(s, 3) == [0x6763_6461, u.version, u.stamp]
            && ReadRecords(s[12..]) == FunctionRecords(u, u.nFunctions)
  {
    var s, header := File(u), [0x6763_6461, u.version, u.stamp];
    assert FunctionSections(u)[..u.nFunctions] == FunctionSections(u);
    FunctionsAreRecords(u, u.nFunctions);
    RecordsShort(u, u.nFunctions);
    var rs := FunctionRecords(u, u.nFunctions);
    HeaderIsWords(u);
    hide FunctionRecords, FileHeader, FunctionSections, LengthsFit, ReadRecords, ReadWords, WordBytes, EncodedAll;
    WordsReadBack(header, EncodedAll(rs));
    assert s[12..] == EncodedAll(rs) == EncodedAll(rs) + [];
    RecordsReadBack(rs, []);
    NothingToRead();
  }

  lemma HeaderIsWords(u: Unit)
    ensures FileHeader(u) == WordBytes([0x6763_6461, u.version, u.stamp])
  {
    var ws: seq<Word> := [0x6763_6461, u.version, u.stamp];
    hide Int32;
    var two := ws[..2];
    assert two[..1][..0] == [];
    assert WordBytes(two[..1]) == [] + Int32(0x6763_6461);
    assert WordBytes(two) == WordBytes(two[..1]) + Int32(u.version);
    assert WordBytes(ws) == WordBytes(two) + Int32(u.stamp);
  }

  lemma NothingToRead()
    ensures ReadRecords([]) == []
  {
  }
}
