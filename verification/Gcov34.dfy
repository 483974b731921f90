/**
 The coverage data file of one compilation unit as gcc 3.4 lays it out, and the reader that
 generates any stretch of it on demand from the counters in memory.
 */
module Gcov34 {
  import opened Arith
  import opened Bytes
  import opened Words

  const GCOV_COUNTERS := 5
  const GCOV_DATA_MAGIC := 0x6763_6461
  const GCOV_TAG_FUNCTION := 0x0100_0000
  const GCOV_TAG_COUNTER_BASE := 0x01a1_0000

  type DWord = x: nat | x < WORD * WORD

  /** A compilation unit's coverage data.  functions is the memory of the function records: each
      has an identifier, a checksum and one count for each active counter type, all words.
      values holds, for each active type, the counters of all functions one after the other. */
  datatype Unit = Unit(
    version: Word,
    stamp: Word,
    ctrMask: Word,
    nFunctions: nat,
    functions: seq<Word>,
    values: seq<seq<DWord>>
  )

  /** counter_active. */
  predicate Active(u: Unit, t: nat) {
    (u.ctrMask / Pow2(t)) % 2 == 1
  }

  /** The number of active types below t; num_counter_active for t = GCOV_COUNTERS. */
  function ActiveBelow(u: Unit, t: nat): nat {
    if t == 0 then 0 else ActiveBelow(u, t - 1) + if Active(u, t - 1) then 1 else 0
  }

  /** The words one function record takes. */
  function Stride(u: Unit): nat {
    2 + ActiveBelow(u, GCOV_COUNTERS)
  }

  /** A word of a function's record; the memory beyond is not read. */
  function RecordWord(u: Unit, f: nat, k: nat): Word
    requires f * Stride(u) + k < |u.functions|
  {
    u.functions[f * Stride(u) + k]
  }

  /** n_ctrs[t] of function f: note that it is indexed by the type itself. */
  function NCtrs(u: Unit, f: nat, t: nat): Word
    requires f * Stride(u) + 2 + t < |u.functions|
  {
    RecordWord(u, f, 2 + t)
  }

  predicate RecordsPresent(u: Unit) {
    forall f | 0 <= f < u.nFunctions ::
      && f * Stride(u) + 2 <= |u.functions|
      && forall t | 0 <= t < GCOV_COUNTERS && Active(u, t) :: f * Stride(u) + 2 + t < |u.functions|
  }

  /** How many counters of type t the functions before f have. */
  function CountersBefore(u: Unit, f: nat, t: nat): nat
    requires RecordsPresent(u) && f <= u.nFunctions && t < GCOV_COUNTERS && Active(u, t)
  {
    if f == 0 then 0 else CountersBefore(u, f - 1, t) + NCtrs(u, f - 1, t)
  }

  /** All the memory the reader looks at is there; the length of a type's counters is a word. */
  predicate WellFormed(u: Unit) {
    && RecordsPresent(u)
    && forall t | 0 <= t < GCOV_COUNTERS && Active(u, t) ::
         ActiveBelow(u, t) < |u.values| && CountersBefore(u, u.nFunctions, t) <= |u.values[ActiveBelow(u, t)]| < WORD
  }

  lemma {:induction false} CountersBeforeMonotone(u: Unit, f: nat, g: nat, t: nat)
    requires RecordsPresent(u) && f <= g <= u.nFunctions && t < GCOV_COUNTERS && Active(u, t)
    ensures CountersBefore(u, f, t) <= CountersBefore(u, g, t)
    decreases g - f
  {
    if f < g {
      CountersBeforeMonotone(u, f, g - 1, t);
    }
  }

  /** Counter c of type t of function f. */
  function Counter(u: Unit, f: nat, t: nat, c: nat): DWord
    requires WellFormed(u) && f < u.nFunctions && t < GCOV_COUNTERS && Active(u, t) && c < NCtrs(u, f, t)
  {
    CountersBeforeMonotone(u, f + 1, u.nFunctions, t);
    u.values[ActiveBelow(u, t)][CountersBefore(u, f, t) + c]
  }

  // ----- The file -----

  /** store_int32: the word as it lies in memory, least significant byte first. */
  function Int32(w: Word): (b: seq<Byte>)
    ensures |b| == 4
  {
    [w % 0x100, (w / 0x100) % 0x100, (w / 0x1_0000) % 0x100, w / 0x100_0000]
  }

  /** store_int64, which keeps only sixteen bits of the lower word. */
  function Int64(v: DWord): (b: seq<Byte>)
    ensures |b| == 8
  {
    Int32(v % 0x1_0000) + Int32(v / WORD)
  }

  function CounterTag(t: nat): Word
    requires t < GCOV_COUNTERS
  {
    GCOV_TAG_COUNTER_BASE + t * 0x2_0000
  }

  function CounterData(u: Unit, f: nat, t: nat): seq<seq<Byte>>
    requires WellFormed(u) && f < u.nFunctions && t < GCOV_COUNTERS && Active(u, t)
  {
    seq(NCtrs(u, f, t), c requires 0 <= c < NCtrs(u, f, t) => Int64(Counter(u, f, t, c)))
  }

  /** The section of one counter type of one function. */
  function CounterSection(u: Unit, f: nat, t: nat): seq<Byte>
    requires WellFormed(u) && f < u.nFunctions && t < GCOV_COUNTERS
  {
    if !Active(u, t) then []
    else Int32(CounterTag(t)) + Int32((NCtrs(u, f, t) * 2) % WORD) + Flat(CounterData(u, f, t))
  }

  function CounterSections(u: Unit, f: nat): seq<seq<Byte>>
    requires WellFormed(u) && f < u.nFunctions
  {
    seq(GCOV_COUNTERS, t requires 0 <= t < GCOV_COUNTERS => CounterSection(u, f, t))
  }

  function FunctionHeader(u: Unit, f: nat): (b: seq<Byte>)
    requires WellFormed(u) && f < u.nFunctions
    ensures |b| == 16
  {
    Int32(GCOV_TAG_FUNCTION) + Int32(2) + Int32(RecordWord(u, f, 0)) + Int32(RecordWord(u, f, 1))
  }

  function FunctionSection(u: Unit, f: nat): seq<Byte>
    requires WellFormed(u) && f < u.nFunctions
  {
    FunctionHeader(u, f) + Flat(CounterSections(u, f))
  }

  function FunctionSections(u: Unit): seq<seq<Byte>>
    requires WellFormed(u)
  {
    seq(u.nFunctions, f requires 0 <= f < u.nFunctions => FunctionSection(u, f))
  }

  function FileHeader(u: Unit): (b: seq<Byte>)
    ensures |b| == 12
  {
    Int32(GCOV_DATA_MAGIC) + Int32(u.version) + Int32(u.stamp)
  }

  /** The whole data file. */
  function File(u: Unit): seq<Byte>
    requires WellFormed(u)
  {
    FileHeader(u) + Flat(FunctionSections(u))
  }

  // ----- Sizes as the program computes them -----

  /** sizeof_counter_data, in 32-bit arithmetic. */
  function SizeofCounterData(u: Unit, f: nat, t: nat): nat
    requires WellFormed(u) && f < u.nFunctions && t < GCOV_COUNTERS
  {
    if Active(u, t) then (8 + NCtrs(u, f, t) * 8) % WORD else 0
  }

  function SizeofCounters(u: Unit, f: nat, t: nat): nat
    requires WellFormed(u) && f < u.nFunctions && t <= GCOV_COUNTERS
  {
    if t == 0 then 0 else SizeofCounters(u, f, t - 1) + SizeofCounterData(u, f, t - 1)
  }

  /** sizeof_func_data. */
  function SizeofFuncData(u: Unit, f: nat): nat
    requires WellFormed(u) && f < u.nFunctions
  {
    16 + SizeofCounters(u, f, GCOV_COUNTERS)
  }

  function SizeofFuncs(u: Unit, f: nat): nat
    requires WellFormed(u) && f <= u.nFunctions
  {
    if f == 0 then 0 else SizeofFuncs(u, f - 1) + SizeofFuncData(u, f - 1)
  }

  /** sizeof_da_file. */
  function SizeofDaFile(u: Unit): nat
    requires WellFormed(u)
  {
    12 + SizeofFuncs(u, u.nFunctions)
  }

  /** No section is so long that its size wraps. */
  predicate Fits(u: Unit, f: nat)
    requires WellFormed(u) && f < u.nFunctions
  {
    forall t | 0 <= t < GCOV_COUNTERS && Active(u, t) :: 8 + NCtrs(u, f, t) * 8 < WORD
  }

  predicate AllFit(u: Unit)
    requires WellFormed(u)
  {
    forall f | 0 <= f < u.nFunctions :: Fits(u, f)
  }

  lemma CounterSectionLength(u: Unit, f: nat, t: nat)
    requires WellFormed(u) && f < u.nFunctions && t < GCOV_COUNTERS
    ensures |CounterSection(u, f, t)| == if Active(u, t) then 8 + NCtrs(u, f, t) * 8 else 0
    ensures SizeofCounterData(u, f, t) <= |CounterSection(u, f, t)|
    ensures SizeofCounterData(u, f, t) == |CounterSection(u, f, t)| <==>
            (Active(u, t) ==> 8 + NCtrs(u, f, t) * 8 < WORD)
  {
    if Active(u, t) {
      FlatUniform(CounterData(u, f, t), 8);
      WrapAtMost(8 + NCtrs(u, f, t) * 8);
    }
  }

  lemma WrapAtMost(n: nat)
    ensures n % WORD <= n && (n % WORD == n <==> n < WORD)
  {
    assert n == WORD * (n / WORD) + n % WORD;
  }

  /** The first t sections of a function take as many bytes as the program thinks, or more, and as
      many exactly if none of them wraps. */
  lemma {:induction false} CountersLength(u: Unit, f: nat, t: nat)
    requires WellFormed(u) && f < u.nFunctions && t <= GCOV_COUNTERS
    ensures SizeofCounters(u, f, t) <= Start(CounterSections(u, f), t)
    ensures SizeofCounters(u, f, t) == Start(CounterSections(u, f), t) <==>
            forall k | 0 <= k < t && Active(u, k) :: 8 + NCtrs(u, f, k) * 8 < WORD
    decreases t
  {
    if t > 0 {
      CountersLength(u, f, t - 1);
      StartNext(CounterSections(u, f), t - 1);
      CounterSectionLength(u, f, t - 1);
    }
  }

  lemma FuncLength(u: Unit, f: nat)
    requires WellFormed(u) && f < u.nFunctions
    ensures SizeofFuncData(u, f) <= |FunctionSection(u, f)|
    ensures SizeofFuncData(u, f) == |FunctionSection(u, f)| <==> Fits(u, f)
  {
    CountersLength(u, f, GCOV_COUNTERS);
    assert CounterSections(u, f)[..GCOV_COUNTERS] == CounterSections(u, f);
  }

  lemma NoneBefore(parts: seq<seq<Byte>>)
    ensures Start(parts, 0) == 0
  {
  }

  lemma {:induction false} FuncsLength(u: Unit, f: nat)
    requires WellFormed(u) && f <= u.nFunctions
    ensures SizeofFuncs(u, f) <= Start(FunctionSections(u), f)
    ensures SizeofFuncs(u, f) == Start(FunctionSections(u), f) <==> forall g | 0 <= g < f :: Fits(u, g)
    decreases f
  {
    hide Fits, SizeofFuncData, FunctionSection, Start;
    if f == 0 {
      NoneBefore(FunctionSections(u));
    } else {
      FuncsLength(u, f - 1);
      StartNext(FunctionSections(u), f - 1);
      FuncLength(u, f - 1);
    }
  }

  /** The size the program announces is the length of the file exactly if no section's size wraps. */
  lemma SizeExactly(u: Unit)
    requires WellFormed(u)
    ensures SizeofDaFile(u) == |File(u)| <==> AllFit(u)
    ensures SizeofDaFile(u) <= |File(u)|
  {
    FuncsLength(u, u.nFunctions);
    assert FunctionSections(u)[..u.nFunctions] == FunctionSections(u);
  }

  // ----- The per-field encoders -----

  function Word32(b: seq<Byte>): Word
    requires |b| == 4
  {
    (b[0] as int) + (b[1] as int) * 0x100 + (b[2] as int) * 0x1_0000 + (b[3] as int) * 0x100_0000
  }

  lemma Int32RoundTrip(w: Word)
    ensures Word32(Int32(w)) == w
  {
    var a, b, c := w / 0x100, w / 0x1_0000, w / 0x100_0000;
    assert w == a * 0x100 + w % 0x100 && a == b * 0x100 + a % 0x100 && b == c * 0x100 + b % 0x100;
  }

  lemma LowHalf(v: nat)
    ensures v % WORD % 0x1_0000 == v % 0x1_0000
  {
    assert v == (v % WORD) + 0x1_0000 * (0x1_0000 * (v / WORD));
  }

  /** A counter can be read back exactly if the upper half of its lower word is zero. */
  lemma Int64Exactly(v: DWord)
    ensures Word32(Int64(v)[..4]) + Word32(Int64(v)[4..]) * WORD == v <==> v % WORD < 0x1_0000
  {
    assert Int64(v)[..4] == Int32(v % 0x1_0000) && Int64(v)[4..] == Int32(v / WORD);
    hide Int32, Int64, Word32;
    Int32RoundTrip(v % 0x1_0000);
    Int32RoundTrip(v / WORD);
    assert v == (v / WORD) * WORD + v % WORD;
    LowHalf(v);
  }

  // ----- The reader -----

  lemma CounterSectionParts(u: Unit, f: nat, t: nat)
    requires WellFormed(u) && f < u.nFunctions && t < GCOV_COUNTERS && Active(u, t)
    ensures var s := CounterSection(u, f, t);
            && |s| == 8 + NCtrs(u, f, t) * 8
            && FieldAt(s, 0, Int32(CounterTag(t))) && FieldAt(s, 4, Int32((NCtrs(u, f, t) * 2) % WORD))
  {
    CounterSectionLength(u, f, t);
  }

  lemma CounterAt(u: Unit, f: nat, t: nat, c: nat)
    requires WellFormed(u) && f < u.nFunctions && t < GCOV_COUNTERS && Active(u, t) && c < NCtrs(u, f, t)
    ensures FieldAt(CounterSection(u, f, t), 8 + c * 8, Int64(Counter(u, f, t, c)))
  {
    hide CounterSection, Flat, Int64, Counter;
    var s, data := CounterSection(u, f, t), CounterData(u, f, t);
    CounterDataAt(u, f, t);
    UniformPart(data, 8, c);
    assert data[c] == Int64(Counter(u, f, t, c));
    hide FieldAt;
    FieldWithin(s, 8, Flat(data), c * 8, data[c]);
  }

  lemma CounterDataAt(u: Unit, f: nat, t: nat)
    requires WellFormed(u) && f < u.nFunctions && t < GCOV_COUNTERS && Active(u, t)
    ensures FieldAt(CounterSection(u, f, t), 8, Flat(CounterData(u, f, t)))
    ensures forall c | 0 <= c < |CounterData(u, f, t)| :: |CounterData(u, f, t)[c]| == 8
  {
    var s := CounterSection(u, f, t);
    assert s[8..] == Flat(CounterData(u, f, t));
  }

  lemma CounterIndex(offset: nat, n: nat)
    requires 8 <= offset <= 8 + n * 8 && n < WORD
    ensures var i := (offset - 8) / 8 % WORD;
            && i == (offset - 8) / 8 && 8 + i * 8 + (offset - 8) % 8 == offset
            && (i >= n <==> offset == 8 + n * 8)
  {
    assert (offset - 8) / 8 <= n;
  }

  /** The field of a counter section that an offset falls into. */
  method CounterField(u: Unit, f: nat, t: nat, offset: nat) returns (eof: bool, data: seq<Byte>, from: nat, ghost at: nat)
    requires WellFormed(u) && f < u.nFunctions && t < GCOV_COUNTERS && Active(u, t)
    requires offset <= |CounterSection(u, f, t)|
    ensures eof <==> offset == |CounterSection(u, f, t)|
    ensures !eof ==> FieldAt(CounterSection(u, f, t), at, data) && from < |data| && at + from == offset
  {
    CounterSectionParts(u, f, t);
    eof := false;
    if offset < 4 {
      data, from, at := Int32(CounterTag(t)), offset, 0;
    } else if offset < 8 {
      data, from, at := Int32((NCtrs(u, f, t) * 2) % WORD), offset - 4, 4;
    } else {
      CounterIndex(offset, NCtrs(u, f, t));
      var i := (offset - 8) / 8 % WORD;
      if i >= NCtrs(u, f, t) {
        eof, data, from, at := true, [], 0, 0;
      } else {
        data := StoreCounter(u, f, t, i);
        from, at := (offset - 8) % 8, 8 + i * 8;
        CounterAt(u, f, t, i);
      }
    }
  }

  /** store_counter_data: any stretch of one counter section. */
  method StoreCounterData(u: Unit, f: nat, t: nat, count0: nat, offset0: nat) returns (out: seq<Byte>)
    requires WellFormed(u) && f < u.nFunctions && t < GCOV_COUNTERS && Active(u, t)
    requires offset0 <= |CounterSection(u, f, t)|
    ensures out == Slice(CounterSection(u, f, t), offset0, count0)
  {
    ghost var s := CounterSection(u, f, t);
    var count, offset := count0, offset0;
    out := [];
    while count > 0
      invariant offset == offset0 + |out| <= |s| && count == count0 - |out|
      invariant |out| <= count0 && out == Slice(s, offset0, |out|)
      decreases count
    {
      var eof, data, from, at := CounterField(u, f, t, offset);
      if eof {
        SliceAtEnd(s, offset0, |out|, count0);
        break;
      }
      var len := Min(|data| - from, count);
      FieldCopied(s, offset0, |out|, at, data, from, len);
      out := out + data[from..from + len];
      count, offset := count - len, offset + len;
    }
  }

  /** store_counter: find the counter among those of its type and encode it. */
  method StoreCounter(u: Unit, f: nat, t: nat, c: nat) returns (data: seq<Byte>)
    requires WellFormed(u) && f < u.nFunctions && t < GCOV_COUNTERS && Active(u, t) && c < NCtrs(u, f, t)
    ensures data == Int64(Counter(u, f, t, c))
  {
    var typeOff := 0;
    for i := 0 to t
      invariant typeOff == ActiveBelow(u, i)
    {
      if Active(u, i) {
        typeOff := typeOff + 1;
      }
    }
    var counterOff: Word := c;
    CountersBeforeMonotone(u, f + 1, u.nFunctions, t);
    for i := 0 to f
      invariant counterOff == c + CountersBefore(u, i, t)
    {
      CountersBeforeMonotone(u, i + 1, f, t);
      counterOff := Wrap(counterOff + NCtrs(u, i, t));
    }
    data := Int64(u.values[typeOff][counterOff]);
  }

  lemma FunctionParts(u: Unit, f: nat)
    requires WellFormed(u) && f < u.nFunctions
    ensures var s := FunctionSection(u, f);
            && FieldAt(s, 0, Int32(GCOV_TAG_FUNCTION)) && FieldAt(s, 4, Int32(2))
            && FieldAt(s, 8, Int32(RecordWord(u, f, 0))) && FieldAt(s, 12, Int32(RecordWord(u, f, 1)))
            && FieldAt(s, 16, Flat(CounterSections(u, f)))
  {
    var s := FunctionSection(u, f);
    assert s[16..] == Flat(CounterSections(u, f));
  }

  /** Section t of a function lies where the sizes before it say. */
  lemma SectionAt(u: Unit, f: nat, t: nat)
    requires WellFormed(u) && f < u.nFunctions && t < GCOV_COUNTERS && Fits(u, f)
    ensures FieldAt(FunctionSection(u, f), 16 + SizeofCounters(u, f, t), CounterSection(u, f, t))
    ensures SizeofCounterData(u, f, t) == |CounterSection(u, f, t)|
  {
    hide FunctionSection, CounterSection, FieldAt, Flat;
    var parts := CounterSections(u, f);
    FunctionParts(u, f);
    CountersLength(u, f, t);
    CounterSectionLength(u, f, t);
    FlatPart(parts, t);
    FieldWithin(FunctionSection(u, f), 16, Flat(parts), Start(parts, t), parts[t]);
  }

  /** The fixed fields of a function section. */
  method FunctionField(u: Unit, f: nat, offset: nat) returns (data: seq<Byte>, from: nat, ghost at: nat)
    requires WellFormed(u) && f < u.nFunctions && offset < 16
    ensures FieldAt(FunctionSection(u, f), at, data) && from < |data| && at + from == offset
  {
    FunctionParts(u, f);
    if offset < 4 {
      data, from, at := Int32(GCOV_TAG_FUNCTION), offset, 0;
    } else if offset < 8 {
      data, from, at := Int32(2), offset - 4, 4;
    } else if offset < 12 {
      data, from, at := Int32(RecordWord(u, f, 0)), offset - 8, 8;
    } else {
      data, from, at := Int32(RecordWord(u, f, 1)), offset - 12, 12;
    }
  }

  /** The counter section of a function that an offset falls into, and where it starts; GCOV_COUNTERS
      at the end of the function. */
  method FindSection(u: Unit, f: nat, offset: nat) returns (t: nat, off: nat)
    requires WellFormed(u) && f < u.nFunctions && 16 <= offset
    ensures t <= GCOV_COUNTERS
    ensures t == GCOV_COUNTERS <==> offset >= SizeofFuncData(u, f)
    ensures t < GCOV_COUNTERS ==> off == 16 + SizeofCounters(u, f, t) <= offset < off + SizeofCounterData(u, f, t)
  {
    off := 16;
    t := 0;
    while t < GCOV_COUNTERS
      invariant t <= GCOV_COUNTERS && off == 16 + SizeofCounters(u, f, t) <= offset
    {
      var size := SizeofCounterData(u, f, t);
      if offset < off + size {
        CountersMonotone(u, f, t + 1, GCOV_COUNTERS);
        return;
      }
      off := off + size;
      t := t + 1;
    }
  }

  lemma {:induction false} CountersMonotone(u: Unit, f: nat, t: nat, t': nat)
    requires WellFormed(u) && f < u.nFunctions && t <= t' <= GCOV_COUNTERS
    ensures SizeofCounters(u, f, t) <= SizeofCounters(u, f, t')
    decreases t' - t
  {
    if t < t' {
      CountersMonotone(u, f, t, t' - 1);
    }
  }

  /** One round of store_func_data: the next bytes of a function section, or its end. */
  method FunctionPiece(u: Unit, f: nat, count: nat, offset: nat) returns (end: bool, piece: seq<Byte>)
    requires WellFormed(u) && f < u.nFunctions && count > 0
    ensures end <==> offset >= SizeofFuncData(u, f)
    ensures !end ==> 0 < |piece| <= count && (Fits(u, f) ==> IsPiece(FunctionSection(u, f), offset, count, piece))
  {
    end, piece := false, [];
    if offset < 16 {
      hide FunctionSection, FieldAt, Fits;
      var data, from, at := FunctionField(u, f, offset);
      FieldPiece(FunctionSection(u, f), at, data, from, count);
      piece := data[from..from + Min(|data| - from, count)];
    } else {
      hide FunctionSection, CounterSection, FieldAt, Fits, Slice, IsPiece;
      var t, off := FindSection(u, f, offset);
      if t == GCOV_COUNTERS {
        end := true;
        return;
      }
      CounterSectionLength(u, f, t);
      piece := StoreCounterData(u, f, t, count, offset - off);
      SomeRead(CounterSection(u, f, t), offset - off, count);
      if Fits(u, f) {
        SectionAt(u, f, t);
        SlicePiece(FunctionSection(u, f), off, CounterSection(u, f, t), offset - off, count);
      }
    }
  }

  /** store_func_data: any stretch of one function section, if none of its counter sections' sizes wraps;
      at any rate something before the size the program takes it to have, and nothing from there on. */
  method StoreFuncData(u: Unit, f: nat, count0: nat, offset0: nat) returns (out: seq<Byte>)
    requires WellFormed(u) && f < u.nFunctions
    ensures Fits(u, f) ==> out == Slice(FunctionSection(u, f), offset0, count0)
    ensures |out| <= count0 && (out == [] <==> count0 == 0 || offset0 >= SizeofFuncData(u, f))
  {
    hide FunctionSection, Fits, Slice;
    ghost var s := FunctionSection(u, f);
    FuncLength(u, f);
    NothingRead(s, offset0);
    var count, offset := count0, offset0;
    out := [];
    while count > 0
      invariant offset == offset0 + |out| && count == count0 - |out| && |out| <= count0
      invariant Fits(u, f) ==> out == Slice(s, offset0, |out|)
      invariant out != [] ==> offset0 < SizeofFuncData(u, f)
      decreases count
    {
      var end, piece := FunctionPiece(u, f, count, offset);
      if end {
        SliceAtEndIf(s, offset0, |out|, count0, Fits(u, f));
        break;
      }
      if Fits(u, f) {
        PieceCopied(s, offset0, |out|, count, piece);
      }
      out := out + piece;
      count, offset := count - |piece|, offset + |piece|;
    }
  }

  lemma SliceAtEndIf(s: seq<Byte>, offset: nat, done: nat, count: nat, reached: bool)
    requires done <= count && (reached ==> offset + done >= |s|)
    ensures reached ==> Slice(s, offset, done) == Slice(s, offset, count)
  {
    if reached {
      SliceAtEnd(s, offset, done, count);
    }
  }

  lemma FileParts(u: Unit)
    requires WellFormed(u)
    ensures var s := File(u);
            && FieldAt(s, 0, Int32(GCOV_DATA_MAGIC)) && FieldAt(s, 4, Int32(u.version)) && FieldAt(s, 8, Int32(u.stamp))
            && FieldAt(s, 12, Flat(FunctionSections(u)))
  {
    hide Flat, FunctionSections;
    assert File(u)[12..] == Flat(FunctionSections(u));
  }

  lemma FunctionAt(u: Unit, f: nat)
    requires WellFormed(u) && f < u.nFunctions && AllFit(u)
    ensures FieldAt(File(u), 12 + SizeofFuncs(u, f), FunctionSection(u, f))
    ensures SizeofFuncData(u, f) == |FunctionSection(u, f)|
  {
    hide File, FunctionSection, FieldAt, Flat, Fits;
    var parts := FunctionSections(u);
    FileParts(u);
    FuncsLength(u, f);
    FuncLength(u, f);
    FlatPart(parts, f);
    FieldWithin(File(u), 12, Flat(parts), Start(parts, f), parts[f]);
  }

  method FileField(u: Unit, offset: nat) returns (data: seq<Byte>, from: nat, ghost at: nat)
    requires WellFormed(u) && offset < 12
    ensures FieldAt(File(u), at, data) && from < |data| && at + from == offset
  {
    FileParts(u);
    if offset < 4 {
      data, from, at := Int32(GCOV_DATA_MAGIC), offset, 0;
    } else if offset < 8 {
      data, from, at := Int32(u.version), offset - 4, 4;
    } else {
      data, from, at := Int32(u.stamp), offset - 8, 8;
    }
  }

  method FindFunction(u: Unit, offset: nat) returns (f: nat, off: nat)
    requires WellFormed(u) && 12 <= offset
    ensures f <= u.nFunctions
    ensures f == u.nFunctions <==> offset >= SizeofDaFile(u)
    ensures f < u.nFunctions ==> off == 12 + SizeofFuncs(u, f) <= offset < off + SizeofFuncData(u, f)
  {
    off := 12;
    f := 0;
    while f < u.nFunctions
      invariant f <= u.nFunctions && off == 12 + SizeofFuncs(u, f) <= offset
    {
      var size := SizeofFuncData(u, f);
      if offset < off + size {
        FuncsMonotone(u, f + 1, u.nFunctions);
        return;
      }
      off := off + size;
      f := f + 1;
    }
  }

  lemma {:induction false} FuncsMonotone(u: Unit, f: nat, g: nat)
    requires WellFormed(u) && f <= g <= u.nFunctions
    ensures SizeofFuncs(u, f) <= SizeofFuncs(u, g)
    decreases g - f
  {
    if f < g {
      FuncsMonotone(u, f, g - 1);
    }
  }

  /** One round of store_da_file: the next bytes of the file, or its end. */
  method FilePiece(u: Unit, count: nat, offset: nat) returns (end: bool, piece: seq<Byte>)
    requires WellFormed(u) && count > 0
    ensures end <==> offset >= SizeofDaFile(u)
    ensures !end ==> 0 < |piece| <= count && (AllFit(u) ==> IsPiece(File(u), offset, count, piece))
  {
    end, piece := false, [];
    if offset < 12 {
      hide File, FieldAt, AllFit;
      var data, from, at := FileField(u, offset);
      FieldPiece(File(u), at, data, from, count);
      piece := data[from..from + Min(|data| - from, count)];
    } else {
      hide File, FunctionSection, FieldAt, Fits, Slice, IsPiece;
      var f, off := FindFunction(u, offset);
      if f == u.nFunctions {
        end := true;
        return;
      }
      piece := StoreFuncData(u, f, count, offset - off);
      if AllFit(u) {
        FunctionAt(u, f);
        SlicePiece(File(u), off, FunctionSection(u, f), offset - off, count);
      }
    }
  }

  /** store_da_file: a read at any offset of any count gives exactly that slice of the file, if no section's
      size wraps.  If one does, the file ends too early: a read at the announced size is empty, and is not the
      slice. */
  method StoreDaFile(u: Unit, count0: nat, offset0: nat) returns (out: seq<Byte>)
    requires WellFormed(u)
    ensures AllFit(u) ==> out == Slice(File(u), offset0, count0)
    ensures offset0 >= SizeofDaFile(u) ==> out == []
    ensures !AllFit(u) && count0 > 0 && offset0 == SizeofDaFile(u) ==> out != Slice(File(u), offset0, count0)
  {
    hide File, AllFit, Slice, SizeofDaFile;
    ghost var s := File(u);
    SizeExactly(u);
    NothingRead(s, offset0);
    if count0 > 0 && offset0 < |s| {
      SomeRead(s, offset0, count0);
    }
    var count, offset := count0, offset0;
    out := [];
    while count > 0
      invariant offset == offset0 + |out| && count == count0 - |out| && |out| <= count0
      invariant AllFit(u) ==> out == Slice(s, offset0, |out|)
      invariant out != [] ==> offset0 < SizeofDaFile(u)
      decreases count
    {
      var end, piece := FilePiece(u, count, offset);
      if end {
        SliceAtEndIf(s, offset0, |out|, count0, AllFit(u));
        break;
      }
      if AllFit(u) {
        PieceCopied(s, offset0, |out|, count, piece);
      }
      out := out + piece;
      count, offset := count - |piece|, offset + |piece|;
    }
  }
}
