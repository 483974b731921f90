/**
 Reading a gcc 3.3 data file back: its header, and function after function the name, the checksum and the counters.
 */
module Gcov33Reading {
  import opened Arith
  import opened Bytes
  import opened Options
  import opened Gcov33

  datatype FunctionRead = FunctionRead(name: seq<Byte>, checksum: int, counts: seq<int>)

  /** The bytes at from, as a number. */
  function Number(s: seq<Byte>, from: nat, n: nat): int
    requires n > 0 && from + n <= |s|
  {
    Loaded(s[from..from + n])
  }

  predicate AllZero(s: seq<Byte>) {
    forall i | 0 <= i < |s| :: s[i] == 0
  }

  /** The first function the bytes describe, and how many bytes it takes. */
  function ReadFunction(s: seq<Byte>): (r: Option<(FunctionRead, nat)>)
    ensures r.Some? ==> 0 < r.value.1 <= |s|
  {
    if |s| < 8 || Number(s, 0, 4) != -1 || Number(s, 4, 4) < 0 then None else
      var len: nat := Number(s, 4, 4);
      var at := 8 + len + 4 - len % 4;
      if |s| < at + 12 || !AllZero(s[8 + len..at]) || Number(s, at, 4) != -1 || Number(s, at + 8, 4) < 0 then None else
        var n: nat := Number(s, at + 8, 4);
        if |s| < at + 12 + 8 * n then None else
          Some((FunctionRead(s[8..8 + len], Number(s, at + 4, 4),
                             seq(n, c requires 0 <= c < n => Number(s, at + 12 + 8 * c, 8))),
                at + 12 + 8 * n))
  }

  /** That many functions, and nothing after them. */
  function ReadFunctions(s: seq<Byte>, n: nat): Option<seq<FunctionRead>> {
    if n == 0 then (if s == [] then Some([]) else None) else
      var first := ReadFunction(s);
      if first.None? then None else
        var more := ReadFunctions(s[first.value.1..], n - 1);
        if more.None? then None else Some([first.value.0] + more.value)
  }

  function ReadFile(s: seq<Byte>): Option<seq<FunctionRead>> {
    if |s| < 12 || Number(s, 0, 4) != -123 || Number(s, 4, 4) < 0 || Number(s, 8, 4) != 0 then None
    else ReadFunctions(s[12..], Number(s, 4, 4))
  }

  /** What a unit holds: each function takes its counters from the front of those left. */
  function Contents(fs: seq<Function>, counts: seq<int>): seq<FunctionRead> {
    if fs == [] || |counts| < fs[0].arcCount then [] else
      [FunctionRead(fs[0].name, fs[0].checksum, counts[..fs[0].arcCount])] + Contents(fs[1..], counts[fs[0].arcCount..])
  }

  /** Every number leaves the sign bit of its bytes alone. */
  predicate Readable(u: Unit) {
    && |u.functions| < 0x8000_0000
    && (forall f | 0 <= f < |u.functions| :: SmallFunction(u.functions[f]))
    && (forall c | 0 <= c < |u.counts| :: -LIMIT < u.counts[c])
  }

  lemma HalfValues()
    ensures Half(4) == 0x8000_0000 && Half(8) == LIMIT
  {
    assert Pow256(1) == 256 && Pow256(3) == 0x100_0000 && Pow256(5) == 0x100_0000_0000;
    assert Pow256(7) == 0x100_0000_0000_0000;
  }

  lemma NumberAt(s: seq<Byte>, from: nat, n: nat, v: int)
    requires n > 0 && FieldAt(s, from, Stored(v, n)) && Abs(v) < Half(n)
    ensures Number(s, from, n) == v
  {
    StoredExactly(v, n);
  }

  lemma PadMeans(len: nat)
    ensures Padded(len) == len + 4 - len % 4
  {
  }

  lemma Extended(s: seq<Byte>, rest: seq<Byte>, at: nat, field: seq<Byte>)
    requires FieldAt(s, at, field)
    ensures FieldAt(s + rest, at, field)
  {
    assert (s + rest)[at..at + |field|] == s[at..at + |field|];
  }

  lemma FieldFits(s: seq<Byte>, at: nat, field: seq<Byte>)
    requires FieldAt(s, at, field)
    ensures at + |field| <= |s| && s[at..at + |field|] == field
  {
  }

  function CountersAt(fn: Function): nat {
    20 + Padded(|fn.name|)
  }

  /** Where everything in a function's part of the file lies. */
  ghost predicate LaidOut(s: seq<Byte>, fn: Function, data: seq<Byte>) {
    var (len, at) := (|fn.name|, 8 + Padded(|fn.name|));
    && FieldAt(s, 0, Stored(-1, 4)) && FieldAt(s, 4, Stored(len, 4)) && FieldAt(s, 8, fn.name)
    && FieldAt(s, 8 + len, Zeros(Padded(len) - len)) && FieldAt(s, at, Stored(-1, 4))
    && FieldAt(s, at + 4, Stored(fn.checksum, 4)) && FieldAt(s, at + 8, Stored(fn.arcCount, 4))
    && FieldAt(s, at + 12, data)
  }

  lemma FunctionLaidOut(u: Unit, f: nat, rest: seq<Byte>)
    requires WellFormed(u) && f < |u.functions|
    ensures LaidOut(FunctionData(u, f) + rest, u.functions[f], Flat(Counters(u, f)))
    ensures |FunctionData(u, f)| == CountersAt(u.functions[f]) + 8 * u.functions[f].arcCount
  {
    var (d, fn) := (FunctionData(u, f), u.functions[f]);
    FunctionLength(u, f);
    FieldStartValues(fn);
    hide FunctionData, FieldStart, Stored, FieldAt, Flat, FieldSize;
    forall k: nat | k < FIELDS ensures FieldAt(d + rest, FieldStart(fn, k), Field(u, f, k)) {
      FieldPlace(u, f, k);
      Extended(d, rest, FieldStart(fn, k), Field(u, f, k));
    }
    assert FieldAt(d + rest, FieldStart(fn, 0), Field(u, f, 0)) && FieldAt(d + rest, FieldStart(fn, 1), Field(u, f, 1));
    assert FieldAt(d + rest, FieldStart(fn, 2), Field(u, f, 2)) && FieldAt(d + rest, FieldStart(fn, 3), Field(u, f, 3));
    assert FieldAt(d + rest, FieldStart(fn, 4), Field(u, f, 4)) && FieldAt(d + rest, FieldStart(fn, 5), Field(u, f, 5));
    assert FieldAt(d + rest, FieldStart(fn, 6), Field(u, f, 6)) && FieldAt(d + rest, FieldStart(fn, 7), Field(u, f, 7));
  }

  predicate SmallFunction(fn: Function) {
    |fn.name| < 0x8000_0000 && fn.arcCount < 0x8000_0000 && -0x8000_0000 < fn.checksum < 0x8000_0000
  }

  lemma NumbersOf(s: seq<Byte>, fn: Function, data: seq<Byte>)
    requires LaidOut(s, fn, data) && SmallFunction(fn)
    ensures var at := 8 + Padded(|fn.name|);
            && |s| >= at + 12 && Number(s, 0, 4) == -1 && Number(s, 4, 4) == |fn.name| && Number(s, at, 4) == -1
            && Number(s, at + 4, 4) == fn.checksum && Number(s, at + 8, 4) == fn.arcCount
  {
    HalfValues();
    var (len, at) := (|fn.name|, 8 + Padded(|fn.name|));
    hide Half, Stored, Number, FieldAt, Zeros, Padded;
    NumberAt(s, 0, 4, -1);
    NumberAt(s, 4, 4, len);
    NumberAt(s, at, 4, -1);
    NumberAt(s, at + 4, 4, fn.checksum);
    NumberAt(s, at + 8, 4, fn.arcCount);
    FieldFits(s, at + 8, Stored(fn.arcCount, 4));
  }

  lemma NameOf(s: seq<Byte>, fn: Function, data: seq<Byte>)
    requires LaidOut(s, fn, data)
    ensures var (len, at) := (|fn.name|, 8 + Padded(|fn.name|));
            8 + len <= at <= |s| && s[8..8 + len] == fn.name && AllZero(s[8 + len..at])
  {
    var zeros := Zeros(Padded(|fn.name|) - |fn.name|);
    hide FieldAt, Stored;
    FieldFits(s, 8, fn.name);
    FieldFits(s, 8 + |fn.name|, zeros);
  }

  /** The bytes are those of the counters, which are all small enough. */
  ghost predicate Holds(data: seq<Byte>, counts: seq<int>) {
    && |data| == 8 * |counts|
    && forall c: nat | c < |counts| :: FieldAt(data, 8 * c, Stored(counts[c], 8)) && Abs(counts[c]) < LIMIT
  }

  lemma CountRead(s: seq<Byte>, at: nat, data: seq<Byte>, counts: seq<int>, c: nat)
    requires FieldAt(s, at, data) && Holds(data, counts) && c < |counts|
    ensures at + 8 * c + 8 <= |s| && Number(s, at + 8 * c, 8) == counts[c]
  {
    HalfValues();
    var field := Stored(counts[c], 8);
    assert FieldAt(data, 8 * c, field) && Abs(counts[c]) < LIMIT;
    hide Half, Stored, Number, FieldAt, Holds;
    FieldWithin(s, at, data, 8 * c, field);
    NumberAt(s, at + 8 * c, 8, counts[c]);
    FieldFits(s, at + 8 * c, field);
  }

  /** n counters from at on. */
  ghost predicate CountsAt(s: seq<Byte>, at: nat, counts: seq<int>) {
    forall c: nat | c < |counts| :: at + 8 * c + 8 <= |s| && Number(s, at + 8 * c, 8) == counts[c]
  }

  lemma CountsRead(s: seq<Byte>, at: nat, data: seq<Byte>, counts: seq<int>)
    requires FieldAt(s, at, data) && Holds(data, counts)
    ensures CountsAt(s, at, counts) && at + 8 * |counts| <= |s|
  {
    FieldFits(s, at, data);
    hide Number, FieldAt;
    forall c: nat | c < |counts| ensures at + 8 * c + 8 <= |s| && Number(s, at + 8 * c, 8) == counts[c] {
      CountRead(s, at, data, counts, c);
    }
  }

  lemma ReadFunctionMeans(s: seq<Byte>, len: nat, n: nat, counts: seq<int>)
    requires var at := 8 + len + 4 - len % 4;
             && |s| >= at + 12 + 8 * n && |counts| == n
             && Number(s, 0, 4) == -1 && Number(s, 4, 4) == len && AllZero(s[8 + len..at]) && Number(s, at, 4) == -1
             && Number(s, at + 8, 4) == n
             && CountsAt(s, at + 12, counts)
    ensures var at := 8 + len + 4 - len % 4;
            ReadFunction(s) == Some((FunctionRead(s[8..8 + len], Number(s, at + 4, 4), counts), at + 12 + 8 * n))
  {
    hide Number, AllZero;
    var at := 8 + len + 4 - len % 4;
    assert seq(n, c requires 0 <= c < n => Number(s, at + 12 + 8 * c, 8)) == counts;
  }

  /** Bytes laid out so are read as the function they describe. */
  lemma LaidOutReads(s: seq<Byte>, fn: Function, data: seq<Byte>, counts: seq<int>)
    requires LaidOut(s, fn, data) && SmallFunction(fn) && Holds(data, counts) && |counts| == fn.arcCount
    ensures ReadFunction(s) ==
            Some((FunctionRead(fn.name, fn.checksum, counts), CountersAt(fn) + 8 * fn.arcCount))
  {
    hide LaidOut, Number, AllZero, FieldAt, Padded, ReadFunction, CountsAt, Holds, SmallFunction;
    var (len, at, n) := (|fn.name|, 8 + Padded(|fn.name|), fn.arcCount);
    NumbersOf(s, fn, data);
    NameOf(s, fn, data);
    PadMeans(len);
    CountersOf(s, fn, data);
    CountsRead(s, at + 12, data, counts);
    ReadFunctionMeans(s, len, n, counts);
  }

  lemma CountersOf(s: seq<Byte>, fn: Function, data: seq<Byte>)
    requires LaidOut(s, fn, data)
    ensures FieldAt(s, 20 + Padded(|fn.name|), data)
  {
    hide FieldAt, Stored;
  }

  /** The counters of function f. */
  function Own(u: Unit, f: nat): (s: seq<int>)
    requires WellFormed(u) && f < |u.functions|
    ensures |s| == u.functions[f].arcCount
  {
    ArcsMonotone(u, f + 1, |u.functions|);
    u.counts[ArcsBefore(u, f)..ArcsBefore(u, f) + u.functions[f].arcCount]
  }

  lemma OwnHeld(u: Unit, f: nat)
    requires WellFormed(u) && Readable(u) && f < |u.functions|
    ensures Holds(Flat(Counters(u, f)), Own(u, f))
  {
    var (data, own) := (Counters(u, f), Own(u, f));
    FlatUniform(data, 8);
    forall c: nat | c < |own| ensures FieldAt(Flat(data), 8 * c, Stored(own[c], 8)) && Abs(own[c]) < LIMIT {
      OwnStored(u, f, c);
      UniformPart(data, 8, c);
    }
  }

  lemma OwnStored(u: Unit, f: nat, c: nat)
    requires WellFormed(u) && Readable(u) && f < |u.functions| && c < u.functions[f].arcCount
    ensures Counters(u, f)[c] == Stored(Own(u, f)[c], 8) && Abs(Own(u, f)[c]) < LIMIT
  {
    hide Stored;
    ArcsMonotone(u, f + 1, |u.functions|);
    assert Own(u, f)[c] == u.counts[ArcsBefore(u, f) + c];
    assert Counters(u, f)[c] == CounterBytes(u, f, c);
  }

  /** One function is read back, and the reader stands behind it. */
  lemma FunctionReadsBack(u: Unit, f: nat, rest: seq<Byte>)
    requires WellFormed(u) && Readable(u) && f < |u.functions|
    ensures ReadFunction(FunctionData(u, f) + rest) ==
            Some((FunctionRead(u.functions[f].name, u.functions[f].checksum, Own(u, f)), |FunctionData(u, f)|))
  {
    assert SmallFunction(u.functions[f]);
    hide LaidOut, Holds, ReadFunction, FunctionData, Counters, Flat, Own, SmallFunction, CountersAt;
    FunctionLaidOut(u, f, rest);
    OwnHeld(u, f);
    LaidOutReads(FunctionData(u, f) + rest, u.functions[f], Flat(Counters(u, f)), Own(u, f));
  }

  lemma {:induction false} FlatFront(parts: seq<seq<Byte>>)
    requires parts != []
    ensures Flat(parts) == parts[0] + Flat(parts[1..])
    decreases |parts|
  {
    var n := |parts| - 1;
    if n > 0 {
      FlatFront(parts[..n]);
      assert parts[..n][1..] == parts[1..][..n - 1];
    }
  }

  lemma {:induction false} FunctionsReadBack(u: Unit, f: nat)
    requires WellFormed(u) && Readable(u) && f <= |u.functions|
    ensures ArcsBefore(u, f) <= |u.counts|
    ensures ReadFunctions(Flat(FunctionParts(u)[f..]), |u.functions| - f) ==
            Some(Contents(u.functions[f..], u.counts[ArcsBefore(u, f)..]))
    decreases |u.functions| - f
  {
    ArcsMonotone(u, f, |u.functions|);
    if f < |u.functions| {
      FunctionsReadBack(u, f + 1);
      FlatFront(FunctionParts(u)[f..]);
      FunctionReadsBack(u, f, Flat(FunctionParts(u)[f + 1..]));
      ContentsNext(u, f);
      var (d, rest) := (FunctionData(u, f), Flat(FunctionParts(u)[f + 1..]));
      assert FunctionParts(u)[f..][1..] == FunctionParts(u)[f + 1..];
      hide FunctionData, ReadFunction, Contents, Flat, Own, WellFormed, Readable;
      ReadOnce(d, rest, |u.functions| - f);
    }
  }

  lemma ReadOnce(d: seq<Byte>, rest: seq<Byte>, n: nat)
    requires n > 0 && ReadFunction(d + rest).Some? && ReadFunction(d + rest).value.1 == |d|
    requires ReadFunctions(rest, n - 1).Some?
    ensures ReadFunctions(d + rest, n) == Some([ReadFunction(d + rest).value.0] + ReadFunctions(rest, n - 1).value)
  {
    hide ReadFunction;
    assert (d + rest)[|d|..] == rest;
  }

  lemma ContentsNext(u: Unit, f: nat)
    requires WellFormed(u) && f < |u.functions|
    ensures ArcsBefore(u, f) <= |u.counts| && ArcsBefore(u, f + 1) <= |u.counts|
    ensures Contents(u.functions[f..], u.counts[ArcsBefore(u, f)..]) ==
            [FunctionRead(u.functions[f].name, u.functions[f].checksum, Own(u, f))] +
            Contents(u.functions[f + 1..], u.counts[ArcsBefore(u, f + 1)..])
  {
    ArcsMonotone(u, f + 1, |u.functions|);
    var (n, rest) := (u.functions[f].arcCount, u.counts[ArcsBefore(u, f)..]);
    assert u.functions[f..][1..] == u.functions[f + 1..];
    assert rest[n..] == u.counts[ArcsBefore(u, f + 1)..];
    assert rest[..n] == Own(u, f);
  }

  /** The file of a unit whose numbers are small enough is read back as what the unit holds: every function with its name
      and checksum, and all the counters in order, each with its function. */
  lemma FileReadsBack(u: Unit)
    requires WellFormed(u) && Readable(u)
    ensures ReadFile(File(u)) == Some(Contents(u.functions, u.counts))
  {
    HalfValues();
    var s := File(u);
    assert FieldAt(s, 0, Stored(-123, 4)) && FieldAt(s, 4, Stored(|u.functions|, 4)) && FieldAt(s, 8, Stored(0, 4));
    assert s[12..] == Flat(FunctionParts(u));
    assert FunctionParts(u)[0..] == FunctionParts(u) && u.functions[0..] == u.functions && u.counts[0..] == u.counts;
    FunctionsReadBack(u, 0);
    hide Half, Stored, File, Number, ReadFunctions, Contents, FunctionParts;
    NumberAt(s, 0, 4, -123);
    NumberAt(s, 4, 4, |u.functions|);
    NumberAt(s, 8, 4, 0);
  }
}
