/**
 The coverage data file of one compilation unit as gcc 3.3 lays it out, and the reader that
 generates any stretch of it, remembering between rounds which function it was at.
 */
module Gcov33 {
  import opened Arith
  import opened Bytes

  // ----- Portable integers -----

  function Pow256(n: nat): (p: nat)
    ensures p > 0
  {
    if n == 0 then 1 else 256 * Pow256(n - 1)
  }

  /** n bytes, least significant first. */
  function LittleEndian(n: nat, x: nat): (b: seq<Byte>)
    ensures |b| == n
  {
    if n == 0 then [] else [x % 256] + LittleEndian(n - 1, x / 256)
  }

  function Value(b: seq<Byte>): nat {
    if b == [] then 0 else b[0] as int + 256 * Value(b[1..])
  }

  lemma {:induction false} ValueOfLittleEndian(n: nat, x: nat)
    ensures Value(LittleEndian(n, x)) == x % Pow256(n)
    ensures Value(LittleEndian(n, x)) < Pow256(n)
  {
    if n > 0 {
      ValueOfLittleEndian(n - 1, x / 256);
      ModProduct(x, 256, Pow256(n - 1));
    }
  }

  /** Half the range of n bytes: the weight of the sign bit. */
  function Half(n: nat): (h: nat)
    requires n > 0
    ensures h > 0 && 2 * h == Pow256(n)
  {
    128 * Pow256(n - 1)
  }

  function Abs(v: int): nat {
    if v < 0 then -v else v
  }

  /** Whether store_gcov_type reports success. */
  predicate Stores(v: int, n: nat) {
    Abs(v) < Pow256(n)
  }

  /** What store_gcov_type leaves in its n bytes: the magnitude without its top bit, and the sign
      in the top bit if it got that far. */
  function Stored(v: int, n: nat): (b: seq<Byte>)
    requires n > 0
    ensures |b| == n
  {
    LittleEndian(n, Abs(v) % Half(n) + if v < 0 && Stores(v, n) then Half(n) else 0)
  }

  /** Reading the bytes back. */
  function Loaded(b: seq<Byte>): int
    requires |b| > 0
  {
    var x := Value(b);
    if x < Half(|b|) then x else -(x - Half(|b|))
  }

  /** A value can be read back exactly if its magnitude leaves the sign bit alone. */
  lemma StoredExactly(v: int, n: nat)
    requires n > 0
    ensures Loaded(Stored(v, n)) == v <==> Abs(v) < Half(n)
  {
    var h := Half(n);
    var x := Abs(v) % h + if v < 0 && Stores(v, n) then h else 0;
    assert x < Pow256(n);
    ValueOfLittleEndian(n, x);
    ModUnique(x, Pow256(n), 0, x);
    if Abs(v) < h {
      ModUnique(Abs(v), h, 0, Abs(v));
    }
  }

  /** Success is reported for some values that cannot be read back: exactly those that need the top bit. */
  lemma SuccessIsNotEnough(v: int, n: nat)
    requires n > 0
    ensures Stores(v, n) && Loaded(Stored(v, n)) != v <==> Half(n) <= Abs(v) < 2 * Half(n)
  {
    StoredExactly(v, n);
  }

  lemma {:induction false} LittleEndianAppend(n: nat, x: nat)
    ensures LittleEndian(n + 1, x) == LittleEndian(n, x) + [(x / Pow256(n)) % 256]
  {
    if n > 0 {
      LittleEndianAppend(n - 1, x / 256);
      ModProduct(x, 256, Pow256(n - 1));
    }
  }

  /** Only the remainder matters to n bytes. */
  lemma {:induction false} LittleEndianSame(n: nat, x: nat, y: nat)
    requires x % Pow256(n) == y % Pow256(n)
    ensures LittleEndian(n, x) == LittleEndian(n, y)
  {
    if n > 0 {
      var p := Pow256(n - 1);
      ModProduct(x, 256, p);
      ModProduct(y, 256, p);
      var a, b := (x / 256) % p, (y / 256) % p;
      assert x % 256 + 256 * a == y % 256 + 256 * b;
      LittleEndianSame(n - 1, x / 256, y / 256);
    }
  }

  /** The bytes of a magnitude with its top bit replaced by s. */
  lemma TopBitReplaced(n: nat, m: nat, s: nat)
    requires n > 0 && s <= 1
    ensures LittleEndian(n, m % Half(n) + s * Half(n)) ==
            LittleEndian(n - 1, m) + [(m / Pow256(n - 1)) % 128 + 128 * s]
  {
    hide Pow256, LittleEndian;
    var p := Pow256(n - 1);
    var c := (m / p) % 128 + 128 * s;
    var x := m % Half(n) + s * Half(n);
    ModProduct(m, p, 128);
    assert p * 128 == Half(n);
    assert x == p * c + m % p by {
      Distribute(p, (m / p) % 128, -(128 * s));
      assert s * Half(n) == p * (128 * s);
    }
    ModUnique(x, p, c, m % p);
    LittleEndianAppend(n - 1, x);
    LittleEndianSame(n - 1, x, m);
  }

  const LIMIT := 0x8000_0000_0000_0000

  /** The counter type. */
  type Long = v: int | -LIMIT <= v < LIMIT

  /** Division by 256 as the program does it, towards zero. */
  function Quotient(v: int): int {
    if v < 0 then -(-v / 256) else v / 256
  }

  /** What the program works with: the magnitude or, of the most negative value, which is its own negative,
      that value. */
  predicate Workable(v: int) {
    0 <= v < LIMIT || v == -LIMIT
  }

  lemma {:induction false} LimitDigits(i: nat)
    requires i < 8
    ensures LIMIT / Pow256(i) % 256 == if i == 7 then 128 else 0
    ensures LIMIT / Pow256(i + 1) == 0 <==> i == 7
  {
    if i == 0 {
    } else if i == 1 {
    } else if i == 2 {
    } else if i == 3 {
    } else if i == 4 {
    } else if i == 5 {
    } else if i == 6 {
    }
  }

  /** The loop of store_gcov_type: n bytes of a magnitude, the last without its top bit, and what is left. */
  method StoreDigits(v: int, n: nat) returns (rest: int, data: seq<Byte>)
    requires 0 < n <= 8 && Workable(v)
    ensures Abs(rest) == Abs(v) / Pow256(n) && rest != -1
    ensures data == LittleEndian(n - 1, Abs(v)) + [(Abs(v) / Pow256(n - 1)) % 128]
  {
    hide Pow256, LittleEndian;
    ghost var m := Abs(v);
    rest, data := v, [];
    PowerZero();
    for i := 0 to n
      invariant Abs(rest) == m / Pow256(i) && (v >= 0 ==> rest >= 0) && (v < 0 ==> rest <= 0)
      invariant i < n ==> data == LittleEndian(i, m)
      invariant i == n ==> data == LittleEndian(n - 1, m) + [(m / Pow256(n - 1)) % 128]
    {
      DigitOf(v, rest, i);
      data := data + [rest % if i == n - 1 then 128 else 256];
      LittleEndianAppend(i, m);
      PowerNext(m, i);
      rest := Quotient(rest);
    }
    if v < 0 {
      LimitRest(n);
    }
  }

  lemma PowerZero()
    ensures Pow256(0) == 1 && forall x: nat :: LittleEndian(0, x) == []
  {
  }

  lemma PowerNext(m: nat, i: nat)
    ensures m / Pow256(i) / 256 == m / Pow256(i + 1)
  {
    ModProduct(m, Pow256(i), 256);
    assert Pow256(i) * 256 == Pow256(i + 1);
  }

  /** A byte of what is left is a byte of the magnitude. */
  lemma DigitOf(v: int, rest: int, i: nat)
    requires Workable(v) && i < 8 && Abs(rest) == Abs(v) / Pow256(i)
    requires (v >= 0 ==> rest >= 0) && (v < 0 ==> rest <= 0)
    ensures rest % 128 == Abs(v) / Pow256(i) % 128
    ensures i < 7 ==> rest % 256 == Abs(v) / Pow256(i) % 256
  {
    hide Pow256;
    if v < 0 {
      LimitDigits(i);
      NegativeDigit(-rest);
    }
  }

  lemma NegativeDigit(x: int)
    requires x % 256 == 0 || x % 256 == 128
    ensures (-x) % 128 == x % 128 == 0 && (-x) % 256 == x % 256
  {
    var q, h := x / 256, x % 256 / 128;
    assert x == 256 * q + 128 * h;
    ModUnique(x, 128, 2 * q + h, 0);
    ModUnique(-x, 128, -(2 * q + h), 0);
    ModUnique(-x, 256, -(q + h), 128 * h);
  }

  /** What is left of the most negative value is not taken for the end of a negative number. */
  lemma LimitRest(n: nat)
    requires 0 < n <= 8
    ensures LIMIT / Pow256(n) != 1
  {
    if n < 8 {
      LimitDigits(n);
    } else {
      LimitDigits(7);
    }
  }

  /** store_gcov_type. */
  method StoreGcovType(v: Long, n: nat) returns (failed: bool, data: seq<Byte>)
    requires 0 < n <= 8
    ensures data == Stored(v, n) && (failed <==> !Stores(v, n))
  {
    hide Pow256, LittleEndian, Half;
    var m := if -LIMIT < v < 0 then -v else v;
    var rest, digits := StoreDigits(m, n);
    ZeroQuotient(Abs(v), Pow256(n));
    failed := rest != 0 && rest != -1;
    var top := if !failed && v < 0 then 1 else 0;
    TopBitReplaced(n, Abs(v), 0);
    TopBitReplaced(n, Abs(v), 1);
    data := digits[..n - 1] + [digits[n - 1] + 128 * top];
    assert digits[..n - 1] == LittleEndian(n - 1, Abs(v));
  }

  lemma ZeroQuotient(x: nat, m: nat)
    requires m > 0
    ensures x / m == 0 <==> x < m
  {
    if x < m {
      ModUnique(x, m, 0, x);
    }
  }

  // ----- The file -----

  /** One function: its arcs' counters are the next arcCount of the unit's counters. */
  datatype Function = Function(checksum: Long, arcCount: nat, name: seq<Byte>)

  datatype Unit = Unit(functions: seq<Function>, counts: seq<Long>)

  function ArcsBefore(u: Unit, f: nat): nat
    requires f <= |u.functions|
  {
    if f == 0 then 0 else ArcsBefore(u, f - 1) + u.functions[f - 1].arcCount
  }

  /** The counters are all there, the numbers of things fit a counter, and names have no nil byte in them. */
  predicate WellFormed(u: Unit) {
    && ArcsBefore(u, |u.functions|) <= |u.counts| && |u.functions| < LIMIT
    && forall f | 0 <= f < |u.functions| ::
         0 !in u.functions[f].name && |u.functions[f].name| < LIMIT && u.functions[f].arcCount < LIMIT
  }

  lemma {:induction false} ArcsMonotone(u: Unit, f: nat, g: nat)
    requires f <= g <= |u.functions|
    ensures ArcsBefore(u, f) <= ArcsBefore(u, g)
    decreases g - f
  {
    if f < g {
      ArcsMonotone(u, f, g - 1);
    }
  }

  /** PAD4 of a string with its terminator. */
  function Padded(length: nat): nat {
    (length + 1 + 3) / 4 * 4
  }

  function Zeros(n: nat): seq<Byte> {
    seq(n, _ => 0)
  }

  function CounterBytes(u: Unit, f: nat, c: nat): (b: seq<Byte>)
    requires WellFormed(u) && f < |u.functions| && c < u.functions[f].arcCount
    ensures |b| == 8
  {
    ArcsMonotone(u, f + 1, |u.functions|);
    Stored(u.counts[ArcsBefore(u, f) + c], 8)
  }

  function Counters(u: Unit, f: nat): (s: seq<seq<Byte>>)
    requires WellFormed(u) && f < |u.functions|
    ensures |s| == u.functions[f].arcCount && forall c | 0 <= c < |s| :: |s[c]| == 8
  {
    seq(u.functions[f].arcCount, c requires 0 <= c < u.functions[f].arcCount => CounterBytes(u, f, c))
  }

  const FIELDS := 8

  /** The fields of a function's part of the file: delimiter, length, name, padding, delimiter,
      checksum, number of arcs, counters. */
  function Field(u: Unit, f: nat, k: nat): seq<Byte>
    requires WellFormed(u) && f < |u.functions| && k < FIELDS
  {
    var fn := u.functions[f];
    match k
    case 0 => Stored(-1, 4)
    case 1 => Stored(|fn.name|, 4)
    case 2 => fn.name
    case 3 => Zeros(Padded(|fn.name|) - |fn.name|)
    case 4 => Stored(-1, 4)
    case 5 => Stored(fn.checksum, 4)
    case 6 => Stored(fn.arcCount, 4)
    case _ => Flat(Counters(u, f))
  }

  function FieldSize(fn: Function, k: nat): nat
    requires k < FIELDS
  {
    match k
    case 2 => |fn.name|
    case 3 => Padded(|fn.name|) - |fn.name|
    case 7 => fn.arcCount * 8
    case _ => 4
  }

  function Fields(u: Unit, f: nat): seq<seq<Byte>>
    requires WellFormed(u) && f < |u.functions|
  {
    seq(FIELDS, k requires 0 <= k < FIELDS => Field(u, f, k))
  }

  function FieldStart(fn: Function, k: nat): nat
    requires k <= FIELDS
  {
    if k == 0 then 0 else FieldStart(fn, k - 1) + FieldSize(fn, k - 1)
  }

  lemma FieldStartValues(fn: Function)
    ensures FieldStart(fn, 0) == 0 && FieldStart(fn, 1) == 4 && FieldStart(fn, 2) == 8
    ensures FieldStart(fn, 3) == 8 + |fn.name| && FieldStart(fn, 4) == 8 + Padded(|fn.name|)
    ensures FieldStart(fn, 5) == 12 + Padded(|fn.name|) && FieldStart(fn, 6) == 16 + Padded(|fn.name|)
    ensures FieldStart(fn, 7) == 20 + Padded(|fn.name|)
    ensures FieldStart(fn, FIELDS) == 20 + Padded(|fn.name|) + fn.arcCount * 8
  {
    assert FieldStart(fn, 3) == FieldStart(fn, 2) + |fn.name|;
    assert FieldStart(fn, 4) == FieldStart(fn, 3) + FieldSize(fn, 3);
    assert FieldStart(fn, 6) == FieldStart(fn, 5) + FieldSize(fn, 5);
    assert FieldStart(fn, 8) == FieldStart(fn, 7) + FieldSize(fn, 7);
  }

  /** A function's part of the file. */
  function FunctionData(u: Unit, f: nat): seq<Byte>
    requires WellFormed(u) && f < |u.functions|
  {
    Flat(Fields(u, f))
  }

  lemma FieldLength(u: Unit, f: nat, k: nat)
    requires WellFormed(u) && f < |u.functions| && k < FIELDS
    ensures |Field(u, f, k)| == FieldSize(u.functions[f], k)
  {
    FlatUniform(Counters(u, f), 8);
  }

  lemma {:induction false} FieldStarts(u: Unit, f: nat, k: nat)
    requires WellFormed(u) && f < |u.functions| && k <= FIELDS
    ensures Start(Fields(u, f), k) == FieldStart(u.functions[f], k)
    decreases k
  {
    if k > 0 {
      FieldStarts(u, f, k - 1);
      StartNext(Fields(u, f), k - 1);
      FieldLength(u, f, k - 1);
    }
  }

  /** Every field lies where the sizes of those before it say. */
  lemma FieldPlace(u: Unit, f: nat, k: nat)
    requires WellFormed(u) && f < |u.functions| && k < FIELDS
    ensures FieldAt(FunctionData(u, f), FieldStart(u.functions[f], k), Field(u, f, k))
    ensures |Field(u, f, k)| == FieldSize(u.functions[f], k)
  {
    FieldStarts(u, f, k);
    FieldLength(u, f, k);
    FlatPart(Fields(u, f), k);
  }

  function FunctionParts(u: Unit): seq<seq<Byte>>
    requires WellFormed(u)
  {
    seq(|u.functions|, f requires 0 <= f < |u.functions| => FunctionData(u, f))
  }

  function Header(u: Unit): (h: seq<Byte>)
    requires WellFormed(u)
    ensures |h| == 12
  {
    Stored(-123, 4) + Stored(|u.functions|, 4) + Stored(0, 4)
  }

  /** The whole data file. */
  function File(u: Unit): seq<Byte>
    requires WellFormed(u)
  {
    Header(u) + Flat(FunctionParts(u))
  }

  /** sizeof_func_info. */
  function SizeofFuncInfo(fn: Function): nat {
    4 + 4 + Padded(|fn.name|) + 4 + 4 + 4 + fn.arcCount * 8
  }

  function SizeofFuncs(u: Unit, f: nat): nat
    requires f <= |u.functions|
  {
    if f == 0 then 0 else SizeofFuncs(u, f - 1) + SizeofFuncInfo(u.functions[f - 1])
  }

  /** sizeof_da_file. */
  function SizeofDaFile(u: Unit): nat {
    12 + SizeofFuncs(u, |u.functions|)
  }

  lemma FunctionLength(u: Unit, f: nat)
    requires WellFormed(u) && f < |u.functions|
    ensures |FunctionData(u, f)| == SizeofFuncInfo(u.functions[f]) == FieldStart(u.functions[f], FIELDS)
  {
    FieldStarts(u, f, FIELDS);
    FieldStartValues(u.functions[f]);
    assert Fields(u, f)[..FIELDS] == Fields(u, f);
  }

  lemma {:induction false} FunctionsLength(u: Unit, f: nat)
    requires WellFormed(u) && f <= |u.functions|
    ensures Start(FunctionParts(u), f) == SizeofFuncs(u, f)
    decreases f
  {
    if f > 0 {
      FunctionsLength(u, f - 1);
      StartNext(FunctionParts(u), f - 1);
      FunctionLength(u, f - 1);
    }
  }

  /** The size the program announces is the length of the file. */
  lemma SizeIsLength(u: Unit)
    requires WellFormed(u)
    ensures SizeofDaFile(u) == |File(u)|
  {
    FunctionsLength(u, |u.functions|);
    assert FunctionParts(u)[..|u.functions|] == FunctionParts(u);
  }

  // ----- Where reading fails -----

  /** The position falls into the data of a function, and into one of its fields. */
  predicate Hits(u: Unit, p: nat, f: nat, k: nat) {
    && f < |u.functions| && k < FIELDS
    && var at := 12 + SizeofFuncs(u, f) + FieldStart(u.functions[f], k);
       at <= p < at + FieldSize(u.functions[f], k)
  }

  /** The fields whose storing is checked, and their numbers. */
  predicate Unstorable(fn: Function, k: nat) {
    || (k == 1 && !Stores(|fn.name|, 4))
    || (k == 6 && !Stores(fn.arcCount, 4))
  }

  /** The position lies in a number that four bytes do not hold. */
  ghost predicate Refused(u: Unit, p: nat) {
    || (4 <= p < 8 && !Stores(|u.functions|, 4))
    || exists f: nat, k: nat :: Hits(u, p, f, k) && Unstorable(u.functions[f], k)
  }

  lemma {:induction false} FieldStartMonotone(fn: Function, j: nat, k: nat)
    requires j <= k <= FIELDS
    ensures FieldStart(fn, j) <= FieldStart(fn, k)
    decreases k - j
  {
    if j < k {
      FieldStartMonotone(fn, j, k - 1);
    }
  }

  lemma {:induction false} FuncsMonotone(u: Unit, f: nat, g: nat)
    requires f <= g <= |u.functions|
    ensures SizeofFuncs(u, f) <= SizeofFuncs(u, g)
    decreases g - f
  {
    if f < g {
      FuncsMonotone(u, f, g - 1);
    }
  }

  lemma HitIsInside(u: Unit, p: nat, f: nat, k: nat)
    requires Hits(u, p, f, k)
    ensures 12 + SizeofFuncs(u, f) <= p < 12 + SizeofFuncs(u, f + 1)
    ensures FieldStart(u.functions[f], k) <= p - 12 - SizeofFuncs(u, f) < FieldStart(u.functions[f], k + 1)
  {
    FieldStartMonotone(u.functions[f], k + 1, FIELDS);
    FieldStartValues(u.functions[f]);
  }

  /** No position is in two fields. */
  lemma HitIsUnique(u: Unit, p: nat, f: nat, k: nat, g: nat, j: nat)
    requires Hits(u, p, f, k) && Hits(u, p, g, j)
    ensures f == g && k == j
  {
    HitIsInside(u, p, f, k);
    HitIsInside(u, p, g, j);
    if f < g {
      FuncsMonotone(u, f + 1, g);
    } else if g < f {
      FuncsMonotone(u, g + 1, f);
    } else if k < j {
      FieldStartMonotone(u.functions[f], k + 1, j);
    } else if j < k {
      FieldStartMonotone(u.functions[f], j + 1, k);
    }
  }

  /** All positions of one field fare alike. */
  lemma FieldRefused(u: Unit, p: nat, f: nat, k: nat)
    requires Hits(u, p, f, k)
    ensures Refused(u, p) <==> Unstorable(u.functions[f], k)
  {
    if Refused(u, p) {
      HitIsInside(u, p, f, k);
      var g: nat, j: nat :| Hits(u, p, g, j) && Unstorable(u.functions[g], j);
      HitIsUnique(u, p, f, k, g, j);
    }
  }

  lemma HeaderRefused(u: Unit, p: nat)
    requires p < 12
    ensures Refused(u, p) <==> 4 <= p < 8 && !Stores(|u.functions|, 4)
  {
    if f: nat, k: nat :| Hits(u, p, f, k) {
      HitIsInside(u, p, f, k);
    }
  }

  // ----- The reader -----

  /** in_range: whether the offset lies in the next size bytes; rel is its place in them, next is where
      the following range starts. */
  method InRange(offset: nat, size: nat, start: nat) returns (hit: bool, rel: int, next: nat)
    ensures hit <==> start <= offset < start + size
    ensures rel == offset - start && next == start + size
  {
    hit := offset >= start && offset < start + size;
    rel, next := offset - start, start + size;
  }

  /** The chain of in_range questions about one function: the field an offset falls into and its place there. */
  method FindField(fn: Function, off: nat) returns (k: nat, rel: nat)
    requires off < FieldStart(fn, FIELDS)
    ensures k < FIELDS && off == FieldStart(fn, k) + rel && rel < FieldSize(fn, k)
  {
    FieldStartValues(fn);
    var hit, place, start := InRange(off, 4, 0);
    k := 0;
    if !hit { k := 1; hit, place, start := InRange(off, 4, start); }
    if !hit { k := 2; hit, place, start := InRange(off, |fn.name|, start); }
    if !hit { k := 3; hit, place, start := InRange(off, Padded(|fn.name|) - |fn.name|, start); }
    if !hit { k := 4; hit, place, start := InRange(off, 4, start); }
    if !hit { k := 5; hit, place, start := InRange(off, 4, start); }
    if !hit { k := 6; hit, place, start := InRange(off, 4, start); }
    if !hit { k := 7; hit, place, start := InRange(off, fn.arcCount * 8, start); }
    rel := place;
  }

  /** A fixed field made ready for copying; failed when the program checks the storing and it fails. */
  method MakeField(u: Unit, f: nat, k: nat) returns (failed: bool, data: seq<Byte>)
    requires WellFormed(u) && f < |u.functions| && k < FIELDS - 1
    ensures data == Field(u, f, k)
    ensures failed <==> Unstorable(u.functions[f], k)
  {
    var fn := u.functions[f];
    var rc;
    failed := false;
    match k {
      case 0 => rc, data := StoreGcovType(-1, 4);
      case 1 => failed, data := StoreGcovType(|fn.name|, 4);
      case 2 => data := fn.name;
      case 3 => data := Zeros(Padded(|fn.name|) - |fn.name|);
      case 4 => rc, data := StoreGcovType(-1, 4);
      case 5 => rc, data := StoreGcovType(fn.checksum, 4);
      case _ => failed, data := StoreGcovType(fn.arcCount, 4);
    }
  }

  /** The counter at a place among a function's counters. */
  method MakeCounter(u: Unit, f: nat, countPtr: nat, rel: nat) returns (failed: bool, data: seq<Byte>)
    requires WellFormed(u) && f < |u.functions| && countPtr == ArcsBefore(u, f) && rel < u.functions[f].arcCount * 8
    ensures data == CounterBytes(u, f, rel / 8) && !failed
  {
    ArcsMonotone(u, f + 1, |u.functions|);
    var v := u.counts[countPtr + rel / 8];
    assert LIMIT <= Pow256(8);
    failed, data := StoreGcovType(v, 8);
  }

  /** The counters of a function, eight bytes each. */
  lemma CounterStretch(u: Unit, f: nat, rel: nat)
    requires WellFormed(u) && f < |u.functions| && rel < u.functions[f].arcCount * 8
    ensures SameStretch(Flat(Counters(u, f)), rel, CounterBytes(u, f, rel / 8), rel % 8, 8 - rel % 8)
  {
    var all, c := Counters(u, f), rel / 8;
    UniformPart(all, 8, c);
    assert all[c] == CounterBytes(u, f, c);
    StretchOfField(Flat(all), c * 8, all[c], rel % 8);
  }

  /** Zeros may be copied from their beginning whatever the place among them. */
  lemma ZeroStretch(n: nat, rel: nat)
    requires rel <= n
    ensures SameStretch(Zeros(n), rel, Zeros(n), 0, n - rel)
  {
  }

  lemma StretchOfFunction(u: Unit, f: nat, k: nat, rel: nat, data: seq<Byte>, from: nat, len: nat)
    requires WellFormed(u) && f < |u.functions| && k < FIELDS
    requires SameStretch(Field(u, f, k), rel, data, from, len)
    ensures SameStretch(FunctionData(u, f), FieldStart(u.functions[f], k) + rel, data, from, len)
  {
    FieldPlace(u, f, k);
    StretchWithin(FunctionData(u, f), FieldStart(u.functions[f], k), Field(u, f, k), rel, data, from, len);
  }

  /** What a function has at an offset into its part of the file: len bytes of data at from, all of one field. */
  method FunctionField(u: Unit, f: nat, countPtr: nat, off: nat)
      returns (failed: bool, data: seq<Byte>, from: nat, len: nat, ghost k: nat)
    requires WellFormed(u) && f < |u.functions| && countPtr == ArcsBefore(u, f)
    requires off < SizeofFuncInfo(u.functions[f])
    ensures k < FIELDS && FieldStart(u.functions[f], k) <= off
    ensures off + len <= FieldStart(u.functions[f], k) + FieldSize(u.functions[f], k)
    ensures len > 0 && SameStretch(FunctionData(u, f), off, data, from, len)
    ensures failed <==> Unstorable(u.functions[f], k)
  {
    FunctionLength(u, f);
    var field, rel := FindField(u.functions[f], off);
    k := field;
    FieldLength(u, f, field);
    if field == 7 {
      failed, data := MakeCounter(u, f, countPtr, rel);
      from, len := rel % 8, 8 - rel % 8;
      CounterStretch(u, f, rel);
    } else {
      failed, data := MakeField(u, f, field);
      from, len := if field == 3 then 0 else rel, |data| - rel;
      if field == 3 {
        ZeroStretch(|data|, rel);
      } else {
        assert FieldAt(data, 0, data);
        StretchOfField(data, 0, data, rel);
      }
    }
    StretchOfFunction(u, f, field, rel, data, from, len);
  }

  /** Where the search for a function stands: none yet, or a function with its place in the file and its counters. */
  datatype Cursor = NoFunction | At(func: nat, off: nat, countPtr: nat)

  ghost predicate CursorOk(u: Unit, c: Cursor) {
    c.At? ==> c.func <= |u.functions| && c.off == SizeofFuncs(u, c.func) && c.countPtr == ArcsBefore(u, c.func)
  }

  /** The function hit by an offset, searched for from where the last search ended when that is not past it. */
  method FindFunction(u: Unit, c0: Cursor, rel: nat) returns (c: Cursor)
    requires CursorOk(u, c0) && rel < SizeofFuncs(u, |u.functions|)
    ensures CursorOk(u, c) && c.At? && c.func < |u.functions|
    ensures SizeofFuncs(u, c.func) <= rel < SizeofFuncs(u, c.func + 1)
  {
    c := c0;
    if !(c.At? && c.off <= rel) {
      c := At(0, 0, 0);
    }
    while c.func < |u.functions|
      invariant CursorOk(u, c) && c.At? && c.off <= rel
      decreases |u.functions| - c.func
    {
      var nextOff := c.off + SizeofFuncInfo(u.functions[c.func]);
      if nextOff > rel {
        break;
      }
      c := At(c.func + 1, nextOff, c.countPtr + u.functions[c.func].arcCount);
    }
  }

  method HeaderField(u: Unit, offset: nat) returns (failed: bool, data: seq<Byte>, from: nat, len: nat)
    requires WellFormed(u) && offset < 12
    ensures len == 4 - offset % 4 && SameStretch(File(u), offset, data, from, len)
    ensures failed <==> 4 <= offset < 8 && !Stores(|u.functions|, 4)
  {
    failed := false;
    var rc;
    var hit, rel, start := InRange(offset, 4, 0);
    if hit {
      failed, data := StoreGcovType(-123, 4);
    } else {
      hit, rel, start := InRange(offset, 4, start);
      if hit {
        failed, data := StoreGcovType(|u.functions|, 4);
      } else {
        hit, rel, start := InRange(offset, 4, start);
        rc, data := StoreGcovType(0, 4);
      }
    }
    from, len := rel, 4 - rel;
  }

  lemma AfterHeader(header: seq<Byte>, rest: seq<Byte>)
    ensures FieldAt(header + rest, |header|, rest)
  {
  }

  lemma FunctionPlace(u: Unit, f: nat)
    requires WellFormed(u) && f < |u.functions|
    ensures FieldAt(File(u), 12 + SizeofFuncs(u, f), FunctionData(u, f))
  {
    var parts := FunctionParts(u);
    FunctionsLength(u, f);
    FlatPart(parts, f);
    assert parts[f] == FunctionData(u, f);
    AfterHeader(Header(u), Flat(parts));
    FieldWithin(File(u), 12, Flat(parts), SizeofFuncs(u, f), FunctionData(u, f));
  }

  /** Whether the positions from lo up to hi are refused, all alike. */
  ghost predicate Alike(u: Unit, lo: nat, hi: nat, refused: bool) {
    forall p: nat | lo <= p < hi :: Refused(u, p) <==> refused
  }

  lemma HeaderAlike(u: Unit, offset: nat)
    requires offset < 12
    ensures Alike(u, offset, offset + 4 - offset % 4, 4 <= offset < 8 && !Stores(|u.functions|, 4))
  {
    forall p: nat | offset <= p < offset + 4 - offset % 4
      ensures Refused(u, p) <==> 4 <= offset < 8 && !Stores(|u.functions|, 4)
    {
      HeaderRefused(u, p);
    }
  }

  lemma FieldAlike(u: Unit, f: nat, k: nat, off: nat, len: nat)
    requires f < |u.functions| && k < FIELDS && FieldStart(u.functions[f], k) <= off
    requires off + len <= FieldStart(u.functions[f], k) + FieldSize(u.functions[f], k)
    ensures Alike(u, 12 + SizeofFuncs(u, f) + off, 12 + SizeofFuncs(u, f) + off + len, Unstorable(u.functions[f], k))
  {
    var at := 12 + SizeofFuncs(u, f) + off;
    forall p: nat | at <= p < at + len ensures Refused(u, p) <==> Unstorable(u.functions[f], k) {
      FieldRefused(u, p, f, k);
    }
  }

  lemma StretchOfFile(u: Unit, f: nat, off: nat, data: seq<Byte>, from: nat, len: nat)
    requires WellFormed(u) && f < |u.functions| && SameStretch(FunctionData(u, f), off, data, from, len)
    ensures SameStretch(File(u), 12 + SizeofFuncs(u, f) + off, data, from, len)
  {
    FunctionPlace(u, f);
    StretchWithin(File(u), 12 + SizeofFuncs(u, f), FunctionData(u, f), off, data, from, len);
  }

  /** One round of reading function data: the bytes at an offset into the file, all of one field. */
  method ReadFunction(u: Unit, c0: Cursor, offset: nat)
      returns (failed: bool, data: seq<Byte>, from: nat, len: nat, c: Cursor)
    requires WellFormed(u) && CursorOk(u, c0) && 12 <= offset < SizeofDaFile(u)
    ensures CursorOk(u, c)
    ensures len > 0 && SameStretch(File(u), offset, data, from, len)
    ensures Alike(u, offset, offset + len, failed)
  {
    c := FindFunction(u, c0, offset - 12);
    ghost var k;
    failed, data, from, len, k := FunctionField(u, c.func, c.countPtr, offset - c.off - 12);
    StretchOfFile(u, c.func, offset - c.off - 12, data, from, len);
    FieldAlike(u, c.func, k, offset - c.off - 12, len);
  }

  /** Nothing is refused past the end of the file. */
  lemma NoneBeyond(u: Unit, lo: nat, hi: nat)
    requires lo >= SizeofDaFile(u)
    ensures Alike(u, lo, hi, false)
  {
    forall p: nat, f: nat, k: nat | p >= lo && Hits(u, p, f, k) ensures false {
      HitIsInside(u, p, f, k);
      FuncsMonotone(u, f + 1, |u.functions|);
    }
  }

  /** store_da_file: at most count0 bytes of the file from offset0. It fails exactly when one of those bytes
      belongs to a number that cannot be stored. */
  method StoreDaFile(u: Unit, count0: nat, offset0: nat) returns (failed: bool, out: seq<Byte>)
    requires WellFormed(u)
    ensures !failed ==> out == Slice(File(u), offset0, count0)
    ensures !failed <==> Alike(u, offset0, offset0 + count0, false)
  {
    ghost var s := File(u);
    SizeIsLength(u);
    var count, offset, c := count0, offset0, NoFunction;
    out, failed := [], false;
    while count > 0
      invariant offset == offset0 + |out| && count == count0 - |out|
      invariant |out| <= count0 && out == Slice(s, offset0, |out|) && CursorOk(u, c)
      invariant Alike(u, offset0, offset, false)
      decreases count
    {
      var data, from, len;
      if offset < 12 {
        failed, data, from, len := HeaderField(u, offset);
        HeaderAlike(u, offset);
      } else if offset < SizeofDaFile(u) {
        failed, data, from, len, c := ReadFunction(u, c, offset);
      } else {
        SliceAtEnd(s, offset0, |out|, count0);
        NoneBeyond(u, offset, offset0 + count0);
        break;
      }
      if failed {
        assert Refused(u, offset);
        return;
      }
      var part := Min(len, count);
      StretchCopied(s, offset0, |out|, data, from, len, part);
      out := out + data[from..from + part];
      count, offset := count - part, offset + part;
    }
  }
}
