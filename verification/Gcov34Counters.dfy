/**
 Which of the stored counters the sections of a gcc 3.4 data file show: every one of them once and in order.
 */
module Gcov34Counters {
  import opened Arith
  import opened Words
  import opened Gcov34

  /** The active counter types below n, ascending. */
  function ActiveTypes(u: Unit, n: nat): (s: seq<nat>)
    ensures forall i | 0 <= i < |s| :: s[i] < n && Active(u, s[i])
    ensures forall t: nat | t < n && Active(u, t) :: t in s
    ensures forall i, j | 0 <= i < j < |s| :: s[i] < s[j]
  {
    if n == 0 then [] else ActiveTypes(u, n - 1) + if Active(u, n - 1) then [n - 1] else []
  }

  lemma {:induction false} TypePlace(u: Unit, n: nat, i: nat)
    ensures |ActiveTypes(u, n)| == ActiveBelow(u, n)
    ensures i < |ActiveTypes(u, n)| ==> ActiveBelow(u, ActiveTypes(u, n)[i]) == i
  {
    if n > 0 {
      TypePlace(u, n - 1, i);
    }
  }

  /** The counters of type t that the section of function f shows. */
  function SectionCounters(u: Unit, f: nat, t: nat): seq<DWord>
    requires WellFormed(u) && f < u.nFunctions && t < GCOV_COUNTERS && Active(u, t)
  {
    seq(NCtrs(u, f, t), c requires 0 <= c < NCtrs(u, f, t) => Counter(u, f, t, c))
  }

  /** Those of the functions before f, one function after the other. */
  function Shown(u: Unit, f: nat, t: nat): seq<DWord>
    requires WellFormed(u) && f <= u.nFunctions && t < GCOV_COUNTERS && Active(u, t)
  {
    if f == 0 then [] else Shown(u, f - 1, t) + SectionCounters(u, f - 1, t)
  }

  lemma {:induction false} ShownIsPrefix(u: Unit, f: nat, t: nat)
    requires WellFormed(u) && f <= u.nFunctions && t < GCOV_COUNTERS && Active(u, t)
    ensures |Shown(u, f, t)| == CountersBefore(u, f, t) <= |u.values[ActiveBelow(u, t)]|
    ensures Shown(u, f, t) == u.values[ActiveBelow(u, t)][..|Shown(u, f, t)|]
    decreases f
  {
    hide Active, ActiveBelow, NCtrs, RecordsPresent;
    CountersBeforeMonotone(u, f, u.nFunctions, t);
    if f > 0 {
      ShownIsPrefix(u, f - 1, t);
    }
  }

  /** The i-th array of counters belongs to the i-th active type, and the sections of the functions, one after the other and
      each with as many counters as its function's record says, show it from its beginning: every counter once, in order. */
  lemma CountersPartition(u: Unit, i: nat)
    requires WellFormed(u) && i < |ActiveTypes(u, GCOV_COUNTERS)|
    ensures var t := ActiveTypes(u, GCOV_COUNTERS)[i]; var shown := Shown(u, u.nFunctions, t);
            i < |u.values| && shown <= u.values[i]
  {
    var t := ActiveTypes(u, GCOV_COUNTERS)[i];
    TypePlace(u, GCOV_COUNTERS, i);
    ShownIsPrefix(u, u.nFunctions, t);
  }

  /** Counter c of a function's section is the stored counter with that number after those of the functions before it. */
  lemma CounterPlace(u: Unit, i: nat, f: nat, c: nat)
    requires WellFormed(u) && i < |ActiveTypes(u, GCOV_COUNTERS)| && f < u.nFunctions
    requires c < NCtrs(u, f, ActiveTypes(u, GCOV_COUNTERS)[i])
    ensures var t := ActiveTypes(u, GCOV_COUNTERS)[i];
            && i < |u.values| && |Shown(u, f, t)| + c < |u.values[i]|
            && Counter(u, f, t, c) == u.values[i][|Shown(u, f, t)| + c]
  {
    hide ActiveTypes, Shown, Active, ActiveBelow, NCtrs, Counter, WellFormed;
    TypePlace(u, GCOV_COUNTERS, i);
    PlaceOfType(u, ActiveTypes(u, GCOV_COUNTERS)[i], f, c);
  }

  lemma PlaceOfType(u: Unit, t: nat, f: nat, c: nat)
    requires WellFormed(u) && t < GCOV_COUNTERS && Active(u, t) && f < u.nFunctions && c < NCtrs(u, f, t)
    ensures var k := ActiveBelow(u, t);
            && k < |u.values| && |Shown(u, f, t)| + c < |u.values[k]|
            && Counter(u, f, t, c) == u.values[k][|Shown(u, f, t)| + c]
  {
    hide Shown, Active, ActiveBelow, NCtrs, RecordsPresent;
    ShownIsPrefix(u, f, t);
    CountersBeforeMonotone(u, f + 1, u.nFunctions, t);
  }

  // ----- The function records -----

  /** A type is active exactly if its bit is in the mask. */
  lemma {:induction false} ActiveExactly(u: Unit, t: nat)
    ensures Active(u, t) <==> BitAt(u.ctrMask, t)
  {
    ShiftedBit(u.ctrMask, t);
  }

  lemma {:induction false} ShiftedBit(m: nat, t: nat)
    ensures m / Pow2(t) % 2 == 1 <==> BitAt(m, t)
  {
    if t > 0 {
      ShiftedBit(m / 2, t - 1);
      ModProduct(m, 2, Pow2(t - 1));
    }
  }

  /** Records one after the other. */
  function InRow(records: seq<seq<Word>>): seq<Word> {
    if records == [] then [] else InRow(records[..|records| - 1]) + records[|records| - 1]
  }

  /** The memory of the function records: of each function the identifier, the checksum, and a count for every active type. */
  predicate LaidInRow(u: Unit, records: seq<seq<Word>>) {
    && |records| == u.nFunctions && u.functions == InRow(records)
    && forall f | 0 <= f < |records| :: |records[f]| == 2 + |ActiveTypes(u, GCOV_COUNTERS)|
  }

  lemma {:induction false} InRowAt(records: seq<seq<Word>>, w: nat, f: nat, k: nat)
    requires f < |records| && k < w && forall i | 0 <= i < |records| :: |records[i]| == w
    ensures |InRow(records)| == |records| * w && f * w + k < |InRow(records)| && InRow(records)[f * w + k] == records[f][k]
    decreases |records|
  {
    var n := |records| - 1;
    InRowLength(records, w);
    InRowLength(records[..n], w);
    LessThanMultiple(w, f, |records|, k);
    if f < n {
      InRowAt(records[..n], w, f, k);
    }
  }

  lemma {:induction false} InRowLength(records: seq<seq<Word>>, w: nat)
    requires forall i | 0 <= i < |records| :: |records[i]| == w
    ensures |InRow(records)| == |records| * w
  {
    if records != [] {
      var n := |records| - 1;
      InRowLength(records[..n], w);
      assert |InRow(records)| == |InRow(records[..n])| + w;
      hide InRow;
      OneMore(n, w);
    }
  }

  lemma OneMore(n: nat, w: nat)
    ensures (n + 1) * w == n * w + w
  {
  }

  /** Every word of a function's record is found where the reader looks for it. */
  lemma RecordAt(u: Unit, records: seq<seq<Word>>, f: nat, k: nat)
    requires LaidInRow(u, records) && f < u.nFunctions && k < |records[f]|
    ensures f * Stride(u) + k < |u.functions| && RecordWord(u, f, k) == records[f][k]
  {
    StrideIs(u);
    hide Stride, ActiveTypes, InRow;
    InRowAt(records, Stride(u), f, k);
  }

  lemma StrideIs(u: Unit)
    ensures Stride(u) == 2 + |ActiveTypes(u, GCOV_COUNTERS)|
  {
    TypePlace(u, GCOV_COUNTERS, 0);
  }

  /** The i-th active type has number i exactly if no type below it is inactive. */
  lemma {:induction false} PlaceIsType(u: Unit, n: nat, i: nat)
    requires i < |ActiveTypes(u, n)|
    ensures i <= ActiveTypes(u, n)[i]
    ensures ActiveTypes(u, n)[i] == i <==> forall s: nat | s < ActiveTypes(u, n)[i] :: Active(u, s)
  {
    var t := ActiveTypes(u, n)[i];
    TypePlace(u, n, i);
    BelowAtMost(u, t);
  }

  lemma {:induction false} BelowAtMost(u: Unit, t: nat)
    ensures ActiveBelow(u, t) <= t
    ensures ActiveBelow(u, t) == t <==> forall s: nat | s < t :: Active(u, s)
  {
    if t > 0 {
      BelowAtMost(u, t - 1);
    }
  }

  /** The count taken for the i-th active type of function f is the one at that place of its record. */
  ghost predicate OwnCount(u: Unit, records: seq<seq<Word>>, f: nat, i: nat)
    requires LaidInRow(u, records) && f < u.nFunctions && i < |ActiveTypes(u, GCOV_COUNTERS)|
  {
    var t := ActiveTypes(u, GCOV_COUNTERS)[i];
    f * Stride(u) + 2 + t < |u.functions| && NCtrs(u, f, t) == records[f][2 + i]
  }

  predicate NoneInactiveBelow(u: Unit, i: nat)
    requires i < |ActiveTypes(u, GCOV_COUNTERS)|
  {
    forall s: nat | s < ActiveTypes(u, GCOV_COUNTERS)[i] :: Active(u, s)
  }

  lemma CountEntry(u: Unit, records: seq<seq<Word>>, f: nat, i: nat)
    requires LaidInRow(u, records) && f < u.nFunctions && i < |ActiveTypes(u, GCOV_COUNTERS)| && NoneInactiveBelow(u, i)
    ensures OwnCount(u, records, f, i)
  {
    PlaceIsType(u, GCOV_COUNTERS, i);
    RecordAt(u, records, f, 2 + i);
  }

  /** The unit with this memory for function records. */
  function WithRecords(u: Unit, records: seq<seq<Word>>): Unit {
    u.(nFunctions := |records|, functions := InRow(records))
  }

  lemma {:induction false} SameTypes(u: Unit, u': Unit, n: nat)
    requires u'.ctrMask == u.ctrMask
    ensures ActiveTypes(u', n) == ActiveTypes(u, n)
  {
    if n > 0 {
      SameTypes(u, u', n - 1);
    }
  }

  /** With these records, the counts taken for the i-th active type are its own. */
  ghost predicate OwnCounts(u: Unit, records: seq<seq<Word>>, i: nat) {
    LaidInRow(WithRecords(u, records), records) ==>
      i < |ActiveTypes(WithRecords(u, records), GCOV_COUNTERS)| &&
      forall f: nat | f < |records| :: OwnCount(WithRecords(u, records), records, f, i)
  }

  lemma OwnIfNoneInactive(u: Unit, records: seq<seq<Word>>, i: nat)
    requires i < |ActiveTypes(u, GCOV_COUNTERS)| && NoneInactiveBelow(u, i)
    ensures OwnCounts(u, records, i)
  {
    var u' := WithRecords(u, records);
    SameTypes(u, u', GCOV_COUNTERS);
    assert NoneInactiveBelow(u', i) by {
      assert forall s: nat | s < ActiveTypes(u, GCOV_COUNTERS)[i] :: Active(u, s) && Active(u', s);
    }
    hide ActiveTypes, OwnCount, NoneInactiveBelow, InRow;
    if LaidInRow(u', records) {
      forall f: nat | f < |records| ensures OwnCount(u', records, f, i) {
        CountEntry(u', records, f, i);
      }
    }
  }

  /** Whatever the records are, the counts taken for a type are its own, if and only if no type below it is inactive: the
      records have no place for inactive types, while the reader counts them. */
  lemma CountEntryExactly(u: Unit, i: nat)
    requires i < |ActiveTypes(u, GCOV_COUNTERS)|
    ensures (forall records :: OwnCounts(u, records, i)) <==> NoneInactiveBelow(u, i)
  {
    hide ActiveTypes, NoneInactiveBelow, LaidInRow, OwnCount, WithRecords, Numbered;
    if NoneInactiveBelow(u, i) {
      forall records ensures OwnCounts(u, records, i) {
        OwnIfNoneInactive(u, records, i);
      }
    } else {
      NumberedElsewhere(u, i);
      assert !OwnCounts(u, Numbered(u), i);
    }
  }

  /** Three records in which every word is its own place in memory. */
  function Numbered(u: Unit): (r: seq<seq<Word>>)
    ensures |r| == 3 && forall f | 0 <= f < 3 :: |r[f]| == 2 + |ActiveTypes(u, GCOV_COUNTERS)|
  {
    FewTypes(u);
    var w := 2 + |ActiveTypes(u, GCOV_COUNTERS)|;
    [seq(w, k requires 0 <= k < w => k), seq(w, k requires 0 <= k < w => w + k), seq(w, k requires 0 <= k < w => 2 * w + k)]
  }

  lemma FewTypes(u: Unit)
    ensures |ActiveTypes(u, GCOV_COUNTERS)| <= GCOV_COUNTERS
  {
    TypePlace(u, GCOV_COUNTERS, 0);
    BelowAtMost(u, GCOV_COUNTERS);
  }

  lemma NumberedElsewhere(u: Unit, i: nat)
    requires i < |ActiveTypes(u, GCOV_COUNTERS)| && !NoneInactiveBelow(u, i)
    ensures var records := Numbered(u); var u' := WithRecords(u, records);
            LaidInRow(u', records) && i < |ActiveTypes(u', GCOV_COUNTERS)| && !OwnCount(u', records, 0, i)
  {
    var records := Numbered(u);
    var u' := WithRecords(u, records);
    SameTypes(u, u', GCOV_COUNTERS);
    PlaceIsType(u, GCOV_COUNTERS, i);
    NumberedLaid(u);
    hide ActiveTypes, Numbered, InRow, Stride, LaidInRow;
    NumberedCount(u, ActiveTypes(u, GCOV_COUNTERS)[i]);
    FirstRecord(u, i);
  }

  lemma NumberedLaid(u: Unit)
    ensures LaidInRow(WithRecords(u, Numbered(u)), Numbered(u))
  {
    SameTypes(u, WithRecords(u, Numbered(u)), GCOV_COUNTERS);
    hide ActiveTypes, InRow, Numbered;
  }

  lemma NumberedCount(u: Unit, t: nat)
    requires t < GCOV_COUNTERS && |ActiveTypes(u, GCOV_COUNTERS)| > 0
    ensures var u' := WithRecords(u, Numbered(u)); 0 * Stride(u') + 2 + t < |u'.functions| && NCtrs(u', 0, t) == 2 + t
  {
    hide ActiveTypes, Numbered, InRow, Stride;
    NumberedAt(u, 2 + t);
  }

  lemma FirstRecord(u: Unit, i: nat)
    requires i < |ActiveTypes(u, GCOV_COUNTERS)|
    ensures Numbered(u)[0][2 + i] == 2 + i
  {
    hide ActiveTypes;
  }

  lemma NumberedAt(u: Unit, p: nat)
    requires p <= 6 && |ActiveTypes(u, GCOV_COUNTERS)| > 0
    ensures p < |InRow(Numbered(u))| && InRow(Numbered(u))[p] == p
  {
    var (records, w) := (Numbered(u), 2 + |ActiveTypes(u, GCOV_COUNTERS)|);
    hide ActiveTypes, InRow;
    InRowLength(records, w);
    if p < w {
      InRowAt(records, w, 0, p);
    } else if p < 2 * w {
      InRowAt(records, w, 1, p - w);
    } else {
      InRowAt(records, w, 2, p - 2 * w);
    }
  }
}
