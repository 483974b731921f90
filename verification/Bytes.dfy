/** Byte strings: slices, concatenations of parts, and copying out to a buffer. */
module Bytes {
  import opened Arith

  type Byte = x: nat | x < 256

  /** What a read of count bytes at offset gives: as much of that stretch as there is. */
  function Slice(s: seq<Byte>, offset: nat, count: nat): (r: seq<Byte>)
    ensures |r| <= count
  {
    if offset >= |s| then []
    else if offset + count <= |s| then s[offset..offset + count]
    else s[offset..]
  }

  function Flat(parts: seq<seq<Byte>>): seq<Byte> {
    if parts == [] then [] else Flat(parts[..|parts| - 1]) + parts[|parts| - 1]
  }

  /** Where part i starts. */
  function Start(parts: seq<seq<Byte>>, i: nat): nat
    requires i <= |parts|
  {
    |Flat(parts[..i])|
  }

  lemma StartNext(parts: seq<seq<Byte>>, i: nat)
    requires i < |parts|
    ensures Start(parts, i + 1) == Start(parts, i) + |parts[i]|
  {
    assert parts[..i + 1][..i] == parts[..i];
  }

  /** Part i of a concatenation is found between its start and the next one's. */
  lemma {:induction false} FlatPart(parts: seq<seq<Byte>>, i: nat)
    requires i < |parts|
    ensures Start(parts, i) + |parts[i]| <= |Flat(parts)|
    ensures Flat(parts)[Start(parts, i)..Start(parts, i) + |parts[i]|] == parts[i]
    decreases |parts|
  {
    var n := |parts| - 1;
    var front := parts[..n];
    if i < n {
      assert front[..i] == parts[..i];
      FlatPart(front, i);
      assert Flat(parts) == Flat(front) + parts[n];
    }
  }

  /** Parts of one size k: n of them take n * k bytes. */
  lemma {:induction false} FlatUniform(parts: seq<seq<Byte>>, k: nat)
    requires forall i | 0 <= i < |parts| :: |parts[i]| == k
    ensures |Flat(parts)| == |parts| * k
  {
    if parts != [] {
      FlatUniform(parts[..|parts| - 1], k);
    }
  }

  /** The part of a concatenation of parts of size k that a position falls into. */
  lemma UniformPart(parts: seq<seq<Byte>>, k: nat, i: nat)
    requires i < |parts| && forall i | 0 <= i < |parts| :: |parts[i]| == k
    ensures |Flat(parts)| == |parts| * k && i * k + k <= |Flat(parts)|
    ensures Flat(parts)[i * k..i * k + k] == parts[i]
  {
    FlatUniform(parts, k);
    FlatUniform(parts[..i], k);
    FlatPart(parts, i);
  }

  /** The field lies at position at of the whole. */
  ghost predicate FieldAt(whole: seq<Byte>, at: nat, field: seq<Byte>) {
    at + |field| <= |whole| && whole[at..at + |field|] == field
  }

  /** A stretch of a field is that stretch of the whole the field belongs to. */
  lemma FieldStretch(whole: seq<Byte>, at: nat, field: seq<Byte>, from: nat, len: nat)
    requires FieldAt(whole, at, field) && from + len <= |field|
    ensures whole[at + from..at + from + len] == field[from..from + len]
  {
    var w, f := whole[at + from..at + from + len], field[from..from + len];
    forall i | 0 <= i < len ensures w[i] == f[i] {
      assert whole[at..at + |field|][from + i] == field[from + i];
    }
  }

  /** A field of a part is a field of the whole. */
  lemma FieldWithin(whole: seq<Byte>, at: nat, part: seq<Byte>, within: nat, field: seq<Byte>)
    requires FieldAt(whole, at, part) && FieldAt(part, within, field)
    ensures FieldAt(whole, at + within, field)
  {
    FieldStretch(whole, at, part, within, |field|);
  }

  /** A slice followed by the next stretch is a longer slice. */
  lemma SliceGrows(s: seq<Byte>, offset: nat, done: nat, len: nat)
    requires offset + done + len <= |s|
    ensures Slice(s, offset, done) + s[offset + done..offset + done + len] == Slice(s, offset, done + len)
  {
  }

  /** Consecutive reads of any sizes add up to one read. */
  lemma SlicesJoin(s: seq<Byte>, offset: nat, first: nat, second: nat)
    ensures Slice(s, offset, first) + Slice(s, offset + |Slice(s, offset, first)|, second) ==
            Slice(s, offset, first + second)
  {
  }

  /** Copying out the stretch of a field that the reader stands in front of. */
  lemma FieldCopied(whole: seq<Byte>, offset: nat, done: nat, at: nat, field: seq<Byte>, from: nat, len: nat)
    requires FieldAt(whole, at, field) && from + len <= |field| && at + from == offset + done
    ensures Slice(whole, offset, done) + field[from..from + len] == Slice(whole, offset, done + len)
  {
    FieldStretch(whole, at, field, from, len);
    SliceGrows(whole, offset, done, len);
  }

  /** The bytes are at most count of those at an offset, and some. */
  ghost predicate IsPiece(s: seq<Byte>, offset: nat, count: nat, piece: seq<Byte>) {
    0 < |piece| <= count && offset + |piece| <= |s| && piece == s[offset..offset + |piece|]
  }

  /** Copying out the stretch of a field that the reader stands in. */
  lemma FieldPiece(whole: seq<Byte>, at: nat, field: seq<Byte>, from: nat, count: nat)
    requires FieldAt(whole, at, field) && from < |field| && count > 0
    ensures IsPiece(whole, at + from, count, field[from..from + Min(|field| - from, count)])
  {
    FieldStretch(whole, at, field, from, Min(|field| - from, count));
  }

  /** Copying out a slice of a part the reader stands in. */
  lemma SlicePiece(whole: seq<Byte>, at: nat, part: seq<Byte>, from: nat, count: nat)
    requires FieldAt(whole, at, part) && from < |part| && count > 0
    ensures IsPiece(whole, at + from, count, Slice(part, from, count))
  {
    assert Slice(part, from, count) == part[from..from + Min(|part| - from, count)];
    FieldPiece(whole, at, part, from, count);
  }

  /** Such bytes go on what has been read before them. */
  lemma PieceCopied(s: seq<Byte>, offset: nat, done: nat, count: nat, piece: seq<Byte>)
    requires IsPiece(s, offset + done, count, piece)
    ensures Slice(s, offset, done) + piece == Slice(s, offset, done + |piece|)
  {
    SliceGrows(s, offset, done, |piece|);
  }

  lemma SomeRead(s: seq<Byte>, offset: nat, count: nat)
    requires offset < |s| && count > 0
    ensures Slice(s, offset, count) != []
  {
  }

  lemma WholeRead(s: seq<Byte>, count: nat)
    ensures count >= |s| ==> Slice(s, 0, count) == s
  {
  }

  lemma NothingRead(s: seq<Byte>, offset: nat)
    ensures Slice(s, offset, 0) == []
  {
  }

  /** A reader that has reached the end has read all there is to read. */
  lemma SliceAtEnd(s: seq<Byte>, offset: nat, done: nat, count: nat)
    requires done <= count && offset + done >= |s|
    ensures Slice(s, offset, done) == Slice(s, offset, count)
  {
  }

  function Sum(sizes: seq<nat>): nat {
    if sizes == [] then 0 else sizes[0] + Sum(sizes[1..])
  }

  /** What a client gets that reads one stretch after the other, going on where it got to. */
  function ReadOn(s: seq<Byte>, offset: nat, sizes: seq<nat>): seq<Byte>
    decreases |sizes|
  {
    if sizes == [] then [] else
      var got := Slice(s, offset, sizes[0]);
      got + ReadOn(s, offset + |got|, sizes[1..])
  }

  /** Consecutive reads of any sizes concatenate to one read, and to the whole once they ask for enough. */
  lemma {:induction false} ReadsConcatenate(s: seq<Byte>, offset: nat, sizes: seq<nat>)
    ensures ReadOn(s, offset, sizes) == Slice(s, offset, Sum(sizes))
    ensures offset == 0 && Sum(sizes) >= |s| ==> ReadOn(s, offset, sizes) == s
    decreases |sizes|
  {
    hide Slice;
    if sizes == [] {
      NothingRead(s, offset);
    } else {
      var got := Slice(s, offset, sizes[0]);
      ReadsConcatenate(s, offset + |got|, sizes[1..]);
      SlicesJoin(s, offset, sizes[0], Sum(sizes[1..]));
    }
    WholeRead(s, Sum(sizes));
  }

  /** The bytes at from in data are those at position at of the whole, for len bytes. */
  ghost predicate SameStretch(whole: seq<Byte>, at: nat, data: seq<Byte>, from: nat, len: nat) {
    at + len <= |whole| && from + len <= |data| && whole[at..at + len] == data[from..from + len]
  }

  lemma StretchOfField(whole: seq<Byte>, at: nat, field: seq<Byte>, from: nat)
    requires FieldAt(whole, at, field) && from <= |field|
    ensures SameStretch(whole, at + from, field, from, |field| - from)
  {
    FieldStretch(whole, at, field, from, |field| - from);
  }

  lemma StretchWithin(whole: seq<Byte>, at: nat, part: seq<Byte>, within: nat, data: seq<Byte>, from: nat, len: nat)
    requires FieldAt(whole, at, part) && SameStretch(part, within, data, from, len)
    ensures SameStretch(whole, at + within, data, from, len)
  {
    FieldStretch(whole, at, part, within, len);
  }

  /** Copying out the beginning of a stretch. */
  lemma StretchCopied(whole: seq<Byte>, offset: nat, done: nat, data: seq<Byte>, from: nat, len: nat, part: nat)
    requires SameStretch(whole, offset + done, data, from, len) && part <= len
    ensures Slice(whole, offset, done) + data[from..from + part] == Slice(whole, offset, done + part)
  {
    var at := offset + done;
    var w, d := whole[at..at + part], data[from..from + part];
    forall i | 0 <= i < part ensures w[i] == d[i] {
      assert whole[at..at + len][i] == data[from..from + len][i];
    }
    SliceGrows(whole, offset, done, part);
  }
}
