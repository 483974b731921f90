/** Singly linked lists in memory. */
module Chains {

  class Cell<T> {
    const value: T
    var next: Cell?<T>

    constructor (v: T)
      ensures value == v && next == null
    {
      value, next := v, null;
    }
  }

  ghost function At<T>(s: seq<Cell<T>>, i: int): Cell?<T> {
    if 0 <= i < |s| then s[i] else null
  }

  /** Every cell points to the one after it. */
  ghost predicate Linked<T>(s: seq<Cell<T>>)
    reads s
  {
    forall i | 0 <= i < |s| :: s[i].next == At(s, i + 1)
  }

  ghost predicate Distinct<T>(s: seq<T>) {
    forall i, j | 0 <= i < j < |s| :: s[i] != s[j]
  }

  lemma DistinctInsert<T>(s: seq<T>, i: nat, n: T)
    requires Distinct(s) && i <= |s| && n !in s
    ensures Distinct(s[..i] + [n] + s[i..])
  {
    var t := s[..i] + [n] + s[i..];
    forall j | 0 <= j < |t| ensures t[j] == if j < i then s[j] else if j == i then n else s[j - 1] {
    }
  }

  lemma DistinctRemove<T>(s: seq<T>, i: nat)
    requires Distinct(s) && i < |s|
    ensures Distinct(s[..i] + s[i + 1..]) && s[i] !in s[..i] + s[i + 1..]
    ensures forall n | n in s[..i] + s[i + 1..] :: n in s
  {
    var t := s[..i] + s[i + 1..];
    forall j | 0 <= j < |t| ensures t[j] == if j < i then s[j] else s[j + 1] {
    }
  }

  lemma DistinctConcat<T>(s: seq<T>, t: seq<T>)
    requires Distinct(s) && Distinct(t) && forall n | n in t :: n !in s
    ensures Distinct(s + t)
  {
    forall i, j | 0 <= i < j < |s + t| ensures (s + t)[i] != (s + t)[j] {
      if i < |s| <= j {
        assert (s + t)[j] in t;
      }
    }
  }

  lemma LinkedInsert<T>(s: seq<Cell<T>>, i: nat, n: Cell<T>)
    requires i <= |s| && n.next == At(s, i)
    requires forall j | 0 <= j < |s| :: s[j].next == if j + 1 == i then n else At(s, j + 1)
    ensures Linked(s[..i] + [n] + s[i..])
  {
    var t := s[..i] + [n] + s[i..];
    forall j | 0 <= j < |t| ensures t[j].next == At(t, j + 1) {
      assert t[j] == if j < i then s[j] else if j == i then n else s[j - 1];
    }
  }

  lemma LinkedRemove<T>(s: seq<Cell<T>>, i: nat)
    requires i < |s|
    requires forall j | 0 <= j < |s| && j != i :: s[j].next == if j + 1 == i then At(s, i + 1) else At(s, j + 1)
    ensures Linked(s[..i] + s[i + 1..])
  {
    var t := s[..i] + s[i + 1..];
    forall j | 0 <= j < |t| ensures t[j].next == At(t, j + 1) {
      assert t[j] == if j < i then s[j] else s[j + 1];
    }
  }

  lemma LinkedConcat<T>(s: seq<Cell<T>>, t: seq<Cell<T>>)
    requires |s| > 0 && Linked(t)
    requires forall j | 0 <= j < |s| :: s[j].next == if j + 1 == |s| then At(t, 0) else At(s, j + 1)
    ensures Linked(s + t)
  {
    forall j | 0 <= j < |s + t| ensures (s + t)[j].next == At(s + t, j + 1) {
      assert (s + t)[j] == if j < |s| then s[j] else t[j - |s|];
    }
  }

  lemma EndsInsert<T>(s: seq<Cell<T>>, i: nat, n: Cell<T>)
    requires i <= |s|
    ensures var t := s[..i] + [n] + s[i..];
            && At(t, 0) == (if i == 0 then n else At(s, 0))
            && At(t, |t| - 1) == (if i == |s| then n else At(s, |s| - 1))
  {
  }

  /** A chain with one more cell, once its pointers are set. */
  lemma ChainInsert<T>(s: seq<Cell<T>>, i: nat, n: Cell<T>)
    requires Distinct(s) && i <= |s| && n !in s && n.next == At(s, i)
    requires forall j | 0 <= j < |s| :: s[j].next == if j + 1 == i then n else At(s, j + 1)
    ensures var t := s[..i] + [n] + s[i..];
            && Linked(t) && Distinct(t) && At(t, 0) == (if i == 0 then n else At(s, 0))
            && At(t, |t| - 1) == (if i == |s| then n else At(s, |s| - 1))
  {
    hide At;
    LinkedInsert(s, i, n);
    DistinctInsert(s, i, n);
    EndsInsert(s, i, n);
  }

  lemma EndsRemove<T>(s: seq<Cell<T>>, i: nat)
    requires i < |s|
    ensures var t := s[..i] + s[i + 1..];
            && At(t, 0) == (if i == 0 then At(s, 1) else At(s, 0))
            && At(t, |t| - 1) == (if i == |s| - 1 then At(s, i - 1) else At(s, |s| - 1))
  {
  }

  /** A chain with one cell less, once its pointers are set. */
  lemma ChainRemove<T>(s: seq<Cell<T>>, i: nat)
    requires Distinct(s) && i < |s|
    requires forall j | 0 <= j < |s| && j != i :: s[j].next == if j + 1 == i then At(s, i + 1) else At(s, j + 1)
    ensures var t := s[..i] + s[i + 1..];
            && Linked(t) && Distinct(t) && s[i] !in t && At(t, 0) == (if i == 0 then At(s, 1) else At(s, 0))
            && At(t, |t| - 1) == (if i == |s| - 1 then At(s, i - 1) else At(s, |s| - 1))
            && forall n | n in t :: n in s
  {
    hide At;
    LinkedRemove(s, i);
    DistinctRemove(s, i);
    EndsRemove(s, i);
  }
}
