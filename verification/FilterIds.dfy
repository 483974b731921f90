/** Numbering of the filters of a resource (src/driver/linux_char/filter_list.c). */
module FilterIds {
  import opened Options

  /** FILTER_ID_WRAP and FILTER_ID_INDEPENDENT_BLOCK. */
  const WRAP := 0x7fff_ffff
  const BLOCK := -1

  predicate IsId(i: int) {
    1 <= i < WRAP
  }

  /** The number tried after i. */
  function Succ(i: int): int
    requires IsId(i)
  {
    if i + 1 == WRAP then 1 else i + 1
  }

  /** How many numbers after from, going round, to is. */
  function Distance(from: int, to: int): int {
    if from <= to then to - from else to - from + (WRAP - 1)
  }

  /** The first of the next left numbers from i that no filter has. */
  function Search(live: seq<int>, i: int, left: nat): Option<int>
    requires IsId(i)
    decreases left
  {
    if left == 0 then None else if i !in live then Some(i) else Search(live, Succ(i), left - 1)
  }

  /** The search finds the first free number going round, and fails only if there is none. */
  lemma {:induction false} SearchFinds(live: seq<int>, i: int, left: nat)
    requires IsId(i) && left <= WRAP - 1
    ensures var r := Search(live, i, left);
            if r.Some? then
              && IsId(r.value) && r.value !in live && Distance(i, r.value) < left
              && forall j | IsId(j) && Distance(i, j) < Distance(i, r.value) :: j in live
            else forall j | IsId(j) && Distance(i, j) < left :: j in live
    decreases left
  {
    if left > 0 && i in live {
      SearchFinds(live, Succ(i), left - 1);
      forall j | IsId(j) && j != i ensures Distance(i, j) == Distance(Succ(i), j) + 1 {
      }
    }
  }

  // ----- Runs -----

  datatype State = State(nextId: int, wrapped: bool, live: seq<int>)

  datatype Op = Add | AddBlock | Delete(id: int)

  function Init(): State {
    State(1, false, [])
  }

  function Start(s: State): int {
    if s.nextId == WRAP then 1 else s.nextId
  }

  /** The number a filter added now gets. */
  function Chosen(s: State): Option<int>
    requires IsId(Start(s))
  {
    Search(s.live, Start(s), WRAP - 1)
  }

  /** Where the number is first, or the length if it is nowhere. */
  function FirstAt(live: seq<int>, id: int): (k: nat)
    ensures k <= |live| && id !in live[..k] && (k < |live| ==> live[k] == id)
  {
    if live == [] || live[0] == id then 0 else 1 + FirstAt(live[1..], id)
  }

  function WithoutFirst(live: seq<int>, id: int): seq<int> {
    var k := FirstAt(live, id);
    if k < |live| then live[..k] + live[k + 1..] else live
  }

  lemma {:induction false} FirstIs(live: seq<int>, id: int, k: nat)
    requires k <= |live| && id !in live[..k] && (k < |live| ==> live[k] == id)
    ensures FirstAt(live, id) == k
  {
    if k > 0 {
      assert live[..k][0] == live[0] && live[1..][..k - 1] == live[..k][1..];
      FirstIs(live[1..], id, k - 1);
    }
  }

  function Apply(s: State, op: Op): State
    requires IsId(Start(s))
  {
    match op
    case Add =>
      var wrapped := s.wrapped || s.nextId == WRAP;
      var c := Chosen(s);
      if c.Some? then State(c.value + 1, wrapped, s.live + [c.value])
      else State(Start(s) + 1, wrapped, s.live)
    case AddBlock => s.(live := s.live + [BLOCK])
    case Delete(id) => s.(live := WithoutFirst(s.live, id))
  }

  /** Numbers are in range and no two filters share one, and until the numbers wrap all are below the next one. */
  ghost predicate Inv(s: State) {
    && 1 <= s.nextId <= WRAP
    && (forall i | 0 <= i < |s.live| :: s.live[i] == BLOCK || IsId(s.live[i]))
    && (forall i, j | 0 <= i < j < |s.live| && s.live[i] != BLOCK :: s.live[i] != s.live[j])
    && (!s.wrapped ==> forall i | 0 <= i < |s.live| :: s.live[i] < s.nextId)
  }

  /** Before the first wrap, the number chosen is simply the next. */
  lemma NotWrapped(s: State)
    requires Inv(s) && !s.wrapped && s.nextId < WRAP
    ensures Chosen(s) == Some(s.nextId)
  {
  }

  lemma AddKeepsInv(s: State)
    requires Inv(s)
    ensures Inv(Apply(s, Add))
  {
    SearchFinds(s.live, Start(s), WRAP - 1);
    if !s.wrapped && s.nextId < WRAP {
      NotWrapped(s);
    }
  }

  lemma StepKeepsInv(s: State, op: Op)
    requires Inv(s)
    ensures Inv(Apply(s, op))
  {
    match op
    case Add => AddKeepsInv(s);
    case AddBlock =>
    case Delete(id) =>
  }

  function Run(ops: seq<Op>): (s: State)
    ensures Inv(s)
  {
    if ops == [] then Init()
    else var s := Run(ops[..|ops| - 1]); StepKeepsInv(s, ops[|ops| - 1]); Apply(s, ops[|ops| - 1])
  }

  /** After any run, across wraps: a filter added gets a number in range that no filter has, and adding fails
      only if every number is in use. */
  lemma AddedIdIsFree(ops: seq<Op>)
    ensures var s := Run(ops); var c := Chosen(s);
            if c.Some? then IsId(c.value) && c.value !in s.live
            else forall j | IsId(j) :: j in s.live
  {
    var s := Run(ops);
    SearchFinds(s.live, Start(s), WRAP - 1);
  }

  /** The search for the next number goes on after the last one given; deleting a filter undoes adding it. */
  lemma AddedComesAfter(s: State)
    requires Inv(s) && Chosen(s).Some?
    ensures var (c, s') := (Chosen(s).value, Apply(s, Add));
            && IsId(c) && IsId(Start(s')) && Start(s') == Succ(c) && s'.live == s.live + [c]
            && Apply(s', Delete(c)).live == s.live
  {
    SearchFinds(s.live, Start(s), WRAP - 1);
    var c := Chosen(s).value;
    FirstIs(s.live + [c], c, |s.live|);
    assert (s.live + [c])[..|s.live|] == s.live;
  }

  // ----- The list -----

  class FilterList {
    var nextId: int
    var wrapped: bool
    var filters: seq<int>

    ghost function Abs(): State
      reads this
    {
      State(nextId, wrapped, filters)
    }

    /** efch_filter_list_init. */
    constructor ()
      ensures Abs() == Init()
    {
      nextId, wrapped, filters := 1, false, [];
    }

    method InUse(id: int) returns (used: bool)
      ensures used <==> id in filters
    {
      for i := 0 to |filters|
        invariant id !in filters[..i]
      {
        if id == filters[i] {
          return true;
        }
      }
      used := false;
    }

    /** efch_filter_list_gen_id: the number of a new filter, or a negative value when none is left. */
    method GenId() returns (id: int)
      requires Inv(Abs())
      modifies this`nextId, this`wrapped
      ensures wrapped == (old(wrapped) || old(nextId) == WRAP)
      ensures id >= 0 ==> old(Chosen(Abs())) == Some(id) && nextId == id + 1
      ensures id < 0 ==> old(Chosen(Abs())) == None && nextId == old(Start(Abs())) + 1
    {
      ghost var s := Abs();
      if nextId == WRAP {
        nextId, wrapped := 1, true;
      }
      var initial := nextId;
      ghost var left := WRAP - 1;
      id, nextId := nextId, nextId + 1;
      while wrapped
        invariant wrapped == (s.wrapped || s.nextId == WRAP) && initial == Start(s) && filters == s.live
        invariant !wrapped ==> id == initial
        invariant IsId(id) && nextId == id + 1 && left == WRAP - 1 - Distance(initial, id)
        invariant Chosen(s) == Search(s.live, id, left)
        decreases left
      {
        var used := InUse(id);
        if !used {
          break;
        }
        if nextId == WRAP {
          nextId := 1;
        }
        id, nextId, left := nextId, nextId + 1, left - 1;
        if id == initial {
          return -1;
        }
      }
      if !wrapped {
        NotWrapped(s);
      }
    }

    /** The numbering part of efch_filter_list_rsops_add. */
    method AddFilter() returns (id: int)
      requires Inv(Abs())
      modifies this
      ensures Abs() == Apply(old(Abs()), Add) && Inv(Abs())
      ensures id >= 0 <==> old(Chosen(Abs())).Some?
    {
      StepKeepsInv(Abs(), Add);
      SearchFinds(filters, Start(Abs()), WRAP - 1);
      id := GenId();
      if id >= 0 {
        filters := filters + [id];
      }
    }

    /** The list part of efch_filter_list_del; false when there is no such filter. */
    method DeleteFilter(id: int) returns (found: bool)
      requires Inv(Abs())
      modifies this`filters
      ensures Abs() == Apply(old(Abs()), Delete(id)) && Inv(Abs())
      ensures found <==> id in old(filters)
    {
      StepKeepsInv(Abs(), Delete(id));
      for i := 0 to |filters|
        invariant filters == old(filters) && id !in filters[..i]
      {
        if filters[i] == id {
          FirstIs(filters, id, i);
          filters := filters[..i] + filters[i + 1..];
          return true;
        }
      }
      FirstIs(filters, id, |filters|);
      found := false;
    }
  }
}
