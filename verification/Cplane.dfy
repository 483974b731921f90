/**
 The life of control-plane handles: reference counts, the delayed work that kills an orphaned
 server, its cancellation and revival, server attach and detach, and the table with one handle
 per network namespace.  Each action is one section of the program that runs under its locks
 or is a single atomic operation, so that every interleaving of the program is a sequence of
 actions.
 */
module Cplane {
  import opened Options

  const HASH_SIZE := 256

  type Id = nat       // a handle
  type Token = nat    // whoever holds a reference: a file, a stack, a call in progress

  /** The handle's one work item.  A kill is pending until its timer fires, then it runs up to and
      including its locked part, and then it still has to drop its reference. */
  datatype Work = NotQueued | KillPending | KillStarted | KillUnlinked | DestroyQueued

  /** What became of a handle: in use, its last reference gone, or freed. */
  datatype Fate = Alive | LastRefGone | Freed

  datatype Handle = Handle(
    netns: nat,
    refcount: int,
    killed: bool,
    server: Option<Token>,   // server_pid and server_file: the file through which the server is attached
    mapped: bool,            // mem: whether a server was ever attached
    work: Work,
    holders: set<Token>,     // history
    fate: Fate,              // history
    due: nat,                // releases that found the last reference gone and have yet to queue the destruction
    destroys: nat            // history: how often the destruction was queued
  )

  /** granule is the number of bytes of address that share a hash; it depends on the handle's size. */
  datatype State = State(granule: nat, handles: map<Id, Handle>, table: seq<seq<Id>>)

  datatype Action =
    | AcquireIfExists(netns: nat, revive: bool, spawn: bool, token: Token)
    | InsertOrJoin(netns: nat, id: Id, token: Token)
    | AcquireFromHolder(id: Id, holder: Token, token: Token)
    | Release(id: Id, token: Token, spawn: bool)
    | Attach(id: Id, file: Token, call: Token, spawn: bool)
    | Detach(id: Id, file: Token)
    | KillFires(id: Id)
    | KillLocked(id: Id)
    | KillReleases(id: Id, spawn: bool)
    | QueueDestroy(id: Id)
    | Destroy(id: Id)

  function Hash(granule: nat, netns: nat): nat
    requires granule > 0
  {
    (netns / granule) % HASH_SIZE
  }

  predicate Shaped(st: State) {
    st.granule > 0 && |st.table| == HASH_SIZE &&
    forall k | 0 <= k < HASH_SIZE :: forall id | id in st.table[k] :: id in st.handles
  }

  // ----- The table -----

  function FindIn(st: State, bucket: seq<Id>, netns: nat): (r: Option<Id>)
    requires forall id | id in bucket :: id in st.handles
    ensures r.Some? ==> r.value in bucket && st.handles[r.value].netns == netns
    ensures r.None? ==> forall id | id in bucket :: st.handles[id].netns != netns
  {
    if bucket == [] then None
    else if st.handles[bucket[0]].netns == netns then Some(bucket[0])
    else FindIn(st, bucket[1..], netns)
  }

  /** cp_table_lookup. */
  function Lookup(st: State, netns: nat): (r: Option<Id>)
    requires Shaped(st)
    ensures r.Some? ==> r.value in st.handles && st.handles[r.value].netns == netns
  {
    FindIn(st, st.table[Hash(st.granule, netns)], netns)
  }

  function Without(bucket: seq<Id>, id: Id): (r: seq<Id>)
    ensures forall x :: x in r <==> x in bucket && x != id
  {
    if bucket == [] then []
    else if bucket[0] == id then Without(bucket[1..], id)
    else [bucket[0]] + Without(bucket[1..], id)
  }

  /** cp_table_remove; it does nothing to a handle that is not in the table. */
  function TableRemove(st: State, id: Id): (st': State)
    requires Shaped(st) && id in st.handles
    ensures Shaped(st') && st'.handles == st.handles
  {
    var k := Hash(st.granule, st.handles[id].netns);
    st.(table := st.table[k := Without(st.table[k], id)])
  }

  function SetHandle(st: State, id: Id, h: Handle): (st': State)
    requires Shaped(st) && id in st.handles
    ensures Shaped(st') && st'.table == st.table && st'.granule == st.granule
  {
    st.(handles := st.handles[id := h])
  }

  // ----- Actions -----

  /** Cancelling the kill succeeds exactly while it is pending, that is, not running. */
  predicate Cancellable(h: Handle) {
    h.work.KillPending?
  }

  predicate Enabled(st: State, act: Action)
    requires Shaped(st)
  {
    match act
    case AcquireIfExists(_, _, _, t) => forall id | id in st.handles :: t !in st.handles[id].holders
    case InsertOrJoin(_, id, t) => id !in st.handles && forall id | id in st.handles :: t !in st.handles[id].holders
    case AcquireFromHolder(id, holder, t) =>
      id in st.handles && holder in st.handles[id].holders && t !in st.handles[id].holders
    // The server drops its file only after its mapping has closed.
    case Release(id, t, _) => id in st.handles && t in st.handles[id].holders && st.handles[id].server != Some(t)
    case Attach(id, file, call, _) =>
      id in st.handles && file != call && file in st.handles[id].holders && call in st.handles[id].holders
    case Detach(id, file) => id in st.handles && st.handles[id].server == Some(file)
    case KillFires(id) => id in st.handles && st.handles[id].work.KillPending?
    case KillLocked(id) => id in st.handles && st.handles[id].work.KillStarted?
    case KillReleases(id, _) => id in st.handles && st.handles[id].work.KillUnlinked?
    case QueueDestroy(id) => id in st.handles && st.handles[id].due > 0
    case Destroy(id) => id in st.handles && st.handles[id].work.DestroyQueued? && !st.handles[id].fate.Freed?
  }

  /** cp_release on a handle that still has the caller's reference in its count. */
  function AfterRelease(h: Handle, spawn: bool): Handle {
    var n := h.refcount - 1;
    if n == 0 then
      h.(refcount := n, fate := LastRefGone, due := h.due + 1)
    else if spawn && n == 1 && h.killed then
      if Cancellable(h) then
        h.(refcount := n, killed := false, work := NotQueued, fate := LastRefGone, due := h.due + 1)
      else
        h.(refcount := n)
    else if spawn && n == 1 && h.server.Some? then
      h.(refcount := n + 1, killed := true, work := KillPending)
    else
      h.(refcount := n)
  }

  function Released(st: State, id: Id, h: Handle, spawn: bool): (st': State)
    requires Shaped(st) && id in st.handles
    ensures Shaped(st')
  {
    var after := AfterRelease(h, spawn);
    var st' := SetHandle(st, id, after);
    if after.fate.LastRefGone? then TableRemove(st', id) else st'
  }

  function Joined(st: State, id: Id, t: Token): (st': State)
    requires Shaped(st) && id in st.handles
    ensures Shaped(st')
  {
    var h := st.handles[id];
    SetHandle(st, id, h.(refcount := h.refcount + 1, holders := h.holders + {t}))
  }

  function Next(st: State, act: Action): (st': State)
    requires Shaped(st) && Enabled(st, act)
    ensures Shaped(st')
  {
    match act
    case AcquireIfExists(netns, revive, spawn, t) =>
      var found := Lookup(st, netns);
      if found.None? then st
      else if spawn && st.handles[found.value].killed then
        var h := st.handles[found.value];
        if revive && Cancellable(h) then
          SetHandle(st, found.value, h.(killed := false, work := NotQueued, holders := h.holders + {t}))
        else
          st
      else
        Joined(st, found.value, t)
    case InsertOrJoin(netns, id, t) =>
      var found := Lookup(st, netns);
      if found.Some? then Joined(st, found.value, t)
      else
        var k := Hash(st.granule, netns);
        State(st.granule,
              st.handles[id := Handle(netns, 1, false, None, false, NotQueued, {t}, Alive, 0, 0)],
              st.table[k := [id] + st.table[k]])
    case AcquireFromHolder(id, _, t) => Joined(st, id, t)
    case Release(id, t, spawn) =>
      var h := st.handles[id];
      Released(st, id, h.(holders := h.holders - {t}), spawn)
    case Attach(id, file, _, spawn) =>
      var h := st.handles[id];
      if h.server.Some? || h.mapped || (spawn && h.refcount <= 2) then st
      else SetHandle(st, id, h.(server := Some(file), mapped := true))
    case Detach(id, _) =>
      TableRemove(SetHandle(st, id, st.handles[id].(server := None)), id)
    case KillFires(id) => SetHandle(st, id, st.handles[id].(work := KillStarted))
    case KillLocked(id) => TableRemove(SetHandle(st, id, st.handles[id].(work := KillUnlinked)), id)
    case KillReleases(id, spawn) => Released(st, id, st.handles[id].(work := NotQueued), spawn)
    case QueueDestroy(id) =>
      var h := st.handles[id];
      SetHandle(st, id, h.(work := DestroyQueued, due := h.due - 1, destroys := h.destroys + 1))
    case Destroy(id) => SetHandle(st, id, st.handles[id].(fate := Freed))
  }

  // ----- What every action keeps -----

  predicate HoldsKillRef(w: Work) {
    w.KillPending? || w.KillStarted? || w.KillUnlinked?
  }

  /** A handle in use counts its holders and the kill work's reference; an attached server's file is
      among the holders; unreleased kill work means killed.  A handle whose last reference is gone
      has no holder, no server and no kill work, and its destruction is queued once. */
  predicate HandleOk(h: Handle) {
    && (h.fate.Alive? ==>
          && h.refcount == |h.holders| + (if HoldsKillRef(h.work) then 1 else 0) && h.refcount >= 1
          && (h.server.Some? ==> h.server.value in h.holders)
          && (HoldsKillRef(h.work) ==> h.killed)
          && !h.work.DestroyQueued? && h.due == 0 && h.destroys == 0)
    && (!h.fate.Alive? ==>
          && h.holders == {} && h.server.None? && !HoldsKillRef(h.work)
          && h.destroys == (if h.work.DestroyQueued? then 1 else 0) && h.due + h.destroys == 1
          && (h.fate.Freed? ==> h.work.DestroyQueued?))
  }

  predicate Linked(st: State, id: Id)
    requires Shaped(st) && id in st.handles
  {
    id in st.table[Hash(st.granule, st.handles[id].netns)]
  }

  /** Every handle sits in its own bucket or nowhere, those in the table are in use, and no two of
      them are for the same namespace. */
  predicate TableOk(st: State)
    requires Shaped(st)
  {
    && (forall k | 0 <= k < HASH_SIZE :: forall id | id in st.table[k] ::
          Hash(st.granule, st.handles[id].netns) == k && st.handles[id].fate.Alive?)
    && (forall id, id' | id in st.handles && id' in st.handles && Linked(st, id) && Linked(st, id') &&
          st.handles[id].netns == st.handles[id'].netns :: id == id')
  }

  predicate Inv(st: State) {
    Shaped(st) && TableOk(st) && forall id | id in st.handles :: HandleOk(st.handles[id])
  }

  lemma SetHandleKeepsTable(st: State, id: Id, h: Handle)
    requires Shaped(st) && TableOk(st) && id in st.handles
    requires h.netns == st.handles[id].netns && (Linked(st, id) ==> h.fate.Alive?)
    ensures TableOk(SetHandle(st, id, h))
    ensures Linked(SetHandle(st, id, h), id) == Linked(st, id)
  {
    var st' := SetHandle(st, id, h);
    forall i | i in st.handles ensures Linked(st', i) == Linked(st, i) {
    }
    forall k | 0 <= k < HASH_SIZE ensures forall i | i in st'.table[k] ::
        Hash(st.granule, st'.handles[i].netns) == k && st'.handles[i].fate.Alive? {
      assert st'.table[k] == st.table[k];
    }
  }

  lemma TableRemoveKeepsTable(st: State, id: Id)
    requires Shaped(st) && id in st.handles
    requires forall k | 0 <= k < HASH_SIZE :: forall i | i in st.table[k] ::
        Hash(st.granule, st.handles[i].netns) == k && (i != id ==> st.handles[i].fate.Alive?)
    requires forall i, j | i in st.handles && j in st.handles && Linked(st, i) && Linked(st, j) &&
          st.handles[i].netns == st.handles[j].netns :: i == j
    ensures TableOk(TableRemove(st, id)) && !Linked(TableRemove(st, id), id)
  {
    var st' := TableRemove(st, id);
    forall i | i in st.handles ensures Linked(st', i) == (Linked(st, i) && i != id) {
    }
    forall k | 0 <= k < HASH_SIZE ensures forall i | i in st'.table[k] ::
        Hash(st.granule, st'.handles[i].netns) == k && st'.handles[i].fate.Alive? {
      assert forall i | i in st'.table[k] :: i in st.table[k] && i != id;
    }
  }

  lemma SetHandleKeepsInv(st: State, id: Id, h: Handle)
    requires Inv(st) && id in st.handles && HandleOk(h)
    requires h.netns == st.handles[id].netns && (Linked(st, id) ==> h.fate.Alive?)
    ensures Inv(SetHandle(st, id, h))
  {
    SetHandleKeepsTable(st, id, h);
  }

  /** Giving a handle a new state and taking it out of the table. */
  lemma RetireKeepsInv(st: State, id: Id, h: Handle)
    requires Inv(st) && id in st.handles && HandleOk(h) && h.netns == st.handles[id].netns
    ensures Inv(TableRemove(SetHandle(st, id, h), id))
  {
    var mid := SetHandle(st, id, h);
    forall i | i in st.handles ensures Linked(mid, i) == Linked(st, i) {
    }
    forall k | 0 <= k < HASH_SIZE ensures forall i | i in mid.table[k] ::
        Hash(mid.granule, mid.handles[i].netns) == k && (i != id ==> mid.handles[i].fate.Alive?) {
      assert mid.table[k] == st.table[k];
    }
    TableRemoveKeepsTable(mid, id);
  }

  /** A handle with one reference too many in its count, about to be released. */
  predicate Releasable(h: Handle) {
    && h.fate.Alive? && h.due == 0 && h.destroys == 0 && !h.work.DestroyQueued?
    && h.refcount == |h.holders| + (if HoldsKillRef(h.work) then 1 else 0) + 1
    && (h.server.Some? ==> h.server.value in h.holders)
    && (HoldsKillRef(h.work) ==> h.killed)
  }

  /** cp_release leaves the handle in order: in particular a count of one with the kill pending means
      that nobody else is left, so the handle goes together with the kill. */
  lemma AfterReleaseOk(h: Handle, spawn: bool)
    requires Releasable(h)
    ensures HandleOk(AfterRelease(h, spawn))
  {
    if h.refcount == 2 && h.server.Some? {
      assert {h.server.value} <= h.holders;
      assert |{h.server.value}| == 1;
      assert h.holders != {} && |h.holders| >= 1;
    }
    if h.refcount == 2 && Cancellable(h) {
      assert h.holders == {};
    }
  }

  lemma ReleasedKeepsInv(st: State, id: Id, h: Handle, spawn: bool)
    requires Inv(st) && id in st.handles && h.netns == st.handles[id].netns && Releasable(h)
    ensures Inv(Released(st, id, h, spawn))
  {
    var after := AfterRelease(h, spawn);
    AfterReleaseOk(h, spawn);
    if after.fate.LastRefGone? {
      RetireKeepsInv(st, id, after);
    } else {
      SetHandleKeepsInv(st, id, after);
    }
  }

  lemma InsertKeepsInv(st: State, netns: nat, id: Id, t: Token)
    requires Inv(st) && Enabled(st, InsertOrJoin(netns, id, t)) && Lookup(st, netns).None?
    ensures Inv(Next(st, InsertOrJoin(netns, id, t)))
  {
    var st' := Next(st, InsertOrJoin(netns, id, t));
    var k := Hash(st.granule, netns);
    forall i | i in st'.handles ensures Linked(st', i) == (i == id || (i in st.handles && Linked(st, i))) {
      assert i != id ==> i in st.handles && st'.handles[i] == st.handles[i];
    }
    forall j | 0 <= j < HASH_SIZE ensures forall i | i in st'.table[j] ::
        Hash(st'.granule, st'.handles[i].netns) == j && st'.handles[i].fate.Alive? {
      assert st'.table[j] == if j == k then [id] + st.table[k] else st.table[j];
    }
  }

  lemma JoinedKeepsInv(st: State, id: Id, t: Token)
    requires Inv(st) && id in st.handles && st.handles[id].fate.Alive? && t !in st.handles[id].holders
    ensures Inv(Joined(st, id, t))
  {
    var h := st.handles[id];
    SetHandleKeepsInv(st, id, h.(refcount := h.refcount + 1, holders := h.holders + {t}));
  }

  lemma AcquireKeepsInv(st: State, netns: nat, revive: bool, spawn: bool, t: Token)
    requires Inv(st) && Enabled(st, AcquireIfExists(netns, revive, spawn, t))
    ensures Inv(Next(st, AcquireIfExists(netns, revive, spawn, t)))
  {
    var found := Lookup(st, netns);
    if found.Some? {
      var id := found.value;
      var h := st.handles[id];
      if spawn && h.killed {
        if revive && Cancellable(h) {
          SetHandleKeepsInv(st, id, h.(killed := false, work := NotQueued, holders := h.holders + {t}));
        }
      } else {
        JoinedKeepsInv(st, id, t);
      }
    }
  }

  /** Whoever found the last reference gone is the only one to queue the destruction. */
  lemma QueueDestroyKeepsInv(st: State, id: Id)
    requires Inv(st) && Enabled(st, QueueDestroy(id))
    ensures Inv(Next(st, QueueDestroy(id)))
  {
    var h := st.handles[id];
    SetHandleKeepsInv(st, id, h.(work := DestroyQueued, due := h.due - 1, destroys := h.destroys + 1));
  }

  lemma StepKeepsInv(st: State, act: Action)
    requires Inv(st) && Enabled(st, act)
    ensures Inv(Next(st, act))
  {
    match act
    case AcquireIfExists(netns, revive, spawn, t) => AcquireKeepsInv(st, netns, revive, spawn, t);
    case InsertOrJoin(netns, id, t) =>
      var found := Lookup(st, netns);
      if found.Some? {
        JoinedKeepsInv(st, found.value, t);
      } else {
        InsertKeepsInv(st, netns, id, t);
      }
    case AcquireFromHolder(id, _, t) => JoinedKeepsInv(st, id, t);
    case Release(id, t, spawn) =>
      var h := st.handles[id];
      ReleasedKeepsInv(st, id, h.(holders := h.holders - {t}), spawn);
    case Attach(id, file, _, spawn) =>
      SetHandleKeepsInv(st, id, Next(st, act).handles[id]);
    case Detach(id, _) => RetireKeepsInv(st, id, st.handles[id].(server := None));
    case KillFires(id) => SetHandleKeepsInv(st, id, st.handles[id].(work := KillStarted));
    case KillLocked(id) => RetireKeepsInv(st, id, st.handles[id].(work := KillUnlinked));
    case KillReleases(id, spawn) =>
      ReleasedKeepsInv(st, id, st.handles[id].(work := NotQueued), spawn);
    case QueueDestroy(id) => QueueDestroyKeepsInv(st, id);
    case Destroy(id) => SetHandleKeepsInv(st, id, st.handles[id].(fate := Freed));
  }

  // ----- Every run -----

  predicate Legal(st: State, acts: seq<Action>)
    decreases |acts|
  {
    Shaped(st) && (acts != [] ==> Enabled(st, acts[0]) && Legal(Next(st, acts[0]), acts[1..]))
  }

  function Exec(st: State, acts: seq<Action>): State
    requires Legal(st, acts)
    decreases |acts|
  {
    if acts == [] then st else Exec(Next(st, acts[0]), acts[1..])
  }

  function NoHandles(granule: nat): State {
    State(granule, map[], seq(HASH_SIZE, _ => []))
  }

  lemma {:induction false} RunKeepsInv(st: State, acts: seq<Action>)
    requires Inv(st) && Legal(st, acts)
    ensures Inv(Exec(st, acts))
    decreases |acts|
  {
    if acts != [] {
      StepKeepsInv(st, acts[0]);
      RunKeepsInv(Next(st, acts[0]), acts[1..]);
    }
  }

  /** Over every interleaving: while a handle is in use its count is the number of its holders plus
      one for kill work that has not released its reference; its destruction is queued at most
      once, and only when it has no holder, no server and no kill work and is out of the table. */
  lemma ReferenceSafety(granule: nat, acts: seq<Action>, id: Id)
    requires granule > 0 && Legal(NoHandles(granule), acts) && id in Exec(NoHandles(granule), acts).handles
    ensures var st := Exec(NoHandles(granule), acts);
            var h := st.handles[id];
            && (h.fate.Alive? ==> h.refcount == |h.holders| + if HoldsKillRef(h.work) then 1 else 0)
            && h.due + h.destroys <= 1
            && (h.due + h.destroys == 1 ==> h.holders == {} && h.server.None? && !HoldsKillRef(h.work))
            && Shaped(st) && (h.due + h.destroys == 1 ==> !Linked(st, id))
  {
    RunKeepsInv(NoHandles(granule), acts);
    var st := Exec(NoHandles(granule), acts);
    assert HandleOk(st.handles[id]);
  }

  /** In every reachable state at most one handle per namespace is in the table. */
  lemma OneHandlePerNamespace(granule: nat, acts: seq<Action>, id: Id, id': Id)
    requires granule > 0 && Legal(NoHandles(granule), acts)
    requires var st := Exec(NoHandles(granule), acts);
             Shaped(st) && id in st.handles && id' in st.handles && Linked(st, id) && Linked(st, id') &&
             st.handles[id].netns == st.handles[id'].netns
    ensures id == id'
  {
    RunKeepsInv(NoHandles(granule), acts);
  }

  /** Looking a namespace up gives the handle that is in the table for it, if there is one. */
  lemma LookupExactly(st: State, netns: nat, id: Id)
    requires Inv(st)
    ensures Lookup(st, netns) == Some(id) <==> id in st.handles && Linked(st, id) && st.handles[id].netns == netns
  {
    if id in st.handles && Linked(st, id) && st.handles[id].netns == netns {
      var found := Lookup(st, netns);
      assert found.Some? && Linked(st, found.value);
    }
  }

  /** The references to a handle: one for each holder and one for kill work that has not released its own. */
  function References(h: Handle): nat {
    |h.holders| + if HoldsKillRef(h.work) then 1 else 0
  }

  /** In every reachable state, reviving a killed handle passes exactly the kill work's reference on: there are as
      many references after as before, and the count is that number throughout.  The reviver is a new holder, the
      kill is off and its reference is gone exactly if the kill could be cancelled; else nothing changed. */
  lemma ReviveInherits(granule: nat, acts: seq<Action>, netns: nat, t: Token)
    requires granule > 0 && Legal(NoHandles(granule), acts)
    requires var st := Exec(NoHandles(granule), acts);
             Shaped(st) && Enabled(st, AcquireIfExists(netns, true, true, t)) &&
             Lookup(st, netns).Some? && st.handles[Lookup(st, netns).value].killed
    ensures var st := Exec(NoHandles(granule), acts);
            var id := Lookup(st, netns).value;
            var (h, h') := (st.handles[id], Next(st, AcquireIfExists(netns, true, true, t)).handles[id]);
            && References(h') == References(h) == h.refcount == h'.refcount
            && (Cancellable(h) ==>
                  h'.holders == h.holders + {t} && t !in h.holders && !h'.killed && !HoldsKillRef(h'.work))
            && (!Cancellable(h) ==> h' == h)
  {
    RunKeepsInv(NoHandles(granule), acts);
    var st := Exec(NoHandles(granule), acts);
    var id := Lookup(st, netns).value;
    LookupExactly(st, netns, id);
    assert HandleOk(st.handles[id]) && st.handles[id].fate.Alive?;
    StepKeepsInv(st, AcquireIfExists(netns, true, true, t));
    assert HandleOk(Next(st, AcquireIfExists(netns, true, true, t)).handles[id]);
  }

  /** With the kill pending, a count of one means that nobody else holds the handle. */
  lemma PendingKillAlone(st: State, id: Id)
    requires Inv(st) && id in st.handles && st.handles[id].work.KillPending?
    ensures st.handles[id].refcount == 1 <==> st.handles[id].holders == {}
  {
    assert HandleOk(st.handles[id]);
    if st.handles[id].refcount == 1 {
      assert |st.handles[id].holders| == 0;
    }
  }

  /** Once its last reference is gone nothing happens to a handle but its one destruction. */
  lemma GoneIsUntouched(st: State, act: Action, id: Id)
    requires Inv(st) && Enabled(st, act) && id in st.handles && !st.handles[id].fate.Alive?
    ensures id in Next(st, act).handles
    ensures act != QueueDestroy(id) && act != Destroy(id) ==> Next(st, act).handles[id] == st.handles[id]
    ensures st.handles[id].fate.Freed? ==> act != QueueDestroy(id) && act != Destroy(id)
  {
    assert HandleOk(st.handles[id]);
    if act.AcquireIfExists? || act.InsertOrJoin? {
      var found := Lookup(st, act.netns);
      assert found.Some? ==> Linked(st, found.value);
    }
  }
}
