/**
 The handles and their table as the driver keeps them: objects updated in place under the
 locks.  Every method is one locked section and is proved to be the corresponding action.
 */
module CplaneTable {
  import opened Options
  import opened Cplane

  class CpHandle {
    const id: Id
    const netns: nat
    var refcount: int
    var killed: bool
    var server: Option<Token>
    var mapped: bool
    var work: Work
    ghost var holders: set<Token>
    ghost var fate: Fate
    ghost var due: nat
    ghost var destroys: nat

    ghost function Abs(): Handle
      reads this
    {
      Handle(netns, refcount, killed, server, mapped, work, holders, fate, due, destroys)
    }

    constructor (id: Id, netns: nat, ghost token: Token)
      ensures Abs() == Handle(netns, 1, false, None, false, NotQueued, {token}, Alive, 0, 0) && this.id == id
    {
      this.id, this.netns := id, netns;
      refcount, killed, server, mapped, work := 1, false, None, false, NotQueued;
      holders, fate, due, destroys := {token}, Alive, 0, 0;
    }

    /** cp_cancel_kill: a delayed work item can be cancelled exactly while it is pending. */
    method CancelKill() returns (cancelled: bool)
      modifies this`killed, this`work
      ensures cancelled == old(Cancellable(Abs()))
      ensures Abs() == if cancelled then old(Abs()).(killed := false, work := NotQueued) else old(Abs())
    {
      cancelled := work.KillPending?;
      if cancelled {
        work := NotQueued;
        killed := false;
      }
    }

    /** One more reference. */
    method AddRef(ghost t: Token)
      modifies this`refcount, this`holders
      ensures Abs() == old(Abs()).(refcount := old(refcount) + 1, holders := old(holders) + {t})
    {
      refcount := refcount + 1;
      holders := holders + {t};
    }

    /** What __cp_acquire_from_netns_if_exists does to the handle it found. */
    method Acquire(revive: bool, spawn: bool, ghost t: Token) returns (acquired: bool)
      modifies this
      ensures acquired <==> (spawn && old(killed) ==> revive && old(Cancellable(Abs())))
      ensures !acquired ==> Abs() == old(Abs())
      ensures acquired ==> t in holders
      ensures acquired && spawn && old(killed) ==>
                Abs() == old(Abs()).(killed := false, work := NotQueued, holders := old(holders) + {t})
      ensures acquired && !(spawn && old(killed)) ==>
                Abs() == old(Abs()).(refcount := old(refcount) + 1, holders := old(holders) + {t})
    {
      acquired := true;
      if spawn && killed {
        acquired := false;
        if revive {
          acquired := CancelKill();
        }
        if acquired {
          holders := holders + {t};
        }
      } else {
        AddRef(t);
      }
    }

    /** The part of cp_release that concerns the handle alone. */
    method DropRef(spawn: bool) returns (last: bool)
      requires fate.Alive?
      modifies this
      ensures Abs() == AfterRelease(old(Abs()), spawn) && (last <==> fate.LastRefGone?)
    {
      last := false;
      refcount := refcount - 1;
      if refcount == 0 {
        last := true;
      } else if spawn && refcount == 1 {
        if killed {
          last := CancelKill();
        } else if server.Some? {
          killed := true;
          refcount := refcount + 1;
          work := KillPending;
        }
      }
      if last {
        fate, due := LastRefGone, due + 1;
      }
    }
  }

  lemma NothingAcquired(st: State, netns: nat, revive: bool, spawn: bool, t: Token)
    requires Shaped(st) && Enabled(st, AcquireIfExists(netns, revive, spawn, t)) && Lookup(st, netns).None?
    ensures Next(st, AcquireIfExists(netns, revive, spawn, t)) == st
  {
  }

  /** The step of the state machine, from what becomes of the handle found. */
  lemma AcquireMeans(st: State, netns: nat, revive: bool, spawn: bool, t: Token, id: Id, h': Handle)
    requires Shaped(st) && Enabled(st, AcquireIfExists(netns, revive, spawn, t)) && Lookup(st, netns) == Some(id)
    requires var h := st.handles[id];
             h' == if !(spawn && h.killed) then h.(refcount := h.refcount + 1, holders := h.holders + {t})
                   else if revive && Cancellable(h) then h.(killed := false, work := NotQueued, holders := h.holders + {t})
                   else h
    ensures Next(st, AcquireIfExists(netns, revive, spawn, t)) == SetHandle(st, id, h')
  {
    hide Lookup;
    SetSame(st, id);
  }

  lemma JoinMeans(st: State, netns: nat, id: Id, t: Token, found: Id)
    requires Shaped(st) && Enabled(st, InsertOrJoin(netns, id, t)) && Lookup(st, netns) == Some(found)
    ensures Next(st, InsertOrJoin(netns, id, t)) == Joined(st, found, t)
  {
  }

  lemma InsertMeans(st: State, netns: nat, id: Id, t: Token)
    requires Shaped(st) && Enabled(st, InsertOrJoin(netns, id, t)) && Lookup(st, netns).None?
    ensures id !in st.handles
    ensures var k := Hash(st.granule, netns);
            Next(st, InsertOrJoin(netns, id, t)) ==
            State(st.granule, st.handles[id := Handle(netns, 1, false, None, false, NotQueued, {t}, Alive, 0, 0)],
                  st.table[k := [id] + st.table[k]])
  {
  }

  lemma SetSame(st: State, id: Id)
    requires Shaped(st) && id in st.handles
    ensures SetHandle(st, id, st.handles[id]) == st
  {
  }

  lemma SetTwice(st: State, id: Id, h: Handle, h': Handle)
    requires Shaped(st) && id in st.handles
    ensures SetHandle(SetHandle(st, id, h), id, h') == SetHandle(st, id, h')
  {
  }

  ghost function Ids(bucket: seq<CpHandle>): (r: seq<Id>)
    ensures |r| == |bucket| && forall i | 0 <= i < |bucket| :: r[i] == bucket[i].id
  {
    seq(|bucket|, i requires 0 <= i < |bucket| => bucket[i].id)
  }

  class Table {
    const granule: nat
    const buckets: array<seq<CpHandle>>
    ghost var handles: map<Id, CpHandle>

    ghost predicate Valid()
      reads this, buckets
    {
      && granule > 0 && buckets.Length == HASH_SIZE
      && (forall id | id in handles :: handles[id].id == id)
      && (forall k | 0 <= k < HASH_SIZE :: forall h | h in buckets[k] :: h.id in handles && handles[h.id] == h)
    }

    ghost function AbsHandles(): map<Id, Handle>
      reads this, handles.Values
    {
      map id | id in handles :: handles[id].Abs()
    }

    ghost function AbsTable(): (t: seq<seq<Id>>)
      reads buckets
      ensures |t| == buckets.Length && forall k | 0 <= k < buckets.Length :: t[k] == Ids(buckets[k])
    {
      seq(buckets.Length, k requires 0 <= k < buckets.Length reads buckets => Ids(buckets[k]))
    }

    ghost function Abs(): (st: State)
      requires Valid()
      reads this, buckets, handles.Values
      ensures Shaped(st)
    {
      State(granule, AbsHandles(), AbsTable())
    }

    constructor (granule: nat)
      requires granule > 0
      ensures Valid() && Abs() == NoHandles(granule) && fresh(buckets)
    {
      this.granule := granule;
      buckets := new seq<CpHandle>[HASH_SIZE](_ => []);
      handles := map[];
      new;
      assert AbsTable() == NoHandles(granule).table;
    }

    /** Changing one handle in place changes one handle of the abstract state. */
    twostate lemma OneHandleChanged(cp: CpHandle)
      requires old(Valid()) && Valid() && unchanged(`handles) && unchanged(buckets)
      requires cp.id in handles && handles[cp.id] == cp
      requires forall h | h in handles.Values && h != cp :: unchanged(h)
      ensures Abs() == SetHandle(old(Abs()), cp.id, cp.Abs())
    {
      forall id | id in handles && id != cp.id ensures handles[id].Abs() == old(handles[id].Abs()) {
        assert handles[id] in handles.Values && handles[id] != cp;
      }
      assert AbsHandles() == old(AbsHandles())[cp.id := cp.Abs()];
      assert AbsTable() == old(AbsTable());
    }

    /** cp_table_lookup: walk the bucket. */
    method Lookup(netns: nat) returns (cp: CpHandle?)
      requires Valid()
      ensures cp == null <==> Cplane.Lookup(Abs(), netns) == None
      ensures cp != null ==> cp.id in handles && handles[cp.id] == cp && Cplane.Lookup(Abs(), netns) == Some(cp.id)
    {
      var bucket := buckets[Hash(granule, netns)];
      ghost var ids := Ids(bucket);
      assert ids == Abs().table[Hash(granule, netns)];
      for i := 0 to |bucket|
        invariant FindIn(Abs(), ids[i..], netns) == FindIn(Abs(), ids, netns)
      {
        assert ids[i..][0] == bucket[i].id && ids[i..][1..] == ids[i + 1..];
        if bucket[i].netns == netns {
          return bucket[i];
        }
      }
      assert ids[|bucket|..] == [];
      cp := null;
    }

    /** cp_table_remove. */
    method Remove(cp: CpHandle)
      requires Valid() && cp.id in handles && handles[cp.id] == cp
      modifies buckets
      ensures Valid() && Abs() == TableRemove(old(Abs()), cp.id)
    {
      var k := Hash(granule, cp.netns);
      var kept := Drop(buckets[k], cp);
      assert forall i | 0 <= i < |buckets[k]| :: buckets[k][i].id == cp.id ==> buckets[k][i] == cp;
      DropIds(buckets[k], cp);
      buckets[k] := kept;
      assert AbsTable() == TableRemove(old(Abs()), cp.id).table;
    }

    /** cp_table_insert. */
    method Insert(cp: CpHandle)
      requires Valid() && cp.id !in handles && cp !in handles.Values
      modifies this`handles, buckets
      ensures Valid() && handles == old(handles)[cp.id := cp]
      ensures var k := Hash(granule, cp.netns);
              Abs() == State(granule, old(Abs()).handles[cp.id := cp.Abs()],
                             old(Abs()).table[k := [cp.id] + old(Abs()).table[k]])
    {
      ghost var st := Abs();
      var k := Hash(granule, cp.netns);
      buckets[k] := [cp] + buckets[k];
      handles := handles[cp.id := cp];
      assert Ids(buckets[k]) == [cp.id] + st.table[k];
      assert AbsTable() == st.table[k := [cp.id] + st.table[k]];
      assert AbsHandles() == st.handles[cp.id := cp.Abs()];
    }

    /** __cp_acquire_from_netns_if_exists. */
    method AcquireIfExists(netns: nat, revive: bool, spawn: bool, ghost t: Token) returns (cp: CpHandle?)
      requires Valid() && Enabled(Abs(), Cplane.AcquireIfExists(netns, revive, spawn, t))
      modifies handles.Values
      ensures Valid() && Abs() == Next(old(Abs()), Cplane.AcquireIfExists(netns, revive, spawn, t))
      ensures cp == null ==> Abs() == old(Abs())
      ensures cp != null ==> cp.netns == netns && t in cp.holders
    {
      hide Next, Cplane.Lookup, Enabled;
      ghost var st := Abs();
      cp := Lookup(netns);
      if cp == null {
        NothingAcquired(st, netns, revive, spawn, t);
        return;
      }
      assert cp in handles.Values && st.handles[cp.id] == cp.Abs();
      var acquired := cp.Acquire(revive, spawn, t);
      OneHandleChanged(cp);
      AcquireMeans(st, netns, revive, spawn, t, cp.id, cp.Abs());
      if !acquired {
        SetSame(st, cp.id);
        cp := null;
      }
    }

    /** A further reference taken by somebody who holds one already. */
    method AcquireFromHolder(cp: CpHandle, ghost holder: Token, ghost t: Token)
      requires Valid() && cp.id in handles && handles[cp.id] == cp
      requires Enabled(Abs(), Cplane.AcquireFromHolder(cp.id, holder, t))
      modifies cp
      ensures Valid() && Abs() == Next(old(Abs()), Cplane.AcquireFromHolder(cp.id, holder, t))
    {
      cp.AddRef(t);
      OneHandleChanged(cp);
    }

    /** The second locked section of __cp_acquire_from_netns: publish the new handle, or drop it and
        join the one somebody else published first. */
    method InsertOrJoin(cp: CpHandle, ghost t: Token) returns (r: CpHandle)
      requires Valid() && cp !in handles.Values
      requires cp.Abs() == Handle(cp.netns, 1, false, None, false, NotQueued, {t}, Alive, 0, 0)
      requires Enabled(Abs(), Cplane.InsertOrJoin(cp.netns, cp.id, t))
      modifies this`handles, buckets, handles.Values
      ensures Valid() && Abs() == Next(old(Abs()), Cplane.InsertOrJoin(cp.netns, cp.id, t))
      ensures r.netns == cp.netns && t in r.holders
    {
      hide Next, Cplane.Lookup, Enabled, Hash;
      ghost var st := Abs();
      var found := Lookup(cp.netns);
      if found != null {
        assert found in handles.Values && st.handles[found.id] == found.Abs();
        JoinMeans(st, cp.netns, cp.id, t, found.id);
        found.AddRef(t);
        OneHandleChanged(found);
        assert Abs() == Joined(st, found.id, t);
        r := found;
      } else {
        InsertMeans(st, cp.netns, cp.id, t);
        assert cp.id !in handles;
        Insert(cp);
        r := cp;
      }
    }

    /** cp_release up to the point where it lets go of the locks; last says that the caller must queue
        the destruction. */
    method DropRef(cp: CpHandle, spawn: bool) returns (last: bool)
      requires Valid() && cp.id in handles && handles[cp.id] == cp && cp.fate.Alive?
      modifies cp, buckets
      ensures Valid() && Abs() == Released(old(Abs()), cp.id, old(cp.Abs()), spawn)
      ensures last <==> cp.fate.LastRefGone?
    {
      last := cp.DropRef(spawn);
      OneHandleChanged(cp);
      if last {
        Remove(cp);
      }
    }

    /** cp_release on behalf of a holder; a handle with a holder is in use. */
    method Release(cp: CpHandle, ghost t: Token, spawn: bool) returns (last: bool)
      requires Valid() && cp.id in handles && handles[cp.id] == cp && cp.fate.Alive?
      requires Enabled(Abs(), Cplane.Release(cp.id, t, spawn))
      modifies cp, buckets
      ensures Valid() && Abs() == Next(old(Abs()), Cplane.Release(cp.id, t, spawn))
      ensures last <==> cp.fate.LastRefGone?
    {
      ghost var st := Abs();
      cp.holders := cp.holders - {t};
      OneHandleChanged(cp);
      ghost var mid := Abs();
      last := DropRef(cp, spawn);
      SetTwice(st, cp.id, mid.handles[cp.id], AfterRelease(mid.handles[cp.id], spawn));
    }

    /** The locked section of cp_kill_work. */
    method KillLocked(cp: CpHandle)
      requires Valid() && cp.id in handles && handles[cp.id] == cp && cp.work.KillStarted?
      modifies cp, buckets
      ensures Valid() && Abs() == Next(old(Abs()), Cplane.KillLocked(cp.id))
    {
      cp.work := KillUnlinked;
      OneHandleChanged(cp);
      Remove(cp);
    }

    /** The release at the end of cp_kill_work. */
    method KillReleases(cp: CpHandle, spawn: bool) returns (last: bool)
      requires Valid() && cp.id in handles && handles[cp.id] == cp && cp.fate.Alive? && cp.work.KillUnlinked?
      modifies cp, buckets
      ensures Valid() && Abs() == Next(old(Abs()), Cplane.KillReleases(cp.id, spawn))
      ensures last <==> cp.fate.LastRefGone?
    {
      ghost var st := Abs();
      cp.work := NotQueued;
      OneHandleChanged(cp);
      ghost var mid := Abs();
      last := DropRef(cp, spawn);
      SetTwice(st, cp.id, mid.handles[cp.id], AfterRelease(mid.handles[cp.id], spawn));
    }

    /** The locked section of cp_mmap_mib for a server: refused if there is a server or ever was one,
        or if nobody but the server itself cares. */
    method Attach(cp: CpHandle, file: Token, ghost call: Token, spawn: bool) returns (ok: bool)
      requires Valid() && cp.id in handles && handles[cp.id] == cp
      requires Enabled(Abs(), Cplane.Attach(cp.id, file, call, spawn))
      modifies cp
      ensures Valid() && Abs() == Next(old(Abs()), Cplane.Attach(cp.id, file, call, spawn))
      ensures ok ==> cp.server == Some(file)
    {
      ok := !(cp.server.Some? || cp.mapped || (spawn && cp.refcount <= 2));
      if ok {
        cp.server := Some(file);
        cp.mapped := true;
      }
      OneHandleChanged(cp);
    }

    /** The locked section of vm_op_close for the server's mapping. */
    method Detach(cp: CpHandle, ghost file: Token)
      requires Valid() && cp.id in handles && handles[cp.id] == cp && cp.server == Some(file)
      modifies cp, buckets
      ensures Valid() && Abs() == Next(old(Abs()), Cplane.Detach(cp.id, file))
    {
      cp.server := None;
      OneHandleChanged(cp);
      Remove(cp);
    }
  }

  function Drop(bucket: seq<CpHandle>, cp: CpHandle): seq<CpHandle> {
    if bucket == [] then []
    else if bucket[0] == cp then Drop(bucket[1..], cp)
    else [bucket[0]] + Drop(bucket[1..], cp)
  }

  lemma {:induction false} DropIds(bucket: seq<CpHandle>, cp: CpHandle)
    requires forall i | 0 <= i < |bucket| :: bucket[i].id == cp.id ==> bucket[i] == cp
    ensures Ids(Drop(bucket, cp)) == Without(Ids(bucket), cp.id)
    ensures forall x | x in Drop(bucket, cp) :: x in bucket
  {
    if bucket != [] {
      DropIds(bucket[1..], cp);
      assert Ids(bucket)[1..] == Ids(bucket[1..]);
    }
  }
}
