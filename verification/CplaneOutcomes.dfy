/**
 What becomes of a handle in each step, in terms of who holds it: when the kill of an orphaned server is scheduled,
 when the last reference goes, who gets a reference, and when a handle enters and leaves the table.
 */
module CplaneOutcomes {
  import opened Options
  import opened Cplane

  lemma OnlyOne(s: set<Token>, x: Token)
    requires x in s
    ensures |s| == 1 <==> s == {x}
    ensures |s - {x}| == |s| - 1
  {
    if |s| == 1 {
      assert |s - {x}| == 0;
      assert s == {x} + (s - {x});
    }
  }

  lemma OnlyTwo(s: set<Token>, x: Token, y: Token)
    requires x in s && y in s && x != y
    ensures |s| >= 2
    ensures |s| == 2 <==> s == {x, y}
    ensures s - {x} == {y} <==> s == {x, y}
  {
    assert {x, y} <= s && |{x, y}| == 2;
    assert s == {x, y} + (s - {x, y});
    assert |s| == 2 + |s - {x, y}|;
    if s - {x} == {y} {
      assert s == {x} + (s - {x});
    }
  }

  // ----- Releasing -----

  /** cp_release for a holder other than the attached server: the handle goes exactly if nobody else holds it and kill
      work has no reference, or has one it can be deprived of; the kill is scheduled exactly if, with servers
      spawned, only the server's file is left and the handle is not killed. */
  lemma ReleaseOutcome(h: Handle, t: Token, spawn: bool)
    requires HandleOk(h) && t in h.holders && h.server != Some(t)
    ensures var h' := AfterRelease(h.(holders := h.holders - {t}), spawn);
            && (h'.fate.LastRefGone? <==> h.holders == {t} && (HoldsKillRef(h.work) ==> spawn && h.work.KillPending?))
            && (h'.fate.Alive? || h'.fate.LastRefGone?)
            && (h'.work.KillPending? && !h.work.KillPending? <==>
                  spawn && h.server.Some? && !h.killed && h.holders == {t, h.server.value})
            && (h'.fate.Alive? ==>
                  (h'.killed <==> h.killed || h'.work.KillPending?) && (h.work.KillPending? ==> h'.work == h.work))
            && h'.server == h.server && h'.holders == h.holders - {t}
  {
    OnlyOne(h.holders, t);
    if h.server.Some? {
      OnlyTwo(h.holders, t, h.server.value);
    }
  }

  /** The release that ends the kill: the handle goes exactly if nobody holds it, and otherwise stays killed. */
  lemma KillReleaseOutcome(h: Handle, spawn: bool)
    requires HandleOk(h) && h.fate.Alive? && h.work.KillUnlinked?
    ensures var h' := AfterRelease(h.(work := NotQueued), spawn);
            && (h'.fate.LastRefGone? <==> h.holders == {}) && (h'.fate.Alive? || h'.fate.LastRefGone?)
            && (h'.fate.Alive? ==> h' == h.(refcount := h.refcount - 1, work := NotQueued))
            && h'.server == h.server && h'.holders == h.holders && !h'.work.KillPending?
  {
    assert |h.holders| == 0 <==> h.holders == {};
  }

  /** Apart from a release, a step that concerns one handle by its name leaves every other as it is, and the locked
      lookups add their caller to the handle they find or leave it as it is. */
  lemma Untouched(st: State, act: Action, id: Id)
    requires Inv(st) && Enabled(st, act) && id in st.handles
    ensures id in Next(st, act).handles
    ensures !act.AcquireIfExists? && !act.InsertOrJoin? && act.id != id ==> Next(st, act).handles[id] == st.handles[id]
    ensures act.AcquireIfExists? || act.InsertOrJoin? ==> JoinedOrSame(st.handles[id], Next(st, act).handles[id], act.token)
  {
    hide Inv, Lookup, AfterRelease;
    if act.AcquireIfExists? || act.InsertOrJoin? {
      LookupsJoin(st, act, id);
    }
  }

  predicate JoinedOrSame(h: Handle, h': Handle, t: Token) {
    h' == h || (t !in h.holders && h'.holders == h.holders + {t} && h'.server == h.server && h'.fate == h.fate &&
                !(h'.work.KillPending? && !h.work.KillPending?))
  }

  lemma LookupsJoin(st: State, act: Action, id: Id)
    requires Inv(st) && Enabled(st, act) && id in st.handles && (act.AcquireIfExists? || act.InsertOrJoin?)
    ensures id in Next(st, act).handles && JoinedOrSame(st.handles[id], Next(st, act).handles[id], act.token)
  {
    hide Inv, Lookup;
  }

  /** Kill work becomes pending in a step exactly if the step releases, with servers spawned, the last holder but the
      server's own file of a handle that is not killed. */
  lemma KillScheduledExactly(st: State, act: Action, id: Id)
    requires Inv(st) && Enabled(st, act) && id in st.handles && !st.handles[id].work.KillPending?
    ensures id in Next(st, act).handles
    ensures var h := st.handles[id];
            Next(st, act).handles[id].work.KillPending? <==>
              act.Release? && act.id == id && act.spawn && h.server.Some? && !h.killed &&
              h.holders == {act.token, h.server.value}
  {
    var h := st.handles[id];
    assert HandleOk(h);
    Untouched(st, act, id);
    hide Inv, AfterRelease, HandleOk, Lookup, TableRemove;
    if act.Release? && act.id == id {
      ReleaseOutcome(h, act.token, act.spawn);
    } else if act.KillReleases? && act.id == id {
      KillReleasesAlive(st, id);
      KillReleaseOutcome(h, act.spawn);
    }
  }

  lemma KillReleasesAlive(st: State, id: Id)
    requires Inv(st) && id in st.handles && HoldsKillRef(st.handles[id].work)
    ensures st.handles[id].fate.Alive? && HandleOk(st.handles[id])
  {
    assert HandleOk(st.handles[id]);
  }

  // ----- No orphan is left -----

  /** Every step that may spawn servers does so. */
  predicate Spawning(act: Action) {
    (act.AcquireIfExists? || act.Release? || act.Attach? || act.KillReleases?) ==> act.spawn
  }

  /** A handle in use whose only holder is its attached server is killed. */
  predicate OrphanKilled(h: Handle) {
    h.fate.Alive? && h.server.Some? && h.holders == {h.server.value} ==> h.killed
  }

  predicate OrphansKilled(st: State) {
    forall id | id in st.handles :: OrphanKilled(st.handles[id])
  }

  lemma OrphanStep(st: State, act: Action, id: Id)
    requires Inv(st) && Enabled(st, act) && Spawning(act) && OrphansKilled(st) && id in st.handles
    ensures id in Next(st, act).handles && OrphanKilled(Next(st, act).handles[id])
  {
    var h := st.handles[id];
    assert HandleOk(h) && OrphanKilled(h);
    Untouched(st, act, id);
    hide Inv, AfterRelease, HandleOk, Lookup, TableRemove;
    if act.Release? && act.id == id {
      ReleaseOutcome(h, act.token, act.spawn);
      if h.server.Some? {
        OnlyTwo(h.holders, act.token, h.server.value);
      }
    } else if act.KillReleases? && act.id == id {
      KillReleasesAlive(st, id);
      KillReleaseOutcome(h, act.spawn);
    } else if act.Attach? && act.id == id {
      assert act.file in h.holders && act.call in h.holders && act.file != act.call;
    } else if act.AcquireIfExists? || act.InsertOrJoin? {
      JoinedByAnother(st, act, id);
    }
  }

  lemma JoinedByAnother(st: State, act: Action, id: Id)
    requires Inv(st) && Enabled(st, act) && id in st.handles && (act.AcquireIfExists? || act.InsertOrJoin?)
    ensures id in Next(st, act).handles
    ensures OrphanKilled(st.handles[id]) ==> OrphanKilled(Next(st, act).handles[id])
  {
    var (h, h') := (st.handles[id], Next(st, act).handles[id]);
    Untouched(st, act, id);
    assert HandleOk(h);
    if h' != h && h'.server.Some? && h'.fate.Alive? {
      assert h.server.value in h.holders && h'.holders != {h.server.value} by {
        assert act.token in h'.holders && act.token != h.server.value;
      }
    }
  }

  /** Over every run in which servers are spawned: no server is left alone on a handle without its kill scheduled. */
  lemma {:induction false} OrphansAreKilled(st: State, acts: seq<Action>)
    requires Inv(st) && OrphansKilled(st) && Legal(st, acts) && forall i | 0 <= i < |acts| :: Spawning(acts[i])
    ensures OrphansKilled(Exec(st, acts))
    decreases |acts|
  {
    if acts != [] {
      var st' := Next(st, acts[0]);
      forall id | id in st'.handles ensures OrphanKilled(st'.handles[id]) {
        if id in st.handles {
          OrphanStep(st, acts[0], id);
        }
      }
      StepKeepsInv(st, acts[0]);
      OrphansAreKilled(st', acts[1..]);
    }
  }

  /** In every state of every run from the start with servers spawned: whoever is attached as server is either killed or
      not the only holder. */
  lemma NoOrphanLives(granule: nat, acts: seq<Action>, id: Id)
    requires granule > 0 && Legal(NoHandles(granule), acts) && forall i | 0 <= i < |acts| :: Spawning(acts[i])
    requires id in Exec(NoHandles(granule), acts).handles
    ensures var h := Exec(NoHandles(granule), acts).handles[id];
            h.fate.Alive? && h.server.Some? && h.holders == {h.server.value} ==> h.killed
  {
    OrphansAreKilled(NoHandles(granule), acts);
  }

  // ----- Who gets a reference -----

  /** The lookup by namespace makes its caller a holder of the handle in the table for that namespace, and of no other,
      exactly if there is one and it is not killed, or servers are not spawned, or its kill is called off. */
  lemma AcquireExactly(st: State, netns: nat, revive: bool, spawn: bool, t: Token, id: Id)
    requires Inv(st) && Enabled(st, AcquireIfExists(netns, revive, spawn, t)) && id in st.handles
    ensures var st' := Next(st, AcquireIfExists(netns, revive, spawn, t)); var h := st.handles[id];
            && id in st'.handles
            && (t in st'.handles[id].holders <==>
                  Linked(st, id) && h.netns == netns && (spawn && h.killed ==> revive && h.work.KillPending?))
            && (t !in st'.handles[id].holders ==> st'.handles[id] == h)
  {
    LookupExactly(st, netns, id);
    var found := Lookup(st, netns);
    if found.Some? && found.value != id {
      LookupExactly(st, netns, found.value);
    }
  }

  /** The second lookup makes its caller a holder of a handle of the namespace that is in the table afterwards: the one
      found there, or else the new one. */
  lemma InsertExactly(st: State, netns: nat, id: Id, t: Token)
    requires Inv(st) && Enabled(st, InsertOrJoin(netns, id, t))
    ensures var st' := Next(st, InsertOrJoin(netns, id, t)); var found := Lookup(st', netns);
            && Shaped(st') && found.Some? && t in st'.handles[found.value].holders
            && (found.value == id <==> Lookup(st, netns).None?)
            && (found.value != id ==> Lookup(st, netns) == found)
  {
    var st' := Next(st, InsertOrJoin(netns, id, t));
    StepKeepsInv(st, InsertOrJoin(netns, id, t));
    var found := Lookup(st, netns);
    if found.Some? {
      LookupExactly(st, netns, found.value);
      LookupExactly(st', netns, found.value);
    } else {
      assert Linked(st', id);
      LookupExactly(st', netns, id);
    }
  }

  lemma SecondHolder(st: State, id: Id, holder: Token, t: Token)
    requires Inv(st) && Enabled(st, AcquireFromHolder(id, holder, t))
    ensures Next(st, AcquireFromHolder(id, holder, t)).handles[id].holders == st.handles[id].holders + {t}
  {
  }

  /** A server is attached exactly if none is, none ever was and, when servers are spawned, somebody or a kill has a
      reference besides the server's own file and call. */
  lemma AttachExactly(st: State, id: Id, file: Token, call: Token, spawn: bool)
    requires Inv(st) && Enabled(st, Attach(id, file, call, spawn))
    ensures var h := st.handles[id];
            Next(st, Attach(id, file, call, spawn)) ==
              if h.server.None? && !h.mapped && (spawn ==> h.holders != {file, call} || HoldsKillRef(h.work))
              then SetHandle(st, id, h.(server := Some(file), mapped := true)) else st
  {
    assert HandleOk(st.handles[id]);
    OnlyTwo(st.handles[id].holders, file, call);
  }

  // ----- The table -----

  lemma Retired(st: State, id: Id, h: Handle, x: Id, k: nat)
    requires Inv(st) && id in st.handles && h.netns == st.handles[id].netns && k < HASH_SIZE
    ensures var st' := TableRemove(SetHandle(st, id, h), id); x in st'.table[k] <==> x in st.table[k] && x != id
  {
    if x in st.table[k] && x == id {
      assert Hash(st.granule, st.handles[id].netns) == k;
    }
  }

  /** The step takes x out of the table, if it is there. */
  predicate Retires(st: State, act: Action, x: Id)
    requires Shaped(st) && Enabled(st, act)
  {
    || (act.Detach? && act.id == x)
    || act == KillLocked(x)
    || ((act.Release? || act.KillReleases?) && act.id == x && Next(st, act).handles[x].fate.LastRefGone?)
  }

  /** What is in the table after a step. */
  lemma TableAfter(st: State, act: Action, x: Id, k: nat)
    requires Inv(st) && Enabled(st, act) && k < HASH_SIZE
    ensures x in Next(st, act).table[k] <==>
              (x in st.table[k] && !Retires(st, act, x)) ||
              (act.InsertOrJoin? && x == act.id && Lookup(st, act.netns).None? && k == Hash(st.granule, act.netns))
  {
    hide Lookup, HandleOk, TableOk, Hash;
    match act
    case Release(id, t, spawn) =>
      ReleasedTable(st, id, st.handles[id].(holders := st.handles[id].holders - {t}), spawn, x, k);
    case KillReleases(id, spawn) => ReleasedTable(st, id, st.handles[id].(work := NotQueued), spawn, x, k);
    case Detach(id, _) => Retired(st, id, st.handles[id].(server := None), x, k);
    case KillLocked(id) => Retired(st, id, st.handles[id].(work := KillUnlinked), x, k);
    case InsertOrJoin(netns, id, t) => InsertedTable(st, netns, id, t, x, k);
    case _ =>
  }

  lemma ReleasedTable(st: State, id: Id, h: Handle, spawn: bool, x: Id, k: nat)
    requires Inv(st) && id in st.handles && h.netns == st.handles[id].netns && k < HASH_SIZE
    ensures x in Released(st, id, h, spawn).table[k] <==>
              x in st.table[k] && !(x == id && AfterRelease(h, spawn).fate.LastRefGone?)
    ensures Released(st, id, h, spawn).handles[id] == AfterRelease(h, spawn)
  {
    if AfterRelease(h, spawn).fate.LastRefGone? {
      Retired(st, id, AfterRelease(h, spawn), x, k);
    }
  }

  lemma InsertedTable(st: State, netns: nat, id: Id, t: Token, x: Id, k: nat)
    requires Inv(st) && Enabled(st, InsertOrJoin(netns, id, t)) && k < HASH_SIZE
    ensures x in Next(st, InsertOrJoin(netns, id, t)).table[k] <==>
              x in st.table[k] || (x == id && Lookup(st, netns).None? && k == Hash(st.granule, netns))
  {
    hide Lookup, Hash;
  }

  /** A handle leaves the table in a step exactly if its server is detached, its kill gets to its locked part, or its last
      reference goes. */
  lemma LeavesExactly(st: State, act: Action, id: Id)
    requires Inv(st) && Enabled(st, act) && id in st.handles && Linked(st, id)
    ensures Shaped(Next(st, act)) && id in Next(st, act).handles
    ensures !Linked(Next(st, act), id) <==> Retires(st, act, id)
  {
    TableAfter(st, act, id, Hash(st.granule, st.handles[id].netns));
    SameNamespace(st, act, id);
    hide Inv, Next, Lookup, Retires, Hash;
  }

  lemma SameNamespace(st: State, act: Action, id: Id)
    requires Shaped(st) && Enabled(st, act) && id in st.handles
    ensures id in Next(st, act).handles && Next(st, act).handles[id].netns == st.handles[id].netns
    ensures Next(st, act).granule == st.granule
  {
  }

  /** A handle enters the table when it is made, if there is none of its namespace, and never again. */
  lemma EntersExactly(st: State, act: Action, id: Id)
    requires Inv(st) && Enabled(st, act) && id in Next(st, act).handles && !(id in st.handles && Linked(st, id))
    ensures Shaped(Next(st, act))
    ensures Linked(Next(st, act), id) <==> id !in st.handles
  {
    if id in st.handles {
      TableAfter(st, act, id, Hash(st.granule, st.handles[id].netns));
      SameNamespace(st, act, id);
      hide Inv, Next, Lookup, Retires, Hash;
    }
  }

  // ----- Servers and kills -----

  /** A server comes with an attach that is not refused, and goes with its detach. */
  lemma ServerExactly(st: State, act: Action, id: Id)
    requires Inv(st) && Enabled(st, act) && id in st.handles
    ensures id in Next(st, act).handles
    ensures var (h, h') := (st.handles[id], Next(st, act).handles[id]);
            && (h.server.Some? && h'.server.None? <==> act.Detach? && act.id == id)
            && (h'.server != h.server && h'.server.Some? ==> act.Attach? && act.id == id && h'.server == Some(act.file))
            && (act.Detach? && act.id == id ==> h' == h.(server := None))
  {
    Untouched(st, act, id);
    hide Inv, Lookup, TableRemove;
  }

  /** A kill that is pending can run up to and including its locked part: the handle is then out of the table. */
  lemma KillUnlinks(st: State, id: Id)
    requires Inv(st) && id in st.handles && st.handles[id].work.KillPending?
    ensures Enabled(st, KillFires(id))
    ensures var st1 := Next(st, KillFires(id));
            Inv(st1) && Enabled(st1, KillLocked(id)) &&
            var st2 := Next(st1, KillLocked(id));
            && Inv(st2) && id in st2.handles && !Linked(st2, id) && st2.handles[id] == st.handles[id].(work := KillUnlinked)
  {
    var st1 := Next(st, KillFires(id));
    StepKeepsInv(st, KillFires(id));
    StepKeepsInv(st1, KillLocked(id));
    TableAfter(st1, KillLocked(id), id, Hash(st.granule, st.handles[id].netns));
    hide Inv, Lookup, Hash;
  }

  /** And then to its end: the handle is without kill work and still out of the table, and gone exactly if nobody holds it. */
  lemma KillEnds(st: State, id: Id, spawn: bool)
    requires Inv(st) && id in st.handles && st.handles[id].work.KillUnlinked? && !Linked(st, id)
    ensures Enabled(st, KillReleases(id, spawn))
    ensures var st' := Next(st, KillReleases(id, spawn)); var (h, h') := (st.handles[id], st'.handles[id]);
            && id in st'.handles && !Linked(st', id) && !HoldsKillRef(h'.work) && h'.holders == h.holders
            && (h'.fate.LastRefGone? <==> h.holders == {}) && (h'.fate.Alive? ==> h'.killed)
  {
    KillReleasesAlive(st, id);
    assert st.handles[id].killed;
    TableAfter(st, KillReleases(id, spawn), id, Hash(st.granule, st.handles[id].netns));
    SameNamespace(st, KillReleases(id, spawn), id);
    ReleasedTable(st, id, st.handles[id].(work := NotQueued), spawn, id, 0);
    hide Inv, HandleOk, Lookup, Hash;
    KillReleaseOutcome(st.handles[id], spawn);
  }

  /** A handle whose last reference went can be destroyed, and then is freed. */
  lemma DestroyRunsThrough(st: State, id: Id)
    requires Inv(st) && id in st.handles && st.handles[id].fate.LastRefGone? && st.handles[id].due > 0
    ensures Enabled(st, QueueDestroy(id))
    ensures var st1 := Next(st, QueueDestroy(id));
            Shaped(st1) && Enabled(st1, Destroy(id)) && Next(st1, Destroy(id)).handles[id].fate.Freed?
  {
    assert HandleOk(st.handles[id]);
  }
}
