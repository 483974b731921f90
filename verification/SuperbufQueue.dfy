/**
 The superbuffer queue as the driver keeps it: objects updated in place.  Every method is
 proved to do to the abstract state exactly what the corresponding function of Superbuf does;
 what the applications wrote into shared memory is read as an arbitrary value, which the
 method hands out.
 */
module SuperbufQueue {
  import opened Chains
  import opened Words
  import opened Superbuf
  import opened SuperbufInvariants

  /** The memory shared with an application.  The application may write to it at any time, so
      nothing is known of a value read from it. */
  class SharedMemory {
    method ReadWord() returns (w: Word) {
      w := *;
    }

    method ReadId() returns (id: HalfWord) {
      id := *;
    }
  }

  class AppRxq {
    const tag: nat
    const max: nat
    const shm: SharedMemory
    var destroy: bool
    var nextSeq: Word
    var current: nat
    var owns: set<Sbid>
    ghost var next: nat
    ghost var posted: seq<Posting>
    ghost var from: nat
    ghost var lagged: bool

    ghost function Abs(): App
      reads this
    {
      App(tag, destroy, nextSeq, current, max, owns, next, posted, from, lagged)
    }

    constructor (tag: nat, max: nat, shm: SharedMemory)
      ensures Abs() == App(tag, false, 0, 0, max, {}, 0, [], 0, false) && this.shm == shm
    {
      this.tag, this.max, this.shm := tag, max, shm;
      destroy, nextSeq, current, owns := false, 0, 0, {};
      next, posted, from, lagged := 0, [], 0, false;
    }

    /** The application's side of its activation. */
    method Start(ghost q: Queue, added: Word)
      requires added == q.added
      modifies this
      ensures Abs() == Activated(q, old(Abs()))
    {
      nextSeq := added;
      next, from := |q.started|, |q.started|;
    }

    /** The application's side of a posting. */
    method Take(ghost q: Queue, entry: Entry, seqno: Word, ghost r: RingRead)
      requires Shaped(q) && entry == ChosenEntry(q, Abs()) && seqno == ChosenSeq(q, Abs())
      modifies this
      ensures Abs() == PostedApp(q, old(Abs()), r)
    {
      ghost var p := ChosenPosition(q, Abs());
      hide ChosenSeq, ChosenEntry, ChosenPosition;
      nextSeq := Wrap(seqno + 1);
      current := current + 1;
      owns := owns + {entry.sbid};
      lagged := lagged || |q.started| - next >= WORD;
      next := p + 1;
      posted := posted + [Posting(p, entry, r.added % RING, Wrap(r.added + 1))];
    }
  }

  ghost function AbsApps(apps: seq<AppRxq>): (s: seq<App>)
    reads apps
    ensures |s| == |apps| && forall i | 0 <= i < |apps| :: s[i] == apps[i].Abs()
  {
    seq(|apps|, i requires 0 <= i < |apps| reads apps => apps[i].Abs())
  }

  /** The three lists of a queue: no application is in two places. */
  ghost predicate Separate(live: seq<AppRxq>, arriving: seq<AppRxq>, dying: seq<AppRxq>) {
    && Distinct(live) && Distinct(arriving) && Distinct(dying)
    && (forall a | a in live :: a !in arriving && a !in dying)
    && (forall a | a in arriving :: a !in dying)
  }

  lemma SeparateUnlink(live: seq<AppRxq>, arriving: seq<AppRxq>, dying: seq<AppRxq>, i: nat)
    requires Separate(live, arriving, dying) && i < |live|
    ensures Separate(live[..i] + live[i + 1..], arriving, [live[i]] + dying)
    ensures forall a | a in live[..i] + live[i + 1..] :: a in live
  {
    assert live[i] in live;
    assert forall a | a in live[..i] + live[i + 1..] :: a in live && a != live[i];
    DistinctConcat([live[i]], dying);
  }

  class RxQueue {
    const ring: array<Entry>
    const refcount: array<nat>
    var added: Word
    var removed: Word
    var live: seq<AppRxq>
    var arriving: seq<AppRxq>
    var dying: seq<AppRxq>
    ghost var started: seq<Entry>
    ghost var ended: nat
    ghost var log: seq<Event>

    ghost predicate Valid()
      reads this
    {
      && ring.Length == RING && refcount.Length == MAX_SUPERBUFS
      && Separate(live, arriving, dying)
    }

    ghost function Abs(): (q: Queue)
      requires Valid()
      reads this, ring, refcount, live, arriving, dying
      ensures Shaped(q) && |q.live| == |live| && |q.arriving| == |arriving|
    {
      Queue(ring[..], added, removed, refcount[..], AbsApps(live), AbsApps(arriving), AbsApps(dying),
            started, ended, log)
    }

    constructor ()
      ensures Valid() && fresh(ring) && fresh(refcount)
      ensures Abs() == Queue(seq(RING, _ => Entry(0, false, 0)), 0, 0, seq(MAX_SUPERBUFS, _ => 0), [], [], [], [], 0, [])
    {
      ring := new Entry[RING](_ => Entry(0, false, 0));
      refcount := new nat[MAX_SUPERBUFS](_ => 0);
      added, removed, live, arriving, dying := 0, 0, [], [], [];
      started, ended, log := [], 0, [];
    }

    /** Changing one live application changes one element of the abstract list and no other. */
    twostate lemma OneAppChanged(i: nat)
      requires old(Valid()) && Valid() && unchanged(`live) && unchanged(`arriving) && unchanged(`dying) && i < |live|
      requires forall a | (a in live && a != live[i]) || a in arriving || a in dying :: unchanged(a)
      ensures AbsApps(live) == old(AbsApps(live))[i := live[i].Abs()]
      ensures AbsApps(arriving) == old(AbsApps(arriving)) && AbsApps(dying) == old(AbsApps(dying))
    {
      forall j | 0 <= j < |live| && j != i ensures live[j].Abs() == old(live[j].Abs()) {
        assert live[j] != live[i] && live[j] in live;
      }
      forall j | 0 <= j < |arriving| ensures arriving[j].Abs() == old(arriving[j].Abs()) {
        assert arriving[j] in arriving;
      }
      forall j | 0 <= j < |dying| ensures dying[j].Abs() == old(dying[j].Abs()) {
        assert dying[j] in dying;
      }
    }

    /** The part of post_superbuf_to_app that takes effect: the entry of sequence number seqno goes
        to the application's ring at the place the ring's counter says. */
    method HandOver(app: AppRxq, ghost i: nat, seqno: Word, shmAdded: Word, ghost r: RingRead)
      requires Valid() && i < |live| && live[i] == app && r.added == shmAdded
      requires CanPost(Abs(), app.Abs(), r) && seqno == ChosenSeq(Abs(), app.Abs())
      modifies refcount, app
      ensures Valid() && Abs() == Superbuf.PostToApp(old(Abs()), i, r)
    {
      ghost var q := Abs();
      var entry := ring[seqno % RING];
      assert q.live[i] == app.Abs() && entry == ChosenEntry(q, q.live[i]);
      hide Wrap, CanPost, ChosenSeq, ChosenEntry, ChosenPosition, Separate;
      refcount[entry.sbid] := refcount[entry.sbid] + 1;
      app.Take(q, entry, seqno, r);
      OneAppChanged(i);
    }

    /** post_superbuf_to_app. */
    method PostToApp(app: AppRxq, ghost i: nat) returns (more: bool, ghost r: RingRead)
      requires Valid() && i < |live| && live[i] == app
      modifies refcount, app
      ensures Valid() && Abs() == Superbuf.PostToApp(old(Abs()), i, r)
      ensures more == CanPost(old(Abs()), old(app.Abs()), r)
    {
      r := RingRead(0, 0);
      if app.destroy || app.nextSeq == added || app.current >= app.max {
        return false, r;
      }
      var shmAdded: int := app.shm.ReadWord();
      var shmRemoved: int := app.shm.ReadWord();
      r := RingRead(shmAdded, shmRemoved);
      if Wrap(shmAdded - shmRemoved) >= RING {
        return false, r;
      }
      var held := Wrap(added - removed);
      var seqno := removed;
      if Wrap(added - app.nextSeq) < held && Wrap(app.nextSeq - removed) < held {
        seqno := app.nextSeq;
      }
      HandOver(app, i, seqno, shmAdded, r);
      more := true;
    }

    /** post_superbuf_to_apps. */
    method PostToApps() returns (ghost rs: seq<RingRead>)
      requires Valid()
      modifies refcount, live
      ensures Valid() && |rs| == |live| && Abs() == Superbuf.PostToApps(old(Abs()), rs)
    {
      rs := [];
      for i := 0 to |live|
        invariant Valid() && |rs| == i
        invariant Abs() == Superbuf.PostToApps(old(Abs()), rs)
      {
        var _, r := PostToApp(live[i], i);
        assert (rs + [r])[..i] == rs;
        rs := rs + [r];
      }
    }

    /** finished_with_superbuf up to the point where it tries to post again. */
    method GiveUp(app: AppRxq, ghost i: nat, sbid: Sbid)
      requires Valid() && i < |live| && live[i] == app && Finishable(Abs(), i, sbid)
      modifies this`log, refcount, app
      ensures Valid() && Abs() == Superbuf.GiveUp(old(Abs()), i, sbid)
    {
      ghost var q := Abs();
      assert q.live[i] == app.Abs();
      app.owns := app.owns - {sbid};
      app.current := app.current - 1;
      refcount[sbid] := refcount[sbid] - 1;
      if refcount[sbid] == 0 {
        log := log + [Released(sbid)];
      }
      OneAppChanged(i);
    }

    /** finished_with_superbuf. */
    method FinishedWith(app: AppRxq, ghost i: nat, sbid: Sbid) returns (ghost r: RingRead)
      requires Valid() && i < |live| && live[i] == app && Finishable(Abs(), i, sbid)
      modifies this`log, refcount, app
      ensures Valid() && Abs() == Finish(old(Abs()), i, sbid, r)
    {
      GiveUp(app, i, sbid);
      var _, seen := PostToApp(app, i);
      r := seen;
    }

    /** A superbuffer id from outside is acted on only if the application owns that superbuffer. */
    method TakeBack(app: AppRxq, ghost i: nat, id: HalfWord) returns (ghost f: FreeRead)
      requires Valid() && i < |live| && live[i] == app && Backed(Abs(), i)
      modifies this`log, refcount, app
      ensures Valid() && f.id == id && Abs() == Superbuf.TakeBack(old(Abs()), i, f)
      ensures old(app.destroy) ==> Abs() == Superbuf.TakeBack(old(Abs()), i, FreeRead(id, RingRead(0, 0)))
    {
      f := FreeRead(id, RingRead(0, 0));
      assert Abs().live[i] == app.Abs();
      if id < MAX_SUPERBUFS && id in app.owns {
        var r := FinishedWith(app, i, id);
        f := FreeRead(id, r);
      }
    }

    /** One entry of the free ring, after those in ids. */
    method TakeNext(app: AppRxq, ghost i: nat, ghost q: Queue, ghost ids: seq<FreeRead>)
      returns (ghost more: seq<FreeRead>)
      requires Valid() && i < |live| && live[i] == app && Shaped(q) && Reapable(q, i) && Abs() == Drain(q, i, ids)
      modifies this`log, refcount, app
      ensures Valid() && |more| == |ids| + 1 && Abs() == Drain(q, i, more)
    {
      hide Superbuf.TakeBack;
      var id := app.shm.ReadId();
      var f := TakeBack(app, i, id);
      more := ids + [f];
      assert more[..|ids|] == ids;
    }

    /** The live branch of reap_superbufs_from_apps: the application's free ring as read, at most
        once around; the counter it writes back is past exactly what it looked at. */
    method DrainFreeRing(app: AppRxq, ghost i: nat)
      returns (written: Word, ghost added0: Word, ghost removed0: Word, ghost ids: seq<FreeRead>)
      requires Valid() && i < |live| && live[i] == app && Reapable(Abs(), i)
      modifies this`log, refcount, app
      ensures Valid() && Abs() == Drain(old(Abs()), i, ids)
      ensures |ids| == Pending(added0, removed0) && written == Wrap(removed0 + |ids|)
      ensures |ids| <= RING && |ids| <= (added0 - removed0) % WORD && (written == added0 || |ids| == RING)
    {
      ghost var q := Abs();
      DrainNothing(q, i);
      var freeAdded: Word := app.shm.ReadWord();
      var freeRemoved: Word := app.shm.ReadWord();
      hide Wrap, Pending, Drain, Reapable, Reached, Separate;
      ReachedStart(freeAdded, freeRemoved);
      added0, removed0, ids, written := freeAdded, freeRemoved, [], freeRemoved;
      var maxLoop := RING;
      while written != freeAdded && maxLoop > 0
        invariant 0 <= maxLoop <= RING && |ids| == RING - maxLoop && Reached(freeAdded, freeRemoved, |ids|, written)
        invariant Valid() && Abs() == Drain(q, i, ids)
        decreases maxLoop
      {
        ReachedNext(freeAdded, freeRemoved, |ids|, written);
        maxLoop := maxLoop - 1;
        written := Wrap(written + 1);
        ids := TakeNext(app, i, q, ids);
      }
      ReachedEnd(freeAdded, freeRemoved, |ids|, written);
    }

    /** The destroyed branch of reap_superbufs_from_apps: every set bit, from the lowest up. */
    method StripApp(app: AppRxq, ghost i: nat)
      requires Valid() && i < |live| && live[i] == app && app.destroy && Reapable(Abs(), i)
      modifies this`log, refcount, app
      ensures Valid() && Abs() == Strip(old(Abs()), i, AllSuperbufs())
    {
      ghost var q, all := Abs(), AllSuperbufs();
      for sbid := 0 to MAX_SUPERBUFS
        invariant Valid() && app.destroy && Abs() == Strip(q, i, all[..sbid])
      {
        var _ := TakeBack(app, i, sbid);
        assert all[..sbid + 1][..sbid] == all[..sbid];
      }
      assert all[..MAX_SUPERBUFS] == all;
    }

    /** Unlinking a live application hands it to the destructor's list. */
    method Unlink(i: nat)
      requires Valid() && i < |live|
      modifies this`live, this`dying
      ensures Valid() && Abs() == Superbuf.Unlink(old(Abs()), i)
      ensures live == old(live[..i] + live[i + 1..]) && forall a | a in live :: a in old(live)
    {
      var app := live[i];
      ghost var q := Abs();
      SeparateUnlink(live, arriving, dying, i);
      live, dying := live[..i] + live[i + 1..], [app] + dying;
      assert AbsApps(live) == q.live[..i] + q.live[i + 1..];
      assert AbsApps(dying) == [q.live[i]] + q.dying;
    }

    /** One round of reap_superbufs_from_apps. */
    method ReapOne(i: nat) returns (next: nat, ghost ids: seq<FreeRead>)
      requires Valid() && Reapable(Abs(), i)
      modifies this`log, this`live, this`dying, refcount, live[i]
      ensures Valid() && Abs() == Superbuf.ReapOne(old(Abs()), i, ids)
      ensures next == (if old(live[i].destroy) then i else i + 1)
      ensures |live| == |old(live)| - (if old(live[i].destroy) then 1 else 0) && forall a | a in live :: a in old(live)
    {
      var app := live[i];
      ids := [];
      assert Abs().live[i] == app.Abs();
      if app.destroy {
        StripApp(app, i);
        Unlink(i);
        next := i;
      } else {
        var _, _, _, seen := DrainFreeRing(app, i);
        ids := seen;
        next := i + 1;
      }
    }

    /** reap_superbufs_from_apps. */
    method ReapSuperbufs() returns (ghost views: seq<seq<FreeRead>>)
      requires Valid() && ReapableThroughout(Abs())
      modifies this`log, this`live, this`dying, refcount, live
      ensures Valid() && |views| == |old(live)| && Abs() == Reap(old(Abs()), views).q
      ensures forall a | a in live :: a in old(live)
    {
      ghost var q := Abs();
      views := [];
      var i := 0;
      while i < |live|
        invariant Valid() && |views| <= |q.live|
        invariant Abs() == Reap(q, views).q && i == Reap(q, views).i <= |live|
        invariant forall a | a in live :: a in old(live)
        decreases |live| - i
      {
        ghost var n := |views|;
        assert n < |q.live| && Reapable(Reap(q, views).q, Reap(q, views).i) && live[i] in live;
        var next, ids := ReapOne(i);
        assert (views + [ids])[..n] == views;
        views := views + [ids];
        i := next;
      }
    }

    /** The loop of activate_new_apps: every new application starts at the next superbuffer. */
    method StartNewApps()
      requires Valid()
      modifies arriving
      ensures AbsApps(live) == old(AbsApps(live)) && AbsApps(dying) == old(AbsApps(dying))
      ensures forall j | 0 <= j < |arriving| :: arriving[j].Abs() == Activated(old(Abs()), old(Abs()).arriving[j])
    {
      ghost var q := Abs();
      hide Activated;
      for i := 0 to |arriving|
        invariant forall j | 0 <= j < |arriving| ::
                    arriving[j].Abs() == if j < i then Activated(q, q.arriving[j]) else q.arriving[j]
        invariant forall j | 0 <= j < |live| :: live[j].Abs() == q.live[j]
        invariant forall j | 0 <= j < |dying| :: dying[j].Abs() == q.dying[j]
      {
        var app := arriving[i];
        assert forall j | 0 <= j < |live| :: live[j] in live;
        assert forall j | 0 <= j < |dying| :: dying[j] in dying;
        assert app in arriving;
        app.Start(q, added);
      }
    }

    /** activate_new_apps. */
    method ActivateNewApps()
      requires Valid()
      modifies this`live, this`arriving, arriving
      ensures Valid() && Abs() == Activate(old(Abs()))
      ensures live == old(arriving + live) && arriving == []
    {
      ghost var q := Abs();
      StartNewApps();
      DistinctConcat(arriving, live);
      live, arriving := arriving + live, [];
      hide Activated;
      assert AbsApps(live) == Activate(q).live;
    }

    /** efct_poll. */
    method Poll() returns (ghost views: seq<seq<FreeRead>>)
      requires Valid() && Inv(Abs()) && Stocked(Abs())
      modifies this`log, this`live, this`arriving, this`dying, refcount, live, arriving
      ensures Valid() && |views| == |old(arriving)| + |old(live)|
      ensures Abs() == Superbuf.Poll(old(Abs()), views) && Inv(Abs())
    {
      ghost var q := Abs();
      ActivateKeepsInv(q);
      InvReapableThroughout(Activate(q));
      ActivateNewApps();
      views := ReapSuperbufs();
      ReapKeepsInv(Activate(q), views);
    }

    /** The driver's reference and ring slot of a started superbuffer. */
    method Record(e: Entry)
      requires Valid()
      modifies this`added, this`started, this`log, ring, refcount
      ensures Valid() && Abs() == Lend(old(Abs()), e)
    {
      hide Wrap, Separate;
      refcount[e.sbid] := refcount[e.sbid] + 1;
      ring[added % RING] := e;
      added := Wrap(added + 1);
      started, log := started + [e], log + [Started(e.sbid)];
    }

    /** efct_buffer_start; a negative superbuffer id is refused. */
    method BufferStart(sbseq: Word, sbid: int, sentinel: bool) returns (rc: int, ghost rs: seq<RingRead>)
      requires Valid() && sbid < MAX_SUPERBUFS
      modifies this`live, this`arriving, this`added, this`started, this`log, ring, refcount, live, arriving
      ensures Valid() && rc == if sbid < 0 then -1 else 1
      ensures sbid < 0 ==> Abs() == old(Abs())
      ensures sbid >= 0 ==> |rs| == |old(arriving)| + |old(live)| &&
                            Abs() == Start(old(Abs()), Entry(sbid, sentinel, sbseq), rs)
    {
      rs := [];
      if sbid < 0 {
        return -1, rs;
      }
      ActivateNewApps();
      Record(Entry(sbid, sentinel, sbseq));
      hide Lend, Superbuf.PostToApps, Activate;
      rs := PostToApps();
      rc := 1;
    }

    /** efct_buffer_end; true means the net driver has the superbuffer back. */
    method BufferEnd(sbid: Sbid) returns (back: bool)
      requires Valid() && refcount[sbid] > 0
      modifies this`removed, this`ended, this`log, refcount
      ensures Valid() && Abs() == End(old(Abs()), sbid)
      ensures back <==> log == old(log) + [Released(sbid)]
    {
      removed, ended := Wrap(removed + 1), ended + 1;
      refcount[sbid] := refcount[sbid] - 1;
      back := refcount[sbid] == 0;
      if back {
        log := log + [Released(sbid)];
      }
    }

    /** The part of efct_nic_rxq_bind that concerns the queue. */
    method Bind(app: AppRxq)
      requires Valid() && app !in live && app !in arriving && app !in dying
      requires app.Abs() == App(app.tag, false, 0, 0, app.max, {}, 0, [], 0, false)
      modifies this`arriving
      ensures Valid() && Abs() == Superbuf.Bind(old(Abs()), app.tag, app.max)
    {
      arriving := [app] + arriving;
      assert AbsApps(arriving) == [app.Abs()] + old(AbsApps(arriving));
    }

    /** The part of efct_nic_rxq_free that concerns the queue: the application is only marked. */
    method Free(app: AppRxq)
      requires Valid() && (app in live || app in arriving)
      requires forall a | a in live || a in arriving :: a.tag == app.tag ==> a == app
      modifies app`destroy
      ensures Valid() && Abs() == Superbuf.Free(old(Abs()), app.tag)
    {
      ghost var q := Abs();
      app.destroy := true;
      assert forall j | 0 <= j < |live| :: live[j] in live;
      assert forall j | 0 <= j < |arriving| :: arriving[j] in arriving;
      assert forall j | 0 <= j < |dying| :: dying[j] in dying;
      assert AbsApps(live) == MarkedByTag(q.live, app.tag);
      assert AbsApps(arriving) == MarkedByTag(q.arriving, app.tag);
      assert AbsApps(dying) == q.dying;
    }

    /** efct_destruct_apps_work: it frees every application handed to it, and none of them owns anything. */
    method DestructApps() returns (freed: seq<AppRxq>)
      requires Valid() && Inv(Abs())
      modifies this`dying
      ensures Valid() && Abs() == Destruct(old(Abs())) && freed == old(dying)
      ensures forall a | a in freed :: a.current == 0 && a.owns == {}
    {
      assert forall i | 0 <= i < |dying| :: OwnsNothing(Abs().dying[i]);
      freed, dying := dying, [];
    }
  }

  lemma DrainNothing(q: Queue, i: nat)
    requires Shaped(q) && i < |q.live|
    ensures Drain(q, i, []) == q
  {
  }

  /** The free ring's counter after n of the elements a poll looks at. */
  ghost predicate Reached(added: Word, removed: Word, n: nat, written: Word) {
    n <= Pending(added, removed) && written == Wrap(removed + n)
  }

  lemma ReachedStart(added: Word, removed: Word)
    ensures Reached(added, removed, 0, removed)
  {
  }

  lemma ReachedNext(added: Word, removed: Word, n: nat, written: Word)
    requires Reached(added, removed, n, written) && n < RING && written != added
    ensures Reached(added, removed, n + 1, Wrap(written + 1))
  {
    WrapSum(removed + n, 1);
    if n == Wrap(added - removed) {
      WrapSum(added - removed, removed);
    }
  }

  lemma ReachedEnd(added: Word, removed: Word, n: nat, written: Word)
    requires Reached(added, removed, n, written) && (n == RING || written == added)
    ensures n == Pending(added, removed) && written == Wrap(removed + n)
  {
    if n < RING {
      WrapDifference(removed + n, removed);
    }
  }
}
