/**
 Who is given which superbuffer, in terms of what the driver started and the words read from the rings: what a
 start posts, what comes of an id in a free ring, and what a poll leaves of every application.
 */
module SuperbufDelivery {
  import opened Words
  import opened Superbuf
  import opened SuperbufInvariants

  /** The driver's side of two queues is the same. */
  ghost predicate SameStream(q: Queue, q': Queue) {
    q'.ring == q.ring && q'.added == q.added && q'.removed == q.removed && q'.started == q.started && q'.ended == q.ended
  }

  /** The application is to be given a superbuffer: it is not marked, owns fewer than it may, has not seen all there are,
      and its ring has room.  A lag of a multiple of 2^32 looks like none. */
  ghost predicate Due(q: Queue, a: App, r: RingRead) {
    !a.destroy && |a.owns| < a.max && (|q.started| - a.next) % WORD != 0 && (r.added - r.removed) % WORD < RING
  }

  /** It is given one it does not own: the first one held that it has not seen if it lags by less than 2^32, and
      always one held that it has not seen.  The entry goes into the slot its ring's counter names. */
  ghost predicate Given(q: Queue, a: App, r: RingRead, a': App) {
    var p := a'.next - 1;
    && Held(q, p) && a.next <= p
    && (|q.started| - a.next < WORD ==> p == if a.next < q.ended then q.ended else a.next)
    && q.started[p].sbid !in a.owns
    && a' == a.(nextSeq := (p + 1) % WORD, next := p + 1, current := a.current + 1,
                owns := a.owns + {q.started[p].sbid}, lagged := a.lagged || |q.started| - a.next >= WORD,
                posted := a.posted + [Posting(p, q.started[p], r.added % RING, (r.added + 1) % WORD)])
  }

  ghost predicate Served(q: Queue, a: App, r: RingRead, a': App) {
    if Due(q, a, r) then Given(q, a, r, a') else a' == a
  }

  lemma SameWord(x: int, y: int)
    ensures Wrap(x) == Wrap(y) <==> (x - y) % WORD == 0
  {
    if Wrap(x) == Wrap(y) {
      WrapDifference(x, y);
    } else if (x - y) % WORD == 0 {
      WrapShift(y, (x - y) / WORD);
    }
  }

  /** post_superbuf_to_app serves the application and touches no other. */
  lemma PostServes(q: Queue, i: nat, r: RingRead)
    requires Inv(q) && Stocked(q) && i < |q.live|
    ensures var q' := PostToApp(q, i, r);
            Served(q, q.live[i], r, q'.live[i]) && SameStream(q, q') && SameBut(q, q', i)
  {
    var a := q.live[i];
    assert AppOk(q, a);
    SameWord(|q.started|, a.next);
    if CanPost(q, a, r) {
      ChosenIsInWindow(q, a);
      ChosenIsNotOwned(q, a);
      WrapSum(ChosenPosition(q, a), 1);
    }
  }

  /** So does the loop over the live applications, to each with its own ring words. */
  lemma {:induction false} PostToAppsServes(q: Queue, rs: seq<RingRead>, i: nat)
    requires Inv(q) && Stocked(q) && |rs| <= |q.live| && i < |q.live|
    ensures var q' := PostToApps(q, rs);
            && SameStream(q, q') && q'.arriving == q.arriving && q'.dying == q.dying
            && (if i < |rs| then Served(q, q.live[i], rs[i], q'.live[i]) else q'.live[i] == q.live[i])
    decreases |rs|
  {
    if rs != [] {
      var n := |rs| - 1;
      var mid := PostToApps(q, rs[..n]);
      PostToAppsKeepsInv(q, rs[..n]);
      PostToAppsServes(q, rs[..n], i);
      PostServes(mid, n, rs[n]);
      hide Inv, Stocked, PostToApp;
      if i == n {
        ServedAlike(q, mid, q.live[i], rs[i], PostToApp(mid, n, rs[n]).live[i]);
      }
    }
  }

  lemma ServedAlike(q: Queue, q': Queue, a: App, r: RingRead, a': App)
    requires SameStream(q, q')
    ensures Served(q, a, r, a') <==> Served(q', a, r, a')
  {
  }

  /** An application of the queue as it is when a start or a poll begins. */
  function Before(q: Queue, i: nat): App
    requires i < |q.arriving| + |q.live|
  {
    if i < |q.arriving| then
      q.arriving[i].(nextSeq := q.added, next := |q.started|, from := |q.started|)
    else
      q.live[i - |q.arriving|]
  }

  lemma ActivateMeans(q: Queue, i: nat)
    requires i < |q.arriving| + |q.live|
    ensures |Activate(q).live| == |q.arriving| + |q.live| && Activate(q).live[i] == Before(q, i)
    ensures SameStream(q, Activate(q)) && Activate(q).arriving == [] && Activate(q).dying == q.dying
  {
  }

  /** efct_buffer_start as a whole: every application, waiting or live, is served with its ring words from a stream that
      now ends with the superbuffer started. */
  lemma StartServes(q: Queue, e: Entry, rs: seq<RingRead>, i: nat)
    requires Inv(q) && Allowed(q, StartStep(e, rs)) && i < |rs|
    ensures var q' := Start(q, e, rs);
            && q'.started == q.started + [e] && q'.ended == q.ended
            && |q'.live| == |rs| && q'.arriving == [] && q'.dying == q.dying
            && Served(q', Before(q, i), rs[i], q'.live[i])
  {
    var mid := Lend(Activate(q), e);
    ActivateKeepsInv(q);
    ActivateMeans(q, i);
    LendKeepsInv(Activate(q), e);
    PostToAppsServes(mid, rs, i);
    hide Inv, Stocked, PostToApps;
    ServedAlike(mid, Start(q, e, rs), Before(q, i), rs[i], Start(q, e, rs).live[i]);
  }

  /** In particular one that has seen everything, or has just arrived, is given the superbuffer started itself, exactly
      if it is not marked, owns fewer than it may and has room. */
  lemma StartReaches(q: Queue, e: Entry, rs: seq<RingRead>, i: nat)
    requires Inv(q) && Allowed(q, StartStep(e, rs)) && i < |rs| && Before(q, i).next == |q.started|
    ensures var (a, a') := (Before(q, i), Start(q, e, rs).live[i]);
            if !a.destroy && |a.owns| < a.max && (rs[i].added - rs[i].removed) % WORD < RING then
              a'.posted == a.posted + [Posting(|q.started|, e, rs[i].added % RING, (rs[i].added + 1) % WORD)] &&
              a'.owns == a.owns + {e.sbid} && e.sbid !in a.owns
            else a' == a
  {
    StartServes(q, e, rs, i);
  }

  // ----- Giving back -----

  /** What comes of one element of an application's free ring: an id it owns is given back, and it is served again;
      any other is ignored. */
  ghost predicate TookBack(q: Queue, a: App, f: FreeRead, a': App) {
    if f.id < MAX_SUPERBUFS && f.id in a.owns then
      a.current > 0 && Served(q, a.(owns := a.owns - {f.id}, current := a.current - 1), f.ring, a')
    else a' == a
  }

  lemma TakeBackServes(q: Queue, i: nat, f: FreeRead)
    requires Inv(q) && Stocked(q) && i < |q.live|
    ensures var q' := TakeBack(q, i, f);
            TookBack(q, q.live[i], f, q'.live[i]) && SameStream(q, q') && SameBut(q, q', i)
  {
    if f.id < MAX_SUPERBUFS {
      OwnedIsFinishable(q, i, f.id);
    }
    if Finishable(q, i, f.id) {
      GiveUpKeepsInv(q, i, f.id);
      PostServes(GiveUp(q, i, f.id), i, f.ring);
      hide Inv, Stocked, PostToApp;
      var mid := GiveUp(q, i, f.id);
      ServedAlike(q, mid, mid.live[i], f.ring, TakeBack(q, i, f).live[i]);
    }
  }

  /** The elements are dealt with one after the other. */
  lemma DrainServes(q: Queue, i: nat, ids: seq<FreeRead>, k: nat)
    requires Inv(q) && Stocked(q) && i < |q.live| && k < |ids|
    ensures Drain(q, i, []) == q
    ensures TookBack(q, Drain(q, i, ids[..k]).live[i], ids[k], Drain(q, i, ids[..k + 1]).live[i])
  {
    DrainKeepsInv(q, i, ids[..k]);
    DrainKeepsStream(q, i, ids[..k]);
    var mid := Drain(q, i, ids[..k]);
    assert ids[..k + 1][..k] == ids[..k];
    TakeBackServes(mid, i, ids[k]);
    TookBackAlike(q, mid, mid.live[i], ids[k], Drain(q, i, ids[..k + 1]).live[i]);
  }

  lemma TookBackAlike(q: Queue, q': Queue, a: App, f: FreeRead, a': App)
    requires SameStream(q, q')
    ensures TookBack(q, a, f, a') <==> TookBack(q', a, f, a')
  {
  }

  lemma {:induction false} DrainKeepsStream(q: Queue, i: nat, ids: seq<FreeRead>)
    requires Shaped(q) && i < |q.live|
    ensures SameStream(q, Drain(q, i, ids))
    decreases |ids|
  {
    if ids != [] {
      DrainKeepsStream(q, i, ids[..|ids| - 1]);
    }
  }

  lemma {:induction false} StripKeepsStream(q: Queue, i: nat, bits: seq<Sbid>)
    requires Shaped(q) && i < |q.live|
    ensures SameStream(q, Strip(q, i, bits))
    decreases |bits|
  {
    if bits != [] {
      StripKeepsStream(q, i, bits[..|bits| - 1]);
    }
  }

  // ----- A whole poll -----

  /** What the free ring makes of an application depends on nothing of the other applications. */
  lemma {:induction false} DrainAlike(q: Queue, q': Queue, i: nat, i': nat, ids: seq<FreeRead>)
    requires Inv(q) && Stocked(q) && i < |q.live| && Inv(q') && Stocked(q') && i' < |q'.live|
    requires SameStream(q, q') && q'.live[i'] == q.live[i]
    ensures Drain(q', i', ids).live[i'] == Drain(q, i, ids).live[i]
    decreases |ids|
  {
    if ids != [] {
      var n := |ids| - 1;
      DrainAlike(q, q', i, i', ids[..n]);
      DrainKeepsInv(q, i, ids[..n]);
      DrainKeepsInv(q', i', ids[..n]);
      DrainKeepsStream(q, i, ids[..n]);
      DrainKeepsStream(q', i', ids[..n]);
      TakeBackAlike(Drain(q, i, ids[..n]), Drain(q', i', ids[..n]), i, i', ids[n]);
    }
  }

  lemma TakeBackAlike(q: Queue, q': Queue, i: nat, i': nat, f: FreeRead)
    requires Inv(q) && i < |q.live| && Inv(q') && i' < |q'.live| && SameStream(q, q') && q'.live[i'] == q.live[i]
    ensures TakeBack(q', i', f).live[i'] == TakeBack(q, i, f).live[i]
  {
    if f.id < MAX_SUPERBUFS {
      OwnedIsFinishable(q, i, f.id);
      OwnedIsFinishable(q', i', f.id);
      hide Inv;
      if Finishable(q, i, f.id) {
        PostAlike(GiveUp(q, i, f.id), GiveUp(q', i', f.id), i, i', f.ring);
      }
    }
  }

  lemma PostAlike(q: Queue, q': Queue, i: nat, i': nat, r: RingRead)
    requires Shaped(q) && i < |q.live| && Shaped(q') && i' < |q'.live| && SameStream(q, q') && q'.live[i'] == q.live[i]
    ensures PostToApp(q', i', r).live[i'] == PostToApp(q, i, r).live[i]
  {
    hide Wrap;
  }

  /** The applications not marked, each as its own free ring leaves it. */
  function Survivors(q: Queue, views: seq<seq<FreeRead>>): seq<App>
    requires Shaped(q) && |views| <= |q.live|
    decreases |views|
  {
    if views == [] then [] else
      var n := |views| - 1;
      Survivors(q, views[..n]) + if q.live[n].destroy then [] else [Drain(q, n, views[n]).live[n]]
  }

  lemma {:induction false} ReapSurvivors(q: Queue, views: seq<seq<FreeRead>>)
    requires Inv(q) && Stocked(q) && |views| <= |q.live|
    ensures SameStream(q, Reap(q, views).q) && Reap(q, views).q.live[..Reap(q, views).i] == Survivors(q, views)
    decreases |views|
  {
    InvShaped(q);
    hide Inv, Stocked, Drain, ReapOne, ReapedSoFar, SameStream;
    if views == [] {
      NothingReaped(q);
    } else {
      var n := |views| - 1;
      var r := Reap(q, views[..n]);
      ReapSurvivors(q, views[..n]);
      ReapKeepsInv(q, views[..n]);
      NextToReap(q, r, n);
      ReapedAlike(q, r.q, n, r.i, views[n]);
    }
  }

  lemma NothingReaped(q: Queue)
    requires Shaped(q)
    ensures SameStream(q, Reap(q, []).q) && Reap(q, []).q.live[..Reap(q, []).i] == Survivors(q, [])
  {
  }

  lemma NextToReap(q: Queue, r: Reaping, n: nat)
    requires ReapedSoFar(q, r, n) && n < |q.live|
    ensures r.i < |r.q.live| && r.q.live[r.i] == q.live[n]
  {
    assert r.q.live[r.i..][0] == q.live[n..][0];
  }

  /** One round of reaping, compared with the same round on another queue. */
  lemma ReapedAlike(q: Queue, r: Queue, n: nat, i: nat, ids: seq<FreeRead>)
    requires Inv(q) && Stocked(q) && n < |q.live| && Inv(r) && Stocked(r) && i < |r.live|
    requires SameStream(q, r) && r.live[i] == q.live[n]
    ensures var o := ReapOne(r, i, ids);
            && SameStream(q, o)
            && (q.live[n].destroy ==> o.live[..i] == r.live[..i])
            && (!q.live[n].destroy ==> o.live[..i + 1] == r.live[..i] + [Drain(q, n, ids).live[n]])
  {
    if q.live[n].destroy {
      StripKeepsStream(r, i, AllSuperbufs());
      DestroyedGoes(r, i);
    } else {
      DrainKeepsStream(r, i, ids);
      DrainKeepsInv(r, i, ids);
      DrainAlike(q, r, n, i, ids);
      hide Inv, Stocked, Drain;
      ExtendsBy(r, Drain(r, i, ids), i);
    }
  }

  lemma ExtendsBy(q: Queue, q': Queue, i: nat)
    requires i < |q.live| && SameBut(q, q', i)
    ensures q'.live[..i + 1] == q.live[..i] + [q'.live[i]]
  {
  }

  /** efct_poll as a whole: what is left are the applications not marked, in order, each exactly as the elements of its own
      free ring make it, whatever the others do. */
  lemma PollServes(q: Queue, views: seq<seq<FreeRead>>)
    requires Inv(q) && Stocked(q) && |views| == |q.arriving| + |q.live|
    ensures Poll(q, views).live == Survivors(Activate(q), views) && SameStream(q, Poll(q, views))
    ensures Poll(q, views).arriving == []
  {
    hide Inv, Stocked, Reap, Survivors, ReapedSoFar;
    var a := Activate(q);
    ActivateKeepsInv(q);
    InvShaped(a);
    ReapSurvivors(a, views);
    ReapKeepsInv(a, views);
    var r := Reap(a, views);
    assert r.q.live[..r.i] == r.q.live;
    ReapArrivals(a, r, |views|);
  }

  lemma InvShaped(q: Queue)
    requires Inv(q)
    ensures Shaped(q)
  {
  }

  lemma ReapArrivals(q: Queue, r: Reaping, n: nat)
    requires ReapedSoFar(q, r, n)
    ensures r.q.arriving == q.arriving
  {
  }

  // ----- Freeing -----

  /** efct_nic_rxq_free changes the mark of that application and nothing else. */
  lemma FreeMarks(q: Queue, tag: nat)
    ensures var q' := Free(q, tag);
            && |q'.live| == |q.live| && |q'.arriving| == |q.arriving|
            && (forall i | 0 <= i < |q.live| ::
                  q'.live[i] == q.live[i].(destroy := q.live[i].destroy || q.live[i].tag == tag))
            && (forall i | 0 <= i < |q.arriving| ::
                  q'.arriving[i] == q.arriving[i].(destroy := q.arriving[i].destroy || q.arriving[i].tag == tag))
            && q' == q.(live := q'.live, arriving := q'.arriving)
  {
  }

  lemma {:induction false} MarkedNever(apps: seq<App>, tag: nat)
    requires forall i | 0 <= i < |apps| && apps[i].tag == tag :: apps[i].destroy
    ensures tag !in Marked(apps, false)
    ensures (exists i :: 0 <= i < |apps| && apps[i].tag == tag) ==> tag in Marked(apps, true)
  {
    if apps != [] {
      MarkedNever(apps[..|apps| - 1], tag);
      assert apps == apps[..|apps| - 1] + [apps[|apps| - 1]];
    }
  }

  lemma {:induction false} ReversedHas(s: seq<nat>, x: nat)
    ensures x in Reversed(s) <==> x in s
  {
    if s != [] {
      ReversedHas(s[..|s| - 1], x);
      assert s == s[..|s| - 1] + [s[|s| - 1]];
    }
  }

  lemma FreedMarked(q: Queue, tag: nat)
    requires exists i :: 0 <= i < |q.arriving| + |q.live| && Before(q, i).tag == tag
    ensures tag !in Marked(Activate(Free(q, tag)).live, false) && tag in Marked(Activate(Free(q, tag)).live, true)
  {
    var a := Activate(Free(q, tag));
    var i :| 0 <= i < |q.arriving| + |q.live| && Before(q, i).tag == tag;
    assert a.live[i].tag == tag;
    MarkedNever(a.live, tag);
  }

  /** Once freed, an application is gone after the next poll: it is not on the list and is waiting for its destructor. */
  lemma FreedGoes(q: Queue, tag: nat, views: seq<seq<FreeRead>>)
    requires Inv(q) && Stocked(q) && |views| == |q.arriving| + |q.live|
    requires exists i :: 0 <= i < |q.arriving| + |q.live| && Before(q, i).tag == tag
    ensures Stocked(Free(q, tag)) && tag !in Tags(Poll(Free(q, tag), views).live)
    ensures tag in Tags(Poll(Free(q, tag), views).dying)
  {
    hide Inv, Poll, Tags, Marked, Reversed;
    var f := Free(q, tag);
    FreeMarks(q, tag);
    FreeKeepsInv(q, tag);
    PollUnlinksDestroyed(f, views);
    FreedMarked(q, tag);
    ReversedHas(Marked(Activate(f).live, true), tag);
  }

  // ----- Arriving and ending -----

  /** An application that is bound and has room is given the next superbuffer started, as its first. */
  lemma BoundIsServed(q: Queue, tag: nat, max: nat, e: Entry, rs: seq<RingRead>)
    requires Inv(q) && max > 0 && Allowed(Bind(q, tag, max), StartStep(e, rs))
    requires (rs[0].added - rs[0].removed) % WORD < RING
    ensures var a := Start(Bind(q, tag, max), e, rs).live[0];
            && a.tag == tag && a.owns == {e.sbid}
            && a.posted == [Posting(|q.started|, e, rs[0].added % RING, (rs[0].added + 1) % WORD)]
  {
    BindKeepsInv(q, tag, max);
    StartReaches(Bind(q, tag, max), e, rs, 0);
    StartServes(Bind(q, tag, max), e, rs, 0);
  }

  /** Ending the oldest superbuffer takes exactly that one out of the window, and gives it back exactly if nobody owns it. */
  lemma EndExactly(q: Queue, b: Sbid)
    requires Inv(q) && Allowed(q, EndStep(b))
    ensures q.started[q.ended].sbid == b
    ensures forall p :: Held(End(q, b), p) <==> Held(q, p) && p != q.ended
    ensures End(q, b).log == (if Owners(q.live, b) == 0 then q.log + [Released(b)] else q.log)
    ensures End(q, b).live == q.live && End(q, b).started == q.started
  {
    WrapSlot(q.ended);
    assert Held(q, q.ended) && InWindow(q, b);
  }

  /** An id given back returns the superbuffer to the driver exactly if the driver has ended it and nobody else owns it. */
  lemma GiveUpReturns(q: Queue, i: nat, b: Sbid)
    requires Inv(q) && i < |q.live| && b in q.live[i].owns
    ensures Finishable(q, i, b)
    ensures GiveUp(q, i, b).log ==
              (if !InWindow(q, b) && Owners(q.live, b) == 1 then q.log + [Released(b)] else q.log)
  {
    OwnedIsFinishable(q, i, b);
    OwnersAtLeast(q.live, i, b);
  }
}
