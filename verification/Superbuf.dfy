/**
 Sharing of receive superbuffers between the net driver and the applications of one
 EFCT queue: what each entry point does to the queue, as functions on its state.

 The net driver lends numbered superbuffers to the queue; the queue posts each one to
 every live application and counts references; a superbuffer goes back when its last
 reference is dropped.  Fields marked "history" are not kept by the program: they record
 the unwrapped counters and what has happened so far.
 */
module Superbuf {
  import opened Words

  const MAX_SUPERBUFS := 512
  const RING := 16

  type Sbid = x: nat | x < MAX_SUPERBUFS
  type HalfWord = x: nat | x < 0x1_0000

  datatype Entry = Entry(sbid: Sbid, sentinel: bool, sbseq: Word)

  /** A write to an application's shared ring: the entry, the slot it goes to and the new value of
      the ring's added counter; position is the entry's place in the driver's stream (history). */
  datatype Posting = Posting(position: nat, entry: Entry, slot: nat, added: Word)

  /** What the kernel reads from an application's shared receive ring; the application may have
      written anything there. */
  datatype RingRead = RingRead(added: Word, removed: Word)

  /** One element of the shared free ring as read, and the receive ring as read just after. */
  datatype FreeRead = FreeRead(id: HalfWord, ring: RingRead)

  datatype App = App(
    tag: nat,
    destroy: bool,
    nextSeq: Word,
    current: nat,
    max: nat,
    owns: set<Sbid>,
    next: nat,               // history: nextSeq unwrapped
    posted: seq<Posting>,    // history
    from: nat,               // history: next at activation
    lagged: bool             // history: something was posted 2^32 or more behind
  )

  datatype Event = Started(sbid: Sbid) | Released(sbid: Sbid)

  datatype Queue = Queue(
    ring: seq<Entry>,
    added: Word,
    removed: Word,
    refcount: seq<nat>,
    live: seq<App>,
    arriving: seq<App>,
    dying: seq<App>,
    started: seq<Entry>,     // history: every superbuffer the driver started
    ended: nat,              // history: how many of them it ended
    log: seq<Event>          // history
  )

  predicate Shaped(q: Queue) {
    |q.ring| == RING && |q.refcount| == MAX_SUPERBUFS
  }

  // ----- Posting a superbuffer to one application -----

  predicate CanPost(q: Queue, a: App, r: RingRead) {
    !a.destroy && a.nextSeq != q.added && a.current < a.max && Wrap(r.added - r.removed) < RING
  }

  /** The next superbuffer the application wants or, if it lags too far behind, the oldest there is. */
  function ChosenSeq(q: Queue, a: App): Word {
    var held := Wrap(q.added - q.removed);
    if Wrap(q.added - a.nextSeq) < held && Wrap(a.nextSeq - q.removed) < held then a.nextSeq else q.removed
  }

  function ChosenPosition(q: Queue, a: App): nat {
    q.ended + Wrap(ChosenSeq(q, a) - q.removed)
  }

  function ChosenEntry(q: Queue, a: App): Entry
    requires Shaped(q)
  {
    q.ring[ChosenSeq(q, a) % RING]
  }

  function PostedApp(q: Queue, a: App, r: RingRead): App
    requires Shaped(q)
  {
    var e := ChosenEntry(q, a);
    var p := ChosenPosition(q, a);
    a.(nextSeq := Wrap(ChosenSeq(q, a) + 1),
       current := a.current + 1,
       owns := a.owns + {e.sbid},
       next := p + 1,
       posted := a.posted + [Posting(p, e, r.added % RING, Wrap(r.added + 1))],
       lagged := a.lagged || |q.started| - a.next >= WORD)
  }

  /** post_superbuf_to_app for the live application at index i. */
  function PostToApp(q: Queue, i: nat, r: RingRead): (q': Queue)
    requires Shaped(q) && i < |q.live|
    ensures Shaped(q') && |q'.live| == |q.live|
  {
    if !CanPost(q, q.live[i], r) then q else
      var b := ChosenEntry(q, q.live[i]).sbid;
      q.(refcount := q.refcount[b := q.refcount[b] + 1],
         live := q.live[i := PostedApp(q, q.live[i], r)])
  }

  /** post_superbuf_to_apps after as many applications as there are ring reads. */
  function PostToApps(q: Queue, rs: seq<RingRead>): (q': Queue)
    requires Shaped(q) && |rs| <= |q.live|
    ensures Shaped(q') && |q'.live| == |q.live|
    decreases |rs|
  {
    if rs == [] then q
    else var n := |rs| - 1; PostToApp(PostToApps(q, rs[..n]), n, rs[n])
  }

  // ----- Taking superbuffers back from applications -----

  function Drop(q: Queue, b: Sbid): (q': Queue)
    requires Shaped(q) && q.refcount[b] > 0
    ensures Shaped(q')
  {
    var n := q.refcount[b] - 1;
    q.(refcount := q.refcount[b := n], log := if n == 0 then q.log + [Released(b)] else q.log)
  }

  /** The first half of finished_with_superbuf: the application gives up b. */
  function GiveUp(q: Queue, i: nat, b: Sbid): (q': Queue)
    requires Shaped(q) && i < |q.live| && q.refcount[b] > 0 && q.live[i].current > 0
    ensures Shaped(q') && |q'.live| == |q.live|
  {
    var a := q.live[i];
    Drop(q, b).(live := q.live[i := a.(owns := a.owns - {b}, current := a.current - 1)])
  }

  /** finished_with_superbuf. */
  function Finish(q: Queue, i: nat, b: Sbid, r: RingRead): (q': Queue)
    requires Shaped(q) && i < |q.live| && q.refcount[b] > 0 && q.live[i].current > 0
    ensures Shaped(q') && |q'.live| == |q.live|
  {
    PostToApp(GiveUp(q, i, b), i, r)
  }

  predicate Finishable(q: Queue, i: nat, b: nat)
    requires Shaped(q) && i < |q.live|
  {
    b < MAX_SUPERBUFS && b in q.live[i].owns && q.refcount[b] > 0 && q.live[i].current > 0
  }

  /** One id from the free ring: it counts only if it names a superbuffer the application owns. */
  function TakeBack(q: Queue, i: nat, f: FreeRead): (q': Queue)
    requires Shaped(q) && i < |q.live|
    ensures Shaped(q') && |q'.live| == |q.live|
  {
    if Finishable(q, i, f.id) then Finish(q, i, f.id, f.ring) else q
  }

  /** The application's free ring, element after element. */
  function Drain(q: Queue, i: nat, ids: seq<FreeRead>): (q': Queue)
    requires Shaped(q) && i < |q.live|
    ensures Shaped(q') && |q'.live| == |q.live|
    decreases |ids|
  {
    if ids == [] then q
    else var n := |ids| - 1; TakeBack(Drain(q, i, ids[..n]), i, ids[n])
  }

  /** How many elements of a free ring one poll looks at. */
  function Pending(added: Word, removed: Word): nat {
    var n := Wrap(added - removed);
    if n < RING then n else RING
  }

  /** Those of the given superbuffers that a destroyed application owns, one after the other. */
  function Strip(q: Queue, i: nat, bits: seq<Sbid>): (q': Queue)
    requires Shaped(q) && i < |q.live|
    ensures Shaped(q') && |q'.live| == |q.live|
    decreases |bits|
  {
    if bits == [] then q
    else var n := |bits| - 1; TakeBack(Strip(q, i, bits[..n]), i, FreeRead(bits[n], RingRead(0, 0)))
  }

  function AllSuperbufs(): (s: seq<Sbid>)
    ensures |s| == MAX_SUPERBUFS && forall b | 0 <= b < MAX_SUPERBUFS :: s[b] == b
  {
    seq(MAX_SUPERBUFS, b requires 0 <= b < MAX_SUPERBUFS => b)
  }

  function Unlink(q: Queue, i: nat): (q': Queue)
    requires i < |q.live|
    ensures |q'.live| == |q.live| - 1
  {
    q.(live := q.live[..i] + q.live[i + 1..], dying := [q.live[i]] + q.dying)
  }

  /** One round of reap_superbufs_from_apps: a destroyed application is stripped and unlinked,
      any other gives back what its free ring says. */
  function ReapOne(q: Queue, i: nat, ids: seq<FreeRead>): (q': Queue)
    requires Shaped(q) && i < |q.live|
    ensures Shaped(q') && |q'.live| == |q.live| - if q.live[i].destroy then 1 else 0
  {
    if q.live[i].destroy then Unlink(Strip(q, i, AllSuperbufs()), i) else Drain(q, i, ids)
  }

  /** A queue in the middle of reaping, and the index of the application to look at next. */
  datatype Reaping = Reaping(q: Queue, i: nat)

  /** reap_superbufs_from_apps after as many applications as there are free ring reads. */
  function Reap(q: Queue, views: seq<seq<FreeRead>>): (r: Reaping)
    requires Shaped(q) && |views| <= |q.live|
    ensures Shaped(r.q) && r.i <= |r.q.live| && |r.q.live| - r.i == |q.live| - |views|
    decreases |views|
  {
    if views == [] then Reaping(q, 0) else
      var n := |views| - 1;
      var r := Reap(q, views[..n]);
      Reaping(ReapOne(r.q, r.i, views[n]), if r.q.live[r.i].destroy then r.i else r.i + 1)
  }

  // ----- Entry points -----

  function Activated(q: Queue, a: App): App {
    a.(nextSeq := q.added, next := |q.started|, from := |q.started|)
  }

  /** activate_new_apps. */
  function Activate(q: Queue): Queue {
    q.(live := seq(|q.arriving|, i requires 0 <= i < |q.arriving| => Activated(q, q.arriving[i])) + q.live, arriving := [])
  }

  /** efct_poll. */
  function Poll(q: Queue, views: seq<seq<FreeRead>>): (q': Queue)
    requires Shaped(q) && |views| == |q.arriving| + |q.live|
  {
    Reap(Activate(q), views).q
  }

  function Lend(q: Queue, e: Entry): (q': Queue)
    requires Shaped(q)
    ensures Shaped(q')
  {
    q.(refcount := q.refcount[e.sbid := q.refcount[e.sbid] + 1],
       ring := q.ring[q.added % RING := e],
       added := Wrap(q.added + 1),
       started := q.started + [e],
       log := q.log + [Started(e.sbid)])
  }

  /** efct_buffer_start for a superbuffer id that is not negative. */
  function Start(q: Queue, e: Entry, rs: seq<RingRead>): (q': Queue)
    requires Shaped(q) && |rs| == |q.arriving| + |q.live|
  {
    PostToApps(Lend(Activate(q), e), rs)
  }

  /** efct_buffer_end; it reports whether the driver gets the superbuffer back there and then. */
  function End(q: Queue, b: Sbid): (q': Queue)
    requires Shaped(q) && q.refcount[b] > 0
  {
    Drop(q, b).(removed := Wrap(q.removed + 1), ended := q.ended + 1)
  }

  /** efct_nic_rxq_bind: a new application joins the list of those waiting for activation. */
  function Bind(q: Queue, tag: nat, max: nat): Queue {
    q.(arriving := [App(tag, false, 0, 0, max, {}, 0, [], 0, false)] + q.arriving)
  }

  function MarkedByTag(apps: seq<App>, tag: nat): seq<App> {
    seq(|apps|, i requires 0 <= i < |apps| => if apps[i].tag == tag then apps[i].(destroy := true) else apps[i])
  }

  /** efct_nic_rxq_free: the application is marked and goes at the next poll. */
  function Free(q: Queue, tag: nat): Queue {
    q.(live := MarkedByTag(q.live, tag), arriving := MarkedByTag(q.arriving, tag))
  }

  /** efct_destruct_apps_work. */
  function Destruct(q: Queue): Queue {
    q.(dying := [])
  }
}
