/** What every entry point of the superbuffer queue keeps, and what follows for every run. */
module SuperbufInvariants {
  import opened Arith
  import opened Words
  import opened Superbuf

  // ----- Counting -----

  function Owners(apps: seq<App>, b: Sbid): nat {
    if apps == [] then 0 else (if b in apps[0].owns then 1 else 0) + Owners(apps[1..], b)
  }

  lemma {:induction false} OwnersUpdate(apps: seq<App>, i: nat, a: App, b: Sbid)
    requires i < |apps|
    ensures Owners(apps[i := a], b) ==
            Owners(apps, b) - (if b in apps[i].owns then 1 else 0) + (if b in a.owns then 1 else 0)
  {
    if i > 0 {
      assert apps[i := a][1..] == apps[1..][i - 1 := a];
      OwnersUpdate(apps[1..], i - 1, a, b);
    } else {
      assert apps[i := a][1..] == apps[1..];
    }
  }

  lemma {:induction false} OwnersConcat(s: seq<App>, t: seq<App>, b: Sbid)
    ensures Owners(s + t, b) == Owners(s, b) + Owners(t, b)
  {
    if s == [] {
      assert s + t == t;
    } else {
      assert (s + t)[1..] == s[1..] + t;
      OwnersConcat(s[1..], t, b);
    }
  }

  lemma {:induction false} OwnersAtLeast(apps: seq<App>, i: nat, b: Sbid)
    requires i < |apps| && b in apps[i].owns
    ensures Owners(apps, b) >= 1
  {
    if i > 0 {
      OwnersAtLeast(apps[1..], i - 1, b);
    }
  }

  lemma {:induction false} OwnersNone(apps: seq<App>, b: Sbid)
    requires forall i | 0 <= i < |apps| :: b !in apps[i].owns
    ensures Owners(apps, b) == 0
  {
    if apps != [] {
      OwnersNone(apps[1..], b);
    }
  }

  lemma {:induction false} OwnersAtMost(apps: seq<App>, b: Sbid)
    ensures Owners(apps, b) <= |apps|
  {
    if apps != [] {
      OwnersAtMost(apps[1..], b);
    }
  }

  /** How many more times b was started than released. */
  function Balance(log: seq<Event>, b: Sbid): int {
    if log == [] then 0 else
      var last := log[|log| - 1];
      Balance(log[..|log| - 1], b) + if last == Started(b) then 1 else if last == Released(b) then -1 else 0
  }

  lemma BalanceAppend(log: seq<Event>, e: Event, b: Sbid)
    ensures Balance(log + [e], b) ==
            Balance(log, b) + if e == Started(b) then 1 else if e == Released(b) then -1 else 0
    ensures Alternates(log, b) && 0 <= Balance(log + [e], b) <= 1 ==> Alternates(log + [e], b)
  {
    var log' := log + [e];
    assert log'[..|log|] == log;
    if Alternates(log, b) && 0 <= Balance(log', b) <= 1 {
      forall n | 0 <= n <= |log'| ensures 0 <= Balance(log'[..n], b) <= 1 {
        assert if n <= |log| then log'[..n] == log[..n] else log'[..n] == log';
      }
    }
  }

  // ----- The invariant -----

  ghost predicate Held(q: Queue, p: int) {
    q.ended <= p < |q.started|
  }

  /** The driver's window: its counters, its slots, and no superbuffer in it twice. */
  ghost predicate WindowOk(q: Queue) {
    && Shaped(q)
    && q.ended <= |q.started| <= q.ended + RING
    && q.added == Wrap(|q.started|) && q.removed == Wrap(q.ended)
    && (forall p | Held(q, p) :: q.ring[p % RING] == q.started[p])
    && (forall p, p' | Held(q, p) && Held(q, p') && p != p' :: q.started[p].sbid != q.started[p'].sbid)
  }

  ghost predicate InWindow(q: Queue, b: Sbid) {
    exists p :: Held(q, p) && q.started[p].sbid == b
  }

  /** Reference conservation: one for the driver's window and one for each owner. */
  ghost predicate Conserved(q: Queue)
    requires Shaped(q)
  {
    forall b: Sbid :: q.refcount[b] == (if InWindow(q, b) then 1 else 0) + Owners(q.live, b)
  }

  /** In-order delivery so far: positions strictly increase and every posting carries the right entry. */
  ghost predicate DeliveredInOrder(q: Queue, a: App) {
    && (forall k | 0 <= k < |a.posted| ::
          a.posted[k].position < a.next && a.posted[k].position < |q.started| &&
          a.posted[k].entry == q.started[a.posted[k].position] && a.posted[k].slot < RING)
    && (forall j, k | 0 <= j < k < |a.posted| :: a.posted[j].position < a.posted[k].position)
  }

  /** Something was posted from that position of the driver's stream. */
  ghost predicate PostedAt(posted: seq<Posting>, p: int) {
    exists k :: 0 <= k < |posted| && posted[k].position == p
  }

  /** Every position since the application was activated was posted to it or had been ended, unless it
      was ever posted to 2^32 or more positions behind. */
  ghost predicate Gapless(q: Queue, a: App) {
    a.lagged || forall p | a.from <= p < a.next :: PostedAt(a.posted, p) || p < q.ended
  }

  ghost predicate AppOk(q: Queue, a: App) {
    && a.current == |a.owns| <= a.max
    && a.nextSeq == Wrap(a.next) && a.next <= |q.started|
    && (forall p | 0 <= p < |q.started| && q.started[p].sbid in a.owns :: p < a.next)
    && DeliveredInOrder(q, a) && Gapless(q, a)
  }

  ghost predicate OwnsNothing(a: App) {
    a.owns == {} && a.current == 0
  }

  /** At every point of the log b has been started as often as released, or once more. */
  ghost predicate Alternates(log: seq<Event>, b: Sbid) {
    forall n | 0 <= n <= |log| :: 0 <= Balance(log[..n], b) <= 1
  }

  /** Every superbuffer is out exactly as long as it has references. */
  ghost predicate Balanced(q: Queue)
    requires Shaped(q)
  {
    forall b: Sbid ::
      Alternates(q.log, b) && Balance(q.log, b) == if q.refcount[b] > 0 then 1 else 0
  }

  ghost predicate Inv(q: Queue) {
    && WindowOk(q) && Conserved(q) && Balanced(q)
    && (forall i | 0 <= i < |q.live| :: AppOk(q, q.live[i]))
    && (forall i | 0 <= i < |q.arriving| :: OwnsNothing(q.arriving[i]) && q.arriving[i].posted == [])
    && (forall i | 0 <= i < |q.dying| :: OwnsNothing(q.dying[i]))
  }

  // ----- Posting -----

  lemma WrapSlot(p: nat)
    ensures Wrap(p) % RING == p % RING
  {
    ModUnique(p, RING, 0x1000_0000 * (p / WORD) + Wrap(p) / RING, Wrap(p) % RING);
  }

  /** The choice in terms of the unwrapped counters: the window is [removed, added). */
  lemma ChoiceArithmetic(added: nat, removed: nat, next: nat)
    requires removed < added <= removed + RING && next <= added && Wrap(next) != Wrap(added)
    ensures Wrap(Wrap(added) - Wrap(removed)) == added - removed
    ensures var held := added - removed;
            var near := Wrap(Wrap(added) - Wrap(next)) < held && Wrap(Wrap(next) - Wrap(removed)) < held;
            var p := removed + if near then Wrap(Wrap(next) - Wrap(removed)) else 0;
            && removed <= p < added && next <= p
            && Wrap(p) == (if near then Wrap(next) else Wrap(removed))
            && (added - next < WORD ==> p == if next < removed then removed else next)
  {
    WrapDifference(added, removed);
    WrapDifference(added, next);
    WrapDifference(next, removed);
    hide Wrap;
    WrapSmall(added - removed);
    if next >= removed {
      WrapSmall(added - next);
      WrapSmall(next - removed);
    } else {
      WrapSum(next - removed, removed);
      if added - next < WORD {
        WrapShift(next - removed, 1);
        WrapSmall(next - removed + WORD);
      }
    }
  }

  /** What the choice amounts to: the first place of the window the application has not seen,
      as long as it lags by less than 2^32; and always a place of the window it has not seen. */
  lemma ChosenIsInWindow(q: Queue, a: App)
    requires WindowOk(q) && AppOk(q, a) && a.nextSeq != q.added && q.ended < |q.started|
    ensures Held(q, ChosenPosition(q, a)) && a.next <= ChosenPosition(q, a)
    ensures ChosenSeq(q, a) == Wrap(ChosenPosition(q, a))
    ensures ChosenEntry(q, a) == q.started[ChosenPosition(q, a)]
    ensures |q.started| - a.next < WORD ==>
              ChosenPosition(q, a) == if a.next < q.ended then q.ended else a.next
  {
    assert Wrap(q.removed - q.removed) == 0;
    hide Wrap, DeliveredInOrder, Gapless;
    ChoiceArithmetic(|q.started|, q.ended, a.next);
    assert Held(q, ChosenPosition(q, a));
    WrapSlot(ChosenPosition(q, a));
  }

  /** An application is never offered a superbuffer it still owns. */
  lemma ChosenIsNotOwned(q: Queue, a: App)
    requires WindowOk(q) && AppOk(q, a) && a.nextSeq != q.added && q.ended < |q.started|
    ensures ChosenEntry(q, a).sbid !in a.owns
    ensures forall p | 0 <= p < |q.started| && q.started[p].sbid == ChosenEntry(q, a).sbid :: p <= ChosenPosition(q, a)
  {
    ChosenIsInWindow(q, a);
    var c := ChosenPosition(q, a);
    forall p | 0 <= p < |q.started| && q.started[p].sbid == q.started[c].sbid
      ensures p <= c
    {
      if p > c {
        assert Held(q, p) && Held(q, c);
      }
    }
  }

  lemma PostedAppOk(q: Queue, a: App, r: RingRead)
    requires WindowOk(q) && AppOk(q, a) && CanPost(q, a, r) && q.ended < |q.started|
    ensures AppOk(q, PostedApp(q, a, r))
  {
    ChosenIsInWindow(q, a);
    ChosenIsNotOwned(q, a);
    WrapSum(ChosenPosition(q, a), 1);
    PostedGapless(q, a, r);
  }

  /** Passing over positions leaves no gap: they were ended. */
  lemma PostedGapless(q: Queue, a: App, r: RingRead)
    requires WindowOk(q) && AppOk(q, a) && CanPost(q, a, r) && q.ended < |q.started|
    ensures Gapless(q, PostedApp(q, a, r))
  {
    ChosenIsInWindow(q, a);
    var a' := PostedApp(q, a, r);
    if !a'.lagged {
      forall p | a'.from <= p < a'.next ensures PostedAt(a'.posted, p) || p < q.ended {
        if p == a'.next - 1 {
          assert a'.posted[|a.posted|].position == p;
        } else if p < a.next && p >= q.ended {
          assert PostedAt(a.posted, p);
          var k :| 0 <= k < |a.posted| && a.posted[k].position == p;
          assert a'.posted[k] == a.posted[k];
        }
      }
    }
  }

  /** Changing refcounts and owners together at one superbuffer keeps conservation. */
  lemma PostConserves(q: Queue, i: nat, r: RingRead)
    requires Inv(q) && i < |q.live| && q.ended < |q.started| && CanPost(q, q.live[i], r)
    ensures Conserved(PostToApp(q, i, r)) && Balanced(PostToApp(q, i, r))
  {
    var q' := PostToApp(q, i, r);
    var a, a' := q.live[i], q'.live[i];
    ChosenIsInWindow(q, a);
    ChosenIsNotOwned(q, a);
    var c := ChosenEntry(q, a).sbid;
    assert InWindow(q, c);
    forall b: Sbid
      ensures q'.refcount[b] == (if InWindow(q', b) then 1 else 0) + Owners(q'.live, b)
      ensures Alternates(q'.log, b) && Balance(q'.log, b) == if q'.refcount[b] > 0 then 1 else 0
    {
      OwnersUpdate(q.live, i, a', b);
      assert InWindow(q', b) == InWindow(q, b) by {
        assert forall p :: Held(q', p) == Held(q, p);
      }
    }
  }

  /** The driver holds a superbuffer, or nobody would be given one. */
  ghost predicate Stocked(q: Queue) {
    q.ended < |q.started| || forall i | 0 <= i < |q.live| :: q.live[i].destroy || q.live[i].nextSeq == q.added
  }

  lemma PostKeepsInv(q: Queue, i: nat, r: RingRead)
    requires Inv(q) && i < |q.live| && Stocked(q)
    ensures Inv(PostToApp(q, i, r))
    ensures Stocked(PostToApp(q, i, r))
  {
    if CanPost(q, q.live[i], r) {
      var q' := PostToApp(q, i, r);
      PostConserves(q, i, r);
      PostedAppOk(q, q.live[i], r);
      assert forall p :: Held(q', p) == Held(q, p);
      forall j | 0 <= j < |q'.live| ensures AppOk(q', q'.live[j]) {
        assert j != i ==> AppOk(q, q.live[j]) && q'.live[j] == q.live[j];
      }
    }
  }

  /** A position is passed over only if the driver has already ended it. */
  lemma SkippedWereEnded(q: Queue, i: nat, r: RingRead, p: nat)
    requires Inv(q) && i < |q.live| && CanPost(q, q.live[i], r) && q.ended < |q.started|
    requires |q.started| - q.live[i].next < WORD
    requires q.live[i].next <= p < PostToApp(q, i, r).live[i].next - 1
    ensures p < q.ended
  {
    ChosenIsInWindow(q, q.live[i]);
  }

  /** A posting is of a superbuffer in the window exactly if the window is not empty, and only
      then does it keep the invariant: with an empty window a slot outside it is read. */
  lemma PostSafeExactly(q: Queue, i: nat, r: RingRead)
    requires Inv(q) && i < |q.live| && CanPost(q, q.live[i], r)
    ensures Held(q, ChosenPosition(q, q.live[i])) <==> q.ended < |q.started|
    ensures Inv(PostToApp(q, i, r)) <==> q.ended < |q.started|
  {
    if q.ended < |q.started| {
      ChosenIsInWindow(q, q.live[i]);
      PostKeepsInv(q, i, r);
    } else {
      var q' := PostToApp(q, i, r);
      WrapDifference(|q.started|, q.ended);
      assert ChosenPosition(q, q.live[i]) == q.ended;
      assert !AppOk(q', q'.live[i]);
    }
  }

  // ----- Giving up -----

  lemma OwnedIsFinishable(q: Queue, i: nat, b: Sbid)
    requires Inv(q) && i < |q.live|
    ensures b in q.live[i].owns <==> Finishable(q, i, b)
  {
    if b in q.live[i].owns {
      OwnersAtLeast(q.live, i, b);
      assert AppOk(q, q.live[i]);
    }
  }

  lemma GiveUpConserves(q: Queue, i: nat, b: Sbid)
    requires Inv(q) && i < |q.live| && Finishable(q, i, b)
    ensures Conserved(GiveUp(q, i, b)) && Balanced(GiveUp(q, i, b))
  {
    var q' := GiveUp(q, i, b);
    forall c: Sbid
      ensures q'.refcount[c] == (if InWindow(q', c) then 1 else 0) + Owners(q'.live, c)
      ensures Alternates(q'.log, c) && Balance(q'.log, c) == if q'.refcount[c] > 0 then 1 else 0
    {
      OwnersUpdate(q.live, i, q'.live[i], c);
      BalanceAppend(q.log, Released(b), c);
      assert InWindow(q', c) == InWindow(q, c) by {
        assert forall p :: Held(q', p) == Held(q, p);
      }
    }
  }

  lemma GiveUpKeepsInv(q: Queue, i: nat, b: Sbid)
    requires Inv(q) && i < |q.live| && Finishable(q, i, b)
    ensures Inv(GiveUp(q, i, b))
    ensures Stocked(q) ==> Stocked(GiveUp(q, i, b))
  {
    var q' := GiveUp(q, i, b);
    GiveUpConserves(q, i, b);
    assert forall p :: Held(q', p) == Held(q, p);
    forall j | 0 <= j < |q'.live| ensures AppOk(q', q'.live[j]) {
      assert AppOk(q, q.live[j]);
    }
  }

  lemma FinishKeepsInv(q: Queue, i: nat, b: Sbid, r: RingRead)
    requires Inv(q) && Stocked(q) && i < |q.live| && Finishable(q, i, b)
    ensures Inv(Finish(q, i, b, r)) && Stocked(Finish(q, i, b, r))
  {
    GiveUpKeepsInv(q, i, b);
    PostKeepsInv(GiveUp(q, i, b), i, r);
  }

  /** Two queues that differ at most in application i and the counts, with the same identity there. */
  ghost predicate SameBut(q: Queue, q': Queue, i: nat) {
    && |q'.live| == |q.live| && i < |q.live|
    && (forall j | 0 <= j < |q.live| && j != i :: q'.live[j] == q.live[j])
    && q'.live[i].tag == q.live[i].tag && q'.live[i].destroy == q.live[i].destroy
    && q'.dying == q.dying && q'.arriving == q.arriving
  }

  lemma TakeBackKeepsInv(q: Queue, i: nat, f: FreeRead)
    requires Inv(q) && Stocked(q) && i < |q.live|
    ensures Inv(TakeBack(q, i, f)) && Stocked(TakeBack(q, i, f)) && SameBut(q, TakeBack(q, i, f), i)
  {
    if Finishable(q, i, f.id) {
      FinishKeepsInv(q, i, f.id, f.ring);
    }
  }

  lemma {:induction false} DrainKeepsInv(q: Queue, i: nat, ids: seq<FreeRead>)
    requires Inv(q) && Stocked(q) && i < |q.live|
    ensures Inv(Drain(q, i, ids)) && Stocked(Drain(q, i, ids)) && SameBut(q, Drain(q, i, ids), i)
    decreases |ids|
  {
    if ids != [] {
      var n := |ids| - 1;
      DrainKeepsInv(q, i, ids[..n]);
      TakeBackKeepsInv(Drain(q, i, ids[..n]), i, ids[n]);
    }
  }

  /** A destroyed application keeps exactly what is not taken from it. */
  lemma {:induction false} StripKeepsInv(q: Queue, i: nat, bits: seq<Sbid>)
    requires Inv(q) && Stocked(q) && i < |q.live| && q.live[i].destroy
    ensures Inv(Strip(q, i, bits)) && Stocked(Strip(q, i, bits)) && SameBut(q, Strip(q, i, bits), i)
    ensures forall b: Sbid :: b in Strip(q, i, bits).live[i].owns <==> b in q.live[i].owns && b !in bits
    decreases |bits|
  {
    if bits != [] {
      var n := |bits| - 1;
      var s := Strip(q, i, bits[..n]);
      StripKeepsInv(q, i, bits[..n]);
      TakeBackKeepsInv(s, i, FreeRead(bits[n], RingRead(0, 0)));
      OwnedIsFinishable(s, i, bits[n]);
      assert bits == bits[..n] + [bits[n]];
    }
  }

  lemma UnlinkKeepsInv(q: Queue, i: nat)
    requires Inv(q) && Stocked(q) && i < |q.live| && OwnsNothing(q.live[i])
    ensures Inv(Unlink(q, i)) && Stocked(Unlink(q, i))
  {
    var q' := Unlink(q, i);
    assert forall p :: Held(q', p) == Held(q, p);
    forall b: Sbid
      ensures q'.refcount[b] == (if InWindow(q', b) then 1 else 0) + Owners(q'.live, b)
    {
      assert q.live == q.live[..i] + ([q.live[i]] + q.live[i + 1..]);
      OwnersConcat(q.live[..i], [q.live[i]] + q.live[i + 1..], b);
      OwnersConcat([q.live[i]], q.live[i + 1..], b);
      OwnersConcat(q.live[..i], q.live[i + 1..], b);
      assert InWindow(q', b) == InWindow(q, b);
    }
    forall j | 0 <= j < |q'.live| ensures AppOk(q', q'.live[j]) {
      assert AppOk(q, q.live[if j < i then j else j + 1]);
    }
    forall j | 0 <= j < |q'.dying| ensures OwnsNothing(q'.dying[j]) {
      assert j > 0 ==> q'.dying[j] == q.dying[j - 1];
    }
  }

  function Tags(apps: seq<App>): seq<nat> {
    if apps == [] then [] else Tags(apps[..|apps| - 1]) + [apps[|apps| - 1].tag]
  }

  /** The applications that are not, or that are, marked for destruction, in order. */
  function Marked(apps: seq<App>, destroy: bool): seq<nat> {
    if apps == [] then [] else
      var last := apps[|apps| - 1];
      Marked(apps[..|apps| - 1], destroy) + if last.destroy == destroy then [last.tag] else []
  }

  function Reversed(s: seq<nat>): seq<nat> {
    if s == [] then [] else [s[|s| - 1]] + Reversed(s[..|s| - 1])
  }

  lemma TagsAppend(s: seq<App>, a: App)
    ensures Tags(s + [a]) == Tags(s) + [a.tag]
  {
    assert (s + [a])[..|s|] == s;
  }

  lemma {:induction false} TagsPrepend(a: App, s: seq<App>)
    ensures Tags([a] + s) == [a.tag] + Tags(s)
  {
    var t := [a] + s;
    if s == [] {
      assert t == [] + [a];
      TagsAppend([], a);
    } else {
      var n := |s| - 1;
      assert t == ([a] + s[..n]) + [s[n]];
      TagsAppend([a] + s[..n], s[n]);
      TagsPrepend(a, s[..n]);
    }
  }

  lemma MarkedAppend(s: seq<App>, a: App, destroy: bool)
    ensures Marked(s + [a], destroy) == Marked(s, destroy) + if a.destroy == destroy then [a.tag] else []
  {
    assert (s + [a])[..|s|] == s;
  }

  lemma ReversedAppend(s: seq<nat>, x: nat)
    ensures Reversed(s + [x]) == [x] + Reversed(s)
  {
    assert (s + [x])[..|s|] == s;
  }

  /** Stripping takes everything from a destroyed application, and touches no other. */
  lemma StrippedOwnsNothing(q: Queue, i: nat)
    requires Inv(q) && Stocked(q) && i < |q.live| && q.live[i].destroy
    ensures var s := Strip(q, i, AllSuperbufs());
            Inv(s) && Stocked(s) && SameBut(q, s, i) && OwnsNothing(s.live[i])
  {
    var s := Strip(q, i, AllSuperbufs());
    StripKeepsInv(q, i, AllSuperbufs());
    hide Strip, WindowOk, Conserved, Balanced, DeliveredInOrder, Gapless, AllSuperbufs;
    forall b: Sbid ensures b in AllSuperbufs() {
      assert AllSuperbufs()[b] == b;
    }
    assert s.live[i].owns == {};
    assert AppOk(s, s.live[i]);
  }

  lemma UnlinkedLists(q: Queue, s: Queue, i: nat)
    requires i < |q.live| && SameBut(q, s, i)
    ensures var u := Unlink(s, i);
            && u.live == q.live[..i] + q.live[i + 1..] && u.arriving == q.arriving
            && Tags(u.dying) == [q.live[i].tag] + Tags(q.dying)
  {
    assert s.live[..i] == q.live[..i] && s.live[i + 1..] == q.live[i + 1..];
    TagsPrepend(s.live[i], s.dying);
  }

  /** One destroyed application goes, with nothing left to it; the others stay where they are. */
  lemma DestroyedGoes(q: Queue, i: nat)
    requires Inv(q) && Stocked(q) && i < |q.live| && q.live[i].destroy
    ensures var u := Unlink(Strip(q, i, AllSuperbufs()), i);
            && Inv(u) && Stocked(u) && u.live == q.live[..i] + q.live[i + 1..]
            && u.arriving == q.arriving && Tags(u.dying) == [q.live[i].tag] + Tags(q.dying)
  {
    var s := Strip(q, i, AllSuperbufs());
    StrippedOwnsNothing(q, i);
    hide Inv, Strip, AllSuperbufs, OwnsNothing, Stocked;
    UnlinkKeepsInv(s, i);
    UnlinkedLists(q, s, i);
  }

  /** Any other application stays, at its place, whatever its free ring says. */
  lemma DrainedStays(q: Queue, i: nat, ids: seq<FreeRead>)
    requires Inv(q) && Stocked(q) && i < |q.live|
    ensures var d := Drain(q, i, ids);
            && Inv(d) && Stocked(d) && d.arriving == q.arriving && d.dying == q.dying
            && Tags(d.live[..i + 1]) == Tags(q.live[..i]) + [q.live[i].tag] && d.live[i + 1..] == q.live[i + 1..]
  {
    var d := Drain(q, i, ids);
    DrainKeepsInv(q, i, ids);
    assert d.live[..i + 1] == q.live[..i] + [d.live[i]];
    TagsAppend(q.live[..i], d.live[i]);
  }

  lemma ReapOneKeepsInv(q: Queue, i: nat, ids: seq<FreeRead>)
    requires Inv(q) && Stocked(q) && i < |q.live|
    ensures Inv(ReapOne(q, i, ids)) && Stocked(ReapOne(q, i, ids))
    ensures OneReaped(q, i, ReapOne(q, i, ids), if q.live[i].destroy then i else i + 1)
  {
    if q.live[i].destroy {
      DestroyedGoes(q, i);
      var u := ReapOne(q, i, ids);
      assert u.live[..i] == q.live[..i] && u.live[i..] == q.live[i + 1..];
    } else {
      DrainedStays(q, i, ids);
    }
  }

  /** The state after some rounds of reaping: the rest of the list is as it was, of the part
      already seen exactly the applications not marked remain, in order, and the marked ones
      have gone to the destructor. */
  ghost predicate ReapedSoFar(q: Queue, r: Reaping, n: nat) {
    && n <= |q.live| && r.i <= |r.q.live|
    && r.q.live[r.i..] == q.live[n..]
    && r.q.arriving == q.arriving
    && Tags(r.q.live[..r.i]) == Marked(q.live[..n], false)
    && Tags(r.q.dying) == Reversed(Marked(q.live[..n], true)) + Tags(q.dying)
  }

  /** What one round does to the application at index i of q, leading to o with the next index j. */
  ghost predicate OneReaped(q: Queue, i: nat, o: Queue, j: nat) {
    && i < |q.live| && j <= |o.live|
    && j == (if q.live[i].destroy then i else i + 1)
    && o.arriving == q.arriving
    && o.live[j..] == q.live[i + 1..]
    && Tags(o.live[..j]) == Tags(q.live[..i]) + (if q.live[i].destroy then [] else [q.live[i].tag])
    && Tags(o.dying) == (if q.live[i].destroy then [q.live[i].tag] else []) + Tags(q.dying)
  }

  lemma ReapedStep(q: Queue, r: Reaping, n: nat, o: Queue, j: nat)
    requires n < |q.live| && ReapedSoFar(q, r, n) && OneReaped(r.q, r.i, o, j)
    ensures ReapedSoFar(q, Reaping(o, j), n + 1)
  {
    assert r.q.live[r.i..][0] == q.live[n..][0];
    assert r.q.live[r.i + 1..] == r.q.live[r.i..][1..] == q.live[n + 1..];
    assert q.live[..n + 1] == q.live[..n] + [q.live[n]];
    MarkedAppend(q.live[..n], q.live[n], false);
    MarkedAppend(q.live[..n], q.live[n], true);
    if q.live[n].destroy {
      ReversedAppend(Marked(q.live[..n], true), q.live[n].tag);
      Regroup([q.live[n].tag], Reversed(Marked(q.live[..n], true)), Tags(q.dying));
    } else {
      assert Marked(q.live[..n + 1], true) == Marked(q.live[..n], true);
      assert Tags(o.dying) == Tags(r.q.dying);
    }
  }

  lemma Regroup(a: seq<nat>, b: seq<nat>, c: seq<nat>)
    ensures a + b + c == a + (b + c)
  {
  }

  lemma {:induction false} ReapKeepsInv(q: Queue, views: seq<seq<FreeRead>>)
    requires Inv(q) && Stocked(q) && |views| <= |q.live|
    ensures Inv(Reap(q, views).q) && Stocked(Reap(q, views).q) && ReapedSoFar(q, Reap(q, views), |views|)
    decreases |views|
  {
    if views == [] {
      assert q.live[0..] == q.live && q.live[..0] == [];
    } else {
      var n := |views| - 1;
      var r := Reap(q, views[..n]);
      ReapKeepsInv(q, views[..n]);
      ReapOneKeepsInv(r.q, r.i, views[n]);
      ReapedStep(q, r, n, ReapOne(r.q, r.i, views[n]), if r.q.live[r.i].destroy then r.i else r.i + 1);
    }
  }

  /** What the loops rely on: an application's bit stands for a reference it counts. */
  ghost predicate Backed(q: Queue, i: nat)
    requires Shaped(q)
  {
    i < |q.live| && forall b: Sbid | b in q.live[i].owns :: q.refcount[b] > 0 && q.live[i].current > 0
  }

  lemma InvBacked(q: Queue, i: nat)
    requires Inv(q) && i < |q.live|
    ensures Backed(q, i)
  {
    forall b: Sbid | b in q.live[i].owns ensures Finishable(q, i, b) {
      OwnedIsFinishable(q, i, b);
    }
  }

  /** That stays so whatever is read from a free ring, and whatever is stripped. */
  ghost predicate Reapable(q: Queue, i: nat)
    requires Shaped(q)
  {
    && i < |q.live|
    && (forall ids :: Backed(Drain(q, i, ids), i))
    && (q.live[i].destroy ==> forall bits :: Backed(Strip(q, i, bits), i))
  }

  lemma InvReapable(q: Queue, i: nat)
    requires Inv(q) && Stocked(q) && i < |q.live|
    ensures Reapable(q, i)
  {
    forall ids ensures Backed(Drain(q, i, ids), i) {
      DrainKeepsInv(q, i, ids);
      InvBacked(Drain(q, i, ids), i);
    }
    if q.live[i].destroy {
      forall bits ensures Backed(Strip(q, i, bits), i) {
        StripKeepsInv(q, i, bits);
        InvBacked(Strip(q, i, bits), i);
      }
    }
  }

  ghost predicate ReapableThroughout(q: Queue)
    requires Shaped(q)
  {
    forall views: seq<seq<FreeRead>> | |views| < |q.live| :: Reapable(Reap(q, views).q, Reap(q, views).i)
  }

  lemma InvReapableThroughout(q: Queue)
    requires Inv(q) && Stocked(q)
    ensures ReapableThroughout(q)
  {
    forall views: seq<seq<FreeRead>> | |views| < |q.live| ensures Reapable(Reap(q, views).q, Reap(q, views).i) {
      ReapKeepsInv(q, views);
      InvReapable(Reap(q, views).q, Reap(q, views).i);
    }
  }

  // ----- Entry points -----

  /** New applications own nothing, so that activating them changes no count. */
  lemma ActivateConserves(q: Queue)
    requires Inv(q)
    ensures Shaped(Activate(q)) && Conserved(Activate(q))
    ensures forall i | 0 <= i < |q.arriving| ::
              OwnsNothing(Activate(q).live[i]) && Activate(q).live[i].nextSeq == q.added
    ensures Activate(q).live[|q.arriving|..] == q.live
  {
    hide Owners, Balance, Alternates, AppOk;
    var q' := Activate(q);
    var joined := q'.live[..|q.arriving|];
    assert q'.live == joined + q.live;
    assert forall p :: Held(q', p) == Held(q, p);
    forall i | 0 <= i < |joined| ensures OwnsNothing(joined[i]) && joined[i].nextSeq == q.added {
      assert OwnsNothing(q.arriving[i]);
    }
    forall b: Sbid
      ensures q'.refcount[b] == (if InWindow(q', b) then 1 else 0) + Owners(q'.live, b)
    {
      OwnersConcat(joined, q.live, b);
      OwnersNone(joined, b);
      assert InWindow(q', b) == InWindow(q, b);
    }
  }

  lemma ActivatedAppOk(q: Queue, a: App)
    requires WindowOk(q) && OwnsNothing(a) && a.posted == []
    ensures AppOk(q, Activated(q, a))
  {
  }

  lemma SameStreamAppOk(q: Queue, q': Queue, a: App)
    requires AppOk(q, a) && q'.started == q.started && q'.ended == q.ended
    ensures AppOk(q', a)
  {
  }

  lemma ActivateKeepsInv(q: Queue)
    requires Inv(q)
    ensures Inv(Activate(q))
    ensures Stocked(q) <==> Stocked(Activate(q))
    ensures |Activate(q).live| == |q.arriving| + |q.live|
  {
    hide Owners, Balance, Alternates;
    var q' := Activate(q);
    ActivateConserves(q);
    assert forall p :: Held(q', p) == Held(q, p);
    hide AppOk;
    forall j | 0 <= j < |q'.live| ensures AppOk(q', q'.live[j]) {
      var n := |q.arriving|;
      if j >= n {
        assert q'.live[j] == q'.live[n..][j - n] == q.live[j - n];
        assert AppOk(q, q.live[j - n]);
        SameStreamAppOk(q, q', q.live[j - n]);
      } else {
        ActivatedAppOk(q, q.arriving[j]);
        SameStreamAppOk(q, q', q'.live[j]);
      }
    }
  }

  lemma LendKeepsInv(q: Queue, e: Entry)
    requires Inv(q) && q.refcount[e.sbid] == 0 && |q.started| < q.ended + RING
    ensures Inv(Lend(q, e)) && Stocked(Lend(q, e))
  {
    var q' := Lend(q, e);
    var n := |q.started|;
    WrapSlot(n);
    WrapSum(n, 1);
    assert forall p :: Held(q', p) <==> Held(q, p) || p == n;
    assert !InWindow(q, e.sbid) && Owners(q.live, e.sbid) == 0;
    LendWindow(q, e);
    forall b: Sbid
      ensures q'.refcount[b] == (if InWindow(q', b) then 1 else 0) + Owners(q'.live, b)
      ensures Alternates(q'.log, b) && Balance(q'.log, b) == if q'.refcount[b] > 0 then 1 else 0
    {
      BalanceAppend(q.log, Started(e.sbid), b);
      LendInWindow(q, e, b);
    }
    forall j | 0 <= j < |q'.live| ensures AppOk(q', q'.live[j]) {
      assert AppOk(q, q.live[j]);
      if e.sbid in q.live[j].owns {
        OwnersAtLeast(q.live, j, e.sbid);
      }
    }
  }

  lemma LendInWindow(q: Queue, e: Entry, b: Sbid)
    requires WindowOk(q)
    ensures InWindow(Lend(q, e), b) <==> InWindow(q, b) || b == e.sbid
  {
    var q' := Lend(q, e);
    assert forall p | Held(q, p) :: Held(q', p) && q'.started[p] == q.started[p];
    assert Held(q', |q.started|) && q'.started[|q.started|] == e;
    assert forall p | Held(q', p) :: p == |q.started| || Held(q, p);
  }

  lemma SlotsDiffer(p: nat, n: nat)
    requires p < n < p + RING
    ensures p % RING != n % RING
  {
    assert n - p == RING * (n / RING - p / RING) + (n % RING - p % RING);
  }

  lemma LendWindow(q: Queue, e: Entry)
    requires WindowOk(q) && !InWindow(q, e.sbid) && |q.started| < q.ended + RING
    ensures WindowOk(Lend(q, e))
  {
    var q' := Lend(q, e);
    var n := |q.started|;
    WrapSlot(n);
    WrapSum(n, 1);
    forall p | Held(q', p) ensures q'.ring[p % RING] == q'.started[p] {
      if p < n {
        assert Held(q, p) && q.ring[p % RING] == q.started[p];
        SlotsDiffer(p, n);
      }
    }
    forall p, p' | Held(q', p) && Held(q', p') && p != p' ensures q'.started[p].sbid != q'.started[p'].sbid {
      assert p < n ==> Held(q, p);
      assert p' < n ==> Held(q, p');
    }
  }

  lemma {:induction false} PostToAppsKeepsInv(q: Queue, rs: seq<RingRead>)
    requires Inv(q) && Stocked(q) && |rs| <= |q.live|
    ensures Inv(PostToApps(q, rs)) && Stocked(PostToApps(q, rs))
    decreases |rs|
  {
    if rs != [] {
      var n := |rs| - 1;
      PostToAppsKeepsInv(q, rs[..n]);
      PostKeepsInv(PostToApps(q, rs[..n]), n, rs[n]);
    }
  }

  lemma EndKeepsInv(q: Queue, b: Sbid)
    requires Inv(q) && q.ended < |q.started| && q.ring[q.removed % RING].sbid == b
    ensures q.refcount[b] > 0 && Inv(End(q, b))
  {
    hide Owners, Balance, Alternates;
    WrapSlot(q.ended);
    WrapSum(q.ended, 1);
    assert Held(q, q.ended) && q.started[q.ended].sbid == b && InWindow(q, b);
    var q' := End(q, b);
    assert forall p :: Held(q', p) <==> Held(q, p) && p != q.ended;
    forall c: Sbid
      ensures q'.refcount[c] == (if InWindow(q', c) then 1 else 0) + Owners(q'.live, c)
      ensures Alternates(q'.log, c) && Balance(q'.log, c) == if q'.refcount[c] > 0 then 1 else 0
    {
      BalanceAppend(q.log, Released(b), c);
      EndInWindow(q, b, c);
    }
    forall j | 0 <= j < |q'.live| ensures AppOk(q', q'.live[j]) {
      assert AppOk(q, q.live[j]);
    }
  }

  lemma EndInWindow(q: Queue, b: Sbid, c: Sbid)
    requires WindowOk(q) && q.ended < |q.started| && q.started[q.ended].sbid == b && q.refcount[b] > 0
    ensures InWindow(End(q, b), c) <==> InWindow(q, c) && c != b
  {
    var q' := End(q, b);
    assert Held(q, q.ended);
    assert forall p :: Held(q', p) <==> Held(q, p) && p != q.ended;
    if InWindow(q, c) && c != b {
      var p :| Held(q, p) && q.started[p].sbid == c;
      assert Held(q', p);
    }
  }

  lemma BindKeepsInv(q: Queue, tag: nat, max: nat)
    requires Inv(q)
    ensures Inv(Bind(q, tag, max))
  {
    var q' := Bind(q, tag, max);
    Same(q, q');
    forall j | 0 <= j < |q'.live| ensures AppOk(q', q'.live[j]) {
      assert AppOk(q, q.live[j]);
    }
  }

  /** Nothing but the window decides what is in the window. */
  lemma Same(q: Queue, q': Queue)
    requires q'.started == q.started && q'.ended == q.ended
    ensures forall p :: Held(q', p) == Held(q, p)
    ensures forall b: Sbid :: InWindow(q', b) == InWindow(q, b)
  {
    assert forall p :: Held(q', p) == Held(q, p);
  }

  lemma {:induction false} OwnersSame(s: seq<App>, t: seq<App>, b: Sbid)
    requires |s| == |t| && forall i | 0 <= i < |s| :: s[i].owns == t[i].owns
    ensures Owners(s, b) == Owners(t, b)
  {
    if s != [] {
      OwnersSame(s[1..], t[1..], b);
    }
  }

  lemma FreeKeepsInv(q: Queue, tag: nat)
    requires Inv(q)
    ensures Inv(Free(q, tag))
  {
    var q' := Free(q, tag);
    Same(q, q');
    forall b: Sbid ensures Owners(q'.live, b) == Owners(q.live, b) {
      OwnersSame(q'.live, q.live, b);
    }
    forall j | 0 <= j < |q'.live| ensures AppOk(q', q'.live[j]) {
      assert AppOk(q, q.live[j]);
    }
    forall j | 0 <= j < |q'.arriving| ensures OwnsNothing(q'.arriving[j]) && q'.arriving[j].posted == [] {
      assert OwnsNothing(q.arriving[j]);
    }
  }

  lemma DestructKeepsInv(q: Queue)
    requires Inv(q)
    ensures Inv(Destruct(q))
  {
    var q' := Destruct(q);
    Same(q, q');
    forall j | 0 <= j < |q'.live| ensures AppOk(q', q'.live[j]) {
      assert AppOk(q, q.live[j]);
    }
  }

  // ----- Runs -----

  datatype Step =
    | StartStep(entry: Entry, rings: seq<RingRead>)
    | EndStep(sbid: Sbid)
    | PollStep(views: seq<seq<FreeRead>>)
    | BindStep(tag: nat, max: nat)
    | FreeStep(tag: nat)
    | DestructStep

  /** What the net driver promises: it starts only superbuffers without references and holds at
      most a ring of them, it ends them oldest first, and it does not poll with nothing in hand
      while an application lags.  What the applications wrote is arbitrary. */
  ghost predicate Allowed(q: Queue, s: Step)
    requires Shaped(q)
  {
    match s
    case StartStep(e, rs) =>
      |rs| == |q.arriving| + |q.live| && q.refcount[e.sbid] == 0 && |q.started| < q.ended + RING
    case EndStep(b) => q.ended < |q.started| && q.ring[q.removed % RING].sbid == b && q.refcount[b] > 0
    case PollStep(vs) => |vs| == |q.arriving| + |q.live| && Stocked(q)
    case _ => true
  }

  ghost function Apply(q: Queue, s: Step): Queue
    requires Shaped(q) && Allowed(q, s)
  {
    match s
    case StartStep(e, rs) => Start(q, e, rs)
    case EndStep(b) => End(q, b)
    case PollStep(vs) => Poll(q, vs)
    case BindStep(tag, max) => Bind(q, tag, max)
    case FreeStep(tag) => Free(q, tag)
    case DestructStep => Destruct(q)
  }

  lemma StepKeepsInv(q: Queue, s: Step)
    requires Inv(q) && Allowed(q, s)
    ensures Inv(Apply(q, s))
  {
    match s
    case StartStep(e, rs) =>
      ActivateKeepsInv(q);
      LendKeepsInv(Activate(q), e);
      PostToAppsKeepsInv(Lend(Activate(q), e), rs);
    case EndStep(b) => EndKeepsInv(q, b);
    case PollStep(vs) =>
      ActivateKeepsInv(q);
      ReapKeepsInv(Activate(q), vs);
    case BindStep(tag, max) => BindKeepsInv(q, tag, max);
    case FreeStep(tag) => FreeKeepsInv(q, tag);
    case DestructStep => DestructKeepsInv(q);
  }

  ghost predicate AllowedRun(q: Queue, steps: seq<Step>)
    decreases |steps|
  {
    Shaped(q) && (steps != [] ==> Allowed(q, steps[0]) && AllowedRun(Apply(q, steps[0]), steps[1..]))
  }

  ghost function Run(q: Queue, steps: seq<Step>): Queue
    requires AllowedRun(q, steps)
    decreases |steps|
  {
    if steps == [] then q else Run(Apply(q, steps[0]), steps[1..])
  }

  function NewQueue(): Queue {
    Queue(seq(RING, _ => Entry(0, false, 0)), 0, 0, seq(MAX_SUPERBUFS, _ => 0), [], [], [], [], 0, [])
  }

  lemma NewQueueInv()
    ensures Inv(NewQueue())
  {
    var q := NewQueue();
    assert forall p :: !Held(q, p);
    forall b: Sbid ensures !InWindow(q, b) && Alternates(q.log, b) && Balance(q.log, b) == 0 {
      assert q.log[..0] == [];
    }
  }

  lemma {:induction false} RunKeepsInv(q: Queue, steps: seq<Step>)
    requires Inv(q) && AllowedRun(q, steps)
    ensures Inv(Run(q, steps))
    decreases |steps|
  {
    if steps != [] {
      StepKeepsInv(q, steps[0]);
      RunKeepsInv(Apply(q, steps[0]), steps[1..]);
    }
  }

  /** Reference conservation in every reachable state, whatever the applications write: each
      count is one for the driver's window plus one for each owner, so it never exceeds the
      number of applications plus one, and each application owns as many superbuffers as it
      counts and no more than it may. */
  lemma ReferencesConserved(steps: seq<Step>, b: Sbid)
    requires AllowedRun(NewQueue(), steps)
    ensures var q := Run(NewQueue(), steps);
            && Shaped(q)
            && q.refcount[b] == (if InWindow(q, b) then 1 else 0) + Owners(q.live, b)
            && q.refcount[b] <= |q.live| + 1
            && (forall i | 0 <= i < |q.live| :: q.live[i].current == |q.live[i].owns| <= q.live[i].max)
            && (forall i | 0 <= i < |q.dying| :: q.dying[i].current == 0 && q.dying[i].owns == {})
  {
    NewQueueInv();
    RunKeepsInv(NewQueue(), steps);
    var q := Run(NewQueue(), steps);
    OwnersAtMost(q.live, b);
    assert forall i | 0 <= i < |q.live| :: AppOk(q, q.live[i]);
    assert forall i | 0 <= i < |q.dying| :: OwnsNothing(q.dying[i]);
  }

  /** Every start of a superbuffer is followed by exactly one release before the next start, and
      a superbuffer is out exactly while somebody refers to it. */
  lemma ReleasedExactlyOnce(steps: seq<Step>, b: Sbid)
    requires AllowedRun(NewQueue(), steps)
    ensures var q := Run(NewQueue(), steps);
            Shaped(q) && Alternates(q.log, b) && Balance(q.log, b) == if q.refcount[b] > 0 then 1 else 0
  {
    NewQueueInv();
    RunKeepsInv(NewQueue(), steps);
  }

  /** The positions posted to one application strictly increase, and what was posted at a position
      is what the driver started there. */
  lemma DeliveryInOrder(steps: seq<Step>, i: nat)
    requires AllowedRun(NewQueue(), steps) && i < |Run(NewQueue(), steps).live|
    ensures var q := Run(NewQueue(), steps); DeliveredInOrder(q, q.live[i])
  {
    NewQueueInv();
    RunKeepsInv(NewQueue(), steps);
    var q := Run(NewQueue(), steps);
    assert AppOk(q, q.live[i]);
  }

  /** Over every run: each position from an application's activation on, up to the last one posted to it, was
      posted to it or the driver has ended it, unless the application was ever posted to 2^32 or more behind. */
  lemma NoGaps(steps: seq<Step>, i: nat, p: nat)
    requires AllowedRun(NewQueue(), steps) && i < |Run(NewQueue(), steps).live|
    requires var a := Run(NewQueue(), steps).live[i]; !a.lagged && a.from <= p < a.next
    ensures var q := Run(NewQueue(), steps); PostedAt(q.live[i].posted, p) || p < q.ended
  {
    NewQueueInv();
    RunKeepsInv(NewQueue(), steps);
    var q := Run(NewQueue(), steps);
    assert AppOk(q, q.live[i]);
  }

  /** efct_poll as a whole: of the applications that were live or waiting, exactly those marked for
      destruction leave, and the others keep their order. */
  lemma PollUnlinksDestroyed(q: Queue, views: seq<seq<FreeRead>>)
    requires Inv(q) && Stocked(q) && |views| == |q.arriving| + |q.live|
    ensures Tags(Poll(q, views).live) == Marked(Activate(q).live, false)
    ensures Tags(Poll(q, views).dying) == Reversed(Marked(Activate(q).live, true)) + Tags(q.dying)
  {
    var a := Activate(q);
    ActivateKeepsInv(q);
    ReapKeepsInv(a, views);
    var r := Reap(a, views);
    assert a.live[..|views|] == a.live && r.q.live[..r.i] == r.q.live;
  }
}
