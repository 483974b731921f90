/**
 What a request for a wakeup answers and whom an event wakes, in terms of the numbers themselves: when a
 request is granted, whatever else happens meanwhile, and exactly which applications an event disarms.
 */
module WakeupRequests {
  import opened Options
  import opened Words
  import opened Wakeup

  // ----- The steps of a request -----

  /** The first read of the position refuses exactly the numbers it has passed; its own number may still be asked for. */
  lemma ReadsNowExactly(st: State, a: nat)
    requires Inv(st) && InWindow(st) && Enabled(st, RequestReadsNow(a))
    ensures var s := st.apps[a].requester.seqno;
            Next(st, RequestReadsNow(a)) == Requesting(st, a, if s < st.now then Idle else Exchange(s))
  {
    SeqLtIsOrder(st.apps[a].requester.seqno, st.now);
  }

  /** The second read grants the request, which is then armed, exactly if the position has still not passed its number. */
  lemma RechecksExactly(st: State, a: nat)
    requires Inv(st) && InWindow(st) && Enabled(st, RequestRechecks(a))
    ensures var s := st.apps[a].requester.seqno; var a' := Next(st, RequestRechecks(a)).apps[a];
            && (st.now <= s ==> a' == App(Some(s), Idle, Some(s), false))
            && (s < st.now ==> a' == st.apps[a].(requester := Cancel(s)))
  {
    SeqLtIsOrder(st.apps[a].requester.seqno, st.now);
    assert Sound(st.apps[a], st.now);
  }

  /** Cancelling ends the request with nothing armed, and leaves the count to itself exactly if it won the swap. */
  lemma CancelsExactly(st: State, a: nat)
    requires Inv(st) && InWindow(st) && Enabled(st, RequestCancels(a))
    ensures var s := st.apps[a].requester.seqno; var a' := Next(st, RequestCancels(a)).apps[a];
            a' == st.apps[a].(armed := None, requester := if st.apps[a].armed.Some? then Uncount(s) else Idle)
  {
    assert Sound(st.apps[a], st.now);
  }

  /** The step is one of a's own request. */
  predicate OwnStep(act: Action, a: nat) {
    (act.Begin? || act.RequestReadsNow? || act.RequestExchanges? || act.RequestCounts? ||
     act.RequestExchangesAndCounts? || act.RequestRechecks? || act.RequestCancels? || act.RequestUncounts?) && act.app == a
  }

  /** Nobody else moves a request on or answers it. */
  lemma OthersLeaveRequest(st: State, act: Action, a: nat)
    requires Enabled(st, act) && a < |st.apps| && !OwnStep(act, a)
    ensures |Next(st, act).apps| == |st.apps|
    ensures Next(st, act).apps[a].requester == st.apps[a].requester && Next(st, act).apps[a].granted == st.apps[a].granted
  {
  }

  // ----- A whole request, among whatever else happens -----

  /** Application a is in the middle of a request until the last of the steps. */
  predicate Asking(st: State, acts: seq<Action>, a: nat)
    requires Legal(st, acts)
    decreases |acts|
  {
    acts != [] ==> a < |st.apps| && !st.apps[a].requester.Idle? && Asking(Next(st, acts[0]), acts[1..], a)
  }

  predicate Reads(act: Action, a: nat) {
    act == RequestReadsNow(a) || act == RequestRechecks(a)
  }

  /** Whenever a's request reads the position, it has not passed s. */
  predicate ReadsInTime(st: State, acts: seq<Action>, a: nat, s: int)
    requires Legal(st, acts)
    decreases |acts|
  {
    acts != [] ==> (Reads(acts[0], a) ==> st.now <= s) && ReadsInTime(Next(st, acts[0]), acts[1..], a, s)
  }

  predicate Undecided(r: Requester) {
    r.ReadNow? || r.Exchange? || r.Count? || r.Recheck?
  }

  /** However a request that has not read for the last time goes on, it is granted exactly if its reads find the
      position at or before its number; granted, it leaves that number armed, and otherwise, once it has
      armed, nothing. */
  lemma {:induction false} RequestOutcome(st: State, acts: seq<Action>, a: nat)
    requires Inv(st) && Legal(st, acts) && a < |st.apps| && !st.apps[a].requester.Idle?
    requires Asking(st, acts, a) && a < |Exec(st, acts).apps| && Exec(st, acts).apps[a].requester.Idle?
    ensures var r := st.apps[a].requester; var end := Exec(st, acts).apps[a];
            && end.granted == (if Undecided(r) && ReadsInTime(st, acts, a, r.seqno) then Some(r.seqno) else None)
            && (end.granted.Some? ==> end.armed == end.granted)
            && (end.granted.None? && (InFlight(r) || r.Uncount? || r.Exchange?) ==> end.armed == None)
    decreases |acts|
  {
    if acts != [] {
      var act, st' := acts[0], Next(st, acts[0]);
      InvStep(st, act);
      assert Sound(st.apps[a], st.now) && Sound(st'.apps[a], st'.now);
      hide Inv;
      if OwnStep(act, a) {
        OwnStepMoves(st, act, a);
      } else {
        OthersLeaveRequest(st, act, a);
      }
      if st'.apps[a].requester.Idle? {
        assert acts[1..] == [];
      } else {
        RequestOutcome(st', acts[1..], a);
      }
    }
  }

  /** What a's own steps do to its request. */
  lemma OwnStepMoves(st: State, act: Action, a: nat)
    requires Inv(st) && InWindow(st) && Enabled(st, act) && OwnStep(act, a) && !st.apps[a].requester.Idle?
    ensures var (r, a') := (st.apps[a].requester, Next(st, act).apps[a]);
            && |Next(st, act).apps| == |st.apps|
            && (!a'.requester.Idle? ==> a'.requester.seqno == r.seqno && a'.granted.None?)
            && (Undecided(r) && Undecided(a'.requester) ==> (Reads(act, a) ==> st.now <= r.seqno))
            && (Undecided(r) && !Undecided(a'.requester) ==>
                  Reads(act, a) && (a'.requester.Idle? && a'.granted.Some? <==> st.now <= r.seqno))
            && (!Undecided(r) ==> !Undecided(a'.requester) && (a'.requester.Idle? ==> a'.granted.None?))
            && (a'.requester.Idle? && a'.granted.Some? ==> a'.granted == Some(r.seqno) && a'.armed == a'.granted)
            && (a'.requester.Idle? && a'.granted.None? ==> r.ReadNow? || a'.armed.None?)
  {
    assert Sound(st.apps[a], st.now);
    match act
    case RequestReadsNow(_) => ReadsNowExactly(st, a);
    case RequestRechecks(_) => RechecksExactly(st, a);
    case RequestCancels(_) => CancelsExactly(st, a);
    case _ =>
  }

  /** No event comes during the steps. */
  predicate Quiet(acts: seq<Action>) {
    forall i | 0 <= i < |acts| :: !acts[i].Event?
  }

  lemma {:induction false} QuietReads(st: State, acts: seq<Action>, a: nat)
    requires Inv(st) && Legal(st, acts) && Quiet(acts) && a < |st.apps| && Undecided(st.apps[a].requester)
    requires Asking(st, acts, a) && a < |Exec(st, acts).apps| && Exec(st, acts).apps[a].requester.Idle?
    ensures ReadsInTime(st, acts, a, st.apps[a].requester.seqno) <==> st.now <= st.apps[a].requester.seqno
    decreases |acts|
  {
    if acts != [] {
      var act, st' := acts[0], Next(st, acts[0]);
      InvStep(st, act);
      assert st'.now == st.now && Quiet(acts[1..]);
      if OwnStep(act, a) {
        OwnStepMoves(st, act, a);
      } else {
        OthersLeaveRequest(st, act, a);
      }
      hide Inv;
      if Undecided(st'.apps[a].requester) {
        QuietReads(st', acts[1..], a);
      } else if st.now <= st.apps[a].requester.seqno {
        NoReadsAfter(st', acts[1..], a);
        assert acts[1..] == [];
      }
    }
  }

  /** A request that returned does not go on in the steps that end with its return. */
  lemma NoReadsAfter(st: State, acts: seq<Action>, a: nat)
    requires Legal(st, acts) && Asking(st, acts, a) && a < |st.apps| && st.apps[a].requester.Idle?
    ensures acts == []
  {
  }

  /** From beginning to end while no event comes, among any steps of others: a request is granted, and its number
      armed, if and only if its number is not below the position. */
  lemma QuietRequest(st: State, a: nat, s: int, acts: seq<Action>)
    requires Inv(st) && InWindow(st) && Enabled(st, Begin(a, s)) && Quiet(acts)
    requires var st' := Next(st, Begin(a, s));
             Legal(st', acts) && Asking(st', acts, a) && a < |Exec(st', acts).apps| && Exec(st', acts).apps[a].requester.Idle?
    ensures var end := Exec(Next(st, Begin(a, s)), acts).apps[a];
            && end.granted == (if st.now <= s then Some(s) else None)
            && (st.now <= s ==> end.armed == Some(s))
  {
    var st' := Next(st, Begin(a, s));
    InvStep(st, Begin(a, s));
    RequestOutcome(st', acts, a);
    QuietReads(st', acts, a);
  }

  /** An application alone can always carry a request through, so that one that has caught up with the driver does
      get to sleep. */
  lemma SoloRequest(st: State, a: nat, s: int) returns (acts: seq<Action>)
    requires Inv(st) && InWindow(st) && Enabled(st, Begin(a, s)) && -HALF <= s - st.now < HALF
    ensures Legal(st, acts) && a < |Exec(st, acts).apps| && forall i | 0 <= i < |acts| :: OwnStep(acts[i], a)
    ensures var end := Exec(st, acts).apps[a];
            end.requester.Idle? && end.granted == (if st.now <= s then Some(s) else None) &&
            (st.now <= s ==> end.armed == Some(s))
  {
    hide Legal, Exec, Inv;
    var st1 := Next(st, Begin(a, s));
    InvStep(st, Begin(a, s));
    ReadsNowExactly(st1, a);
    var st2 := Next(st1, RequestReadsNow(a));
    InvStep(st1, RequestReadsNow(a));
    if s < st.now {
      Stop(st2);
      acts := [];
    } else {
      acts := SoloArm(st2, a);
    }
    Prepend(st1, RequestReadsNow(a), acts);
    acts := [RequestReadsNow(a)] + acts;
    Prepend(st, Begin(a, s), acts);
    acts := [Begin(a, s)] + acts;
  }

  lemma SoloArm(st: State, a: nat) returns (acts: seq<Action>)
    requires Inv(st) && InWindow(st) && Enabled(st, RequestExchanges(a)) && st.now <= st.apps[a].requester.seqno
    ensures Legal(st, acts) && a < |Exec(st, acts).apps| && forall i | 0 <= i < |acts| :: OwnStep(acts[i], a)
    ensures var end := Exec(st, acts).apps[a];
            end.requester.Idle? && end.granted == end.armed == Some(st.apps[a].requester.seqno)
  {
    hide Legal, Exec;
    var st' := Next(st, RequestExchanges(a));
    InvStep(st, RequestExchanges(a));
    hide Inv;
    if st'.apps[a].requester.Count? {
      acts := SoloCount(st', a);
    } else {
      acts := SoloRecheck(st', a);
    }
    Prepend(st, RequestExchanges(a), acts);
    acts := [RequestExchanges(a)] + acts;
  }

  lemma SoloCount(st: State, a: nat) returns (acts: seq<Action>)
    requires Inv(st) && InWindow(st) && Enabled(st, RequestCounts(a)) && st.now <= st.apps[a].requester.seqno
    ensures Legal(st, acts) && a < |Exec(st, acts).apps| && forall i | 0 <= i < |acts| :: OwnStep(acts[i], a)
    ensures var end := Exec(st, acts).apps[a];
            end.requester.Idle? && end.granted == end.armed == Some(st.apps[a].requester.seqno)
  {
    hide Legal, Exec;
    InvStep(st, RequestCounts(a));
    hide Inv;
    acts := SoloRecheck(Next(st, RequestCounts(a)), a);
    Prepend(st, RequestCounts(a), acts);
    acts := [RequestCounts(a)] + acts;
  }

  lemma SoloRecheck(st: State, a: nat) returns (acts: seq<Action>)
    requires Inv(st) && InWindow(st) && Enabled(st, RequestRechecks(a)) && st.now <= st.apps[a].requester.seqno
    ensures Legal(st, acts) && a < |Exec(st, acts).apps| && forall i | 0 <= i < |acts| :: OwnStep(acts[i], a)
    ensures var end := Exec(st, acts).apps[a];
            end.requester.Idle? && end.granted == end.armed == Some(st.apps[a].requester.seqno)
  {
    hide Legal, Exec;
    RechecksExactly(st, a);
    Stop(Next(st, RequestRechecks(a)));
    Prepend(st, RequestRechecks(a), []);
    acts := [RequestRechecks(a)] + [];
  }

  // ----- Whom an event wakes -----

  /** An arm is taken away only after its number has passed, by the handler or by the application's own request. */
  lemma DisarmedWasPassed(st: State, act: Action, a: nat)
    requires Inv(st) && InWindow(st) && Enabled(st, act) && a < |st.apps| && st.apps[a].armed.Some?
    ensures |Next(st, act).apps| == |st.apps|
    ensures Next(st, act).apps[a].armed.None? ==>
              st.apps[a].armed.value < st.now && (act == RequestCancels(a) || (act.HandlerClears? && st.handler.app == a))
    ensures Next(st, act).apps[a].armed.Some? && Next(st, act).apps[a].armed != st.apps[a].armed ==>
              act == RequestExchanges(a) || act == RequestExchangesAndCounts(a)
  {
    assert Sound(st.apps[a], st.now);
    if act.HandlerClears? && st.handler.app == a {
      SeqLtIsOrder(st.apps[a].armed.value, st.now);
    }
  }

  /** What an event at a position does to an application on the list. */
  function Answered(a: App, now: int): App {
    if a.armed.Some? && a.armed.value < now then a.(armed := None, woken := true) else a
  }

  predicate AllIdle(st: State) {
    forall a | 0 <= a < |st.apps| :: st.apps[a].requester.Idle?
  }

  /** The state once the handler is done with the next application. */
  function Looked(st: State): State
    requires Enabled(st, HandlerReadsApp)
  {
    var b := st.handler.rest[0];
    var a := st.apps[b];
    st.(apps := st.apps[b := Answered(a, st.now)],
        awaiters := if Answered(a, st.now) == a then st.awaiters else Wrap(st.awaiters - 1),
        handler := Scanning(st.handler.rest[1..]))
  }

  /** The handler alone deals with the next application in one step or in three. */
  lemma LooksAtNext(st: State) returns (acts: seq<Action>)
    requires Inv(st) && InWindow(st) && AllIdle(st) && Enabled(st, HandlerReadsApp)
    ensures Inv(Looked(st)) && InWindow(Looked(st)) && AllIdle(Looked(st))
    ensures Legal(st, acts) && Exec(st, acts) == Looked(st) && HandlerOnly(acts)
  {
    hide Legal, Exec;
    var st1 := Next(st, HandlerReadsApp);
    LooksExactly(st);
    InvStep(st, HandlerReadsApp);
    hide Inv, SeqLt;
    if st1.handler.Clear? {
      acts := ClearsAndWakes(st1);
    } else {
      assert st.apps[st.handler.rest[0] := st.apps[st.handler.rest[0]]] == st.apps;
      assert st1 == Looked(st);
      Stop(st1);
      acts := [];
    }
    Prepend(st, HandlerReadsApp, acts);
    acts := [HandlerReadsApp] + acts;
  }

  /** The handler goes on to disarm exactly an application armed for a passed number. */
  lemma LooksExactly(st: State)
    requires Inv(st) && InWindow(st) && Enabled(st, HandlerReadsApp)
    ensures var (a, b) := (st.apps[st.handler.rest[0]], st.handler.rest[0]);
            Next(st, HandlerReadsApp) ==
              if a.armed.Some? && a.armed.value < st.now then st.(handler := Clear(b, WakeWord(a), st.handler.rest[1..]))
              else st.(handler := Scanning(st.handler.rest[1..]))
  {
    var b := st.handler.rest[0];
    assert b in Remaining(st.handler) && Sound(st.apps[b], st.now);
    if st.apps[b].armed.Some? {
      SeqLtIsOrder(st.apps[b].armed.value, st.now);
    }
  }

  predicate HandlerOnly(acts: seq<Action>) {
    forall i | 0 <= i < |acts| :: acts[i].HandlerReadsApp? || acts[i].HandlerClears? || acts[i].HandlerWakes?
  }

  /** A swap that finds what was read, and the wakeup after it. */
  lemma ClearsAndWakes(st: State) returns (acts: seq<Action>)
    requires Inv(st) && InWindow(st) && Enabled(st, HandlerClears) && WakeWord(st.apps[st.handler.app]) == st.handler.seen
    ensures var end := st.(apps := st.apps[st.handler.app := st.apps[st.handler.app].(armed := None, woken := true)],
                           awaiters := Wrap(st.awaiters - 1), handler := Scanning(st.handler.rest));
            Legal(st, acts) && Exec(st, acts) == end && Inv(end) && InWindow(end) && HandlerOnly(acts)
  {
    hide Legal, Exec;
    var st1 := Next(st, HandlerClears);
    InvStep(st, HandlerClears);
    var st2 := Next(st1, HandlerWakes);
    InvStep(st1, HandlerWakes);
    hide Inv;
    Stop(st2);
    Prepend(st1, HandlerWakes, []);
    Prepend(st, HandlerClears, [HandlerWakes] + []);
    acts := [HandlerClears] + ([HandlerWakes] + []);
  }

  lemma {:induction false} Append(st: State, s: seq<Action>, t: seq<Action>)
    requires Legal(st, s) && Legal(Exec(st, s), t)
    ensures Legal(st, s + t) && Exec(st, s + t) == Exec(Exec(st, s), t)
    decreases |s|
  {
    if s == [] {
      assert s + t == t;
    } else {
      Append(Next(st, s[0]), s[1..], t);
      assert (s + t)[1..] == s[1..] + t;
    }
  }

  /** The handler alone, from its look at the next application to the end of the list. */
  lemma {:induction false} ScanAnswers(st: State) returns (acts: seq<Action>)
    requires Inv(st) && InWindow(st) && AllIdle(st) && (st.handler.Scan? || st.handler.Resting?)
    ensures Legal(st, acts) && HandlerOnly(acts)
    ensures var end := Exec(st, acts);
            && end.handler.Resting? && end.now == st.now && end.live == st.live && |end.apps| == |st.apps|
            && forall a: nat | a < |st.apps| ::
                 end.apps[a] == if a in Remaining(st.handler) then Answered(st.apps[a], st.now) else st.apps[a]
    decreases |Remaining(st.handler)|
  {
    hide Legal, Exec;
    if st.handler.Resting? {
      Stop(st);
      acts := [];
    } else {
      assert st.handler.rest[0] in Remaining(st.handler) && st.handler.rest[0] < |st.apps|;
      var first := LooksAtNext(st);
      hide Inv, InWindow;
      assert st.handler.rest == [st.handler.rest[0]] + st.handler.rest[1..];
      var rest := ScanAnswers(Looked(st));
      Append(st, first, rest);
      acts := first + rest;
    }
  }

  /** With no request in progress, an event and its handler wake and disarm exactly the applications on the list that are
      armed for a number the new position has passed, and touch no other. */
  lemma EventAnswers(st: State, n: int) returns (acts: seq<Action>)
    requires Inv(st) && InWindow(st) && AllIdle(st) && Enabled(st, Event(n)) && InWindow(Next(st, Event(n)))
    ensures acts != [] && acts[0] == Event(n) && Legal(st, acts)
    ensures var end := Exec(st, acts);
            && end.handler.Resting? && end.now == n && end.live == st.live && |end.apps| == |st.apps|
            && forall a: nat | a < |st.apps| ::
                 end.apps[a] == if a in st.live then Answered(st.apps[a], n) else st.apps[a]
  {
    hide Legal, Exec;
    var st1 := Next(st, Event(n));
    InvStep(st, Event(n));
    var st2 := Next(st1, HandlerReadsAwaiters);
    InvStep(st1, HandlerReadsAwaiters);
    if st1.awaiters == 0 {
      NobodyArmed(st);
    }
    acts := ScanAnswers(st2);
    Prepend(st1, HandlerReadsAwaiters, acts);
    acts := [HandlerReadsAwaiters] + acts;
    Prepend(st, Event(n), acts);
    acts := [Event(n)] + acts;
  }

  /** A count of zero with no request in progress means that nobody is armed. */
  lemma NobodyArmed(st: State)
    requires Inv(st) && AllIdle(st) && !st.handler.Wake? && st.awaiters == 0
    ensures forall a: nat | a < |st.apps| :: st.apps[a].armed.None?
  {
    SharesBounds(st.apps, st.now);
    SharesZero(st.apps);
    WrapInjective(Shares(st.apps), 0);
    assert forall a: nat | a < |st.apps| :: Share(st.apps[a]) == 0;
  }

  // ----- The list -----

  /** Joining and leaving the list concern one application; the others stay in order. */
  lemma {:induction false} WithoutExactly(s: seq<nat>, t: seq<nat>, a: nat)
    ensures Without(s + t, a) == Without(s, a) + Without(t, a)
    ensures Without([a], a) == [] && (a !in s ==> Without(s, a) == s)
  {
    if s == [] {
      assert s + t == t;
    } else {
      WithoutExactly(s[1..], t, a);
      assert (s + t)[1..] == s[1..] + t;
      assert s == [s[0]] + s[1..];
    }
  }

  predicate ListedOnce(s: seq<nat>) {
    forall i, j | 0 <= i < j < |s| :: s[i] != s[j]
  }

  /** Leaving takes out that application and keeps the others in order. */
  lemma UnlinkExactly(st: State, a: nat, i: nat)
    requires Enabled(st, Unlink(a)) && ListedOnce(st.live) && i < |st.live| && st.live[i] == a
    ensures Next(st, Unlink(a)) == st.(live := st.live[..i] + st.live[i + 1..])
  {
    var front, back := st.live[..i], st.live[i + 1..];
    assert st.live == front + ([a] + back);
    WithoutExactly(front, [a] + back, a);
    WithoutExactly([a], back, a);
    WithoutExactly(back, [], a);
  }

  /** After any run every application is on the list at most once. */
  lemma {:induction false} ListedOnceAlways(st: State, acts: seq<Action>)
    requires ListedOnce(st.live) && Legal(st, acts)
    ensures ListedOnce(Exec(st, acts).live)
    decreases |acts|
  {
    if acts != [] {
      var act := acts[0];
      if act.Unlink? {
        var i :| 0 <= i < |st.live| && st.live[i] == act.app;
        UnlinkExactly(st, act.app, i);
      }
      ListedOnceAlways(Next(st, act), acts[1..]);
    }
  }
}
