/**
 Interrupt wakeups of an EFCT receive queue: the lock-free protocol between an
 application asking to be woken (efct_request_wakeup) and the handler of a wakeup
 event (the XLNX_EVENT_WAKEUP branch of efct_handle_event).

 Every atomic operation is one step and the steps of all parties interleave freely
 under sequential consistency.  Packet sequence numbers are kept unwrapped; the
 program itself only ever sees and compares their 32-bit words.
 */
module Wakeup {
  import opened Options
  import opened Words

  const INVALID_PKT_SEQNO: Word := 0xffff_ffff

  /** Wrapping comparison of 32-bit sequence numbers. */
  predicate SeqLt(a: Word, b: Word) {
    Wrap(a - b) >= HALF
  }

  /** Within half the number space the wrapping comparison is the true order, and never elsewhere next to it. */
  lemma SeqLtIsOrder(x: int, y: int)
    requires -HALF <= x - y < HALF
    ensures SeqLt(Wrap(x), Wrap(y)) <==> x < y
  {
    WrapDifference(x, y);
    if x < y {
      WrapShift(x - y, 1);
    }
  }

  /** A packet's number: its superbuffer's sequence number and its index within the superbuffer. */
  function MakePktSeq(sbseq: Word, pktix: int): Word
    requires 0 <= pktix < 0x1_0000
  {
    (sbseq % 0x1_0000) * 0x1_0000 + pktix
  }

  /** Packet numbers order packets by superbuffer and then by index, across wraps, as long as the
      superbuffers are less than 2^15 apart, and an index below 65535 never makes the invalid number. */
  lemma PktSeqOrder(sb1: nat, ix1: int, sb2: nat, ix2: int)
    requires 0 <= ix1 < 0xffff && 0 <= ix2 < 0xffff && -0x8000 < sb1 - sb2 < 0x8000
    ensures MakePktSeq(Wrap(sb1), ix1) != INVALID_PKT_SEQNO
    ensures SeqLt(MakePktSeq(Wrap(sb1), ix1), MakePktSeq(Wrap(sb2), ix2)) <==> sb1 < sb2 || (sb1 == sb2 && ix1 < ix2)
  {
    PktSeqWord(sb1, ix1);
    PktSeqWord(sb2, ix2);
    SeqLtIsOrder(sb1 * 0x1_0000 + ix1, sb2 * 0x1_0000 + ix2);
  }

  lemma PktSeqWord(sb: nat, ix: int)
    requires 0 <= ix < 0x1_0000
    ensures MakePktSeq(Wrap(sb), ix) == Wrap(sb * 0x1_0000 + ix)
  {
    var q := sb / WORD;
    assert Wrap(sb) % 0x1_0000 == sb % 0x1_0000 by {
      assert sb == Wrap(sb) + 0x1_0000 * (0x1_0000 * q);
    }
    var h := sb / 0x1_0000;
    assert sb * 0x1_0000 + ix == MakePktSeq(Wrap(sb), ix) + WORD * h;
    WrapShift(MakePktSeq(Wrap(sb), ix), h);
  }

  /** Where the requester of one application stands; the number is the one it asks for. */
  datatype Requester =
    | Idle
    | ReadNow(seqno: int)    // about to read the queue's position for the first time
    | Exchange(seqno: int)   // about to arm by exchange
    | Count(seqno: int)      // the exchange found the application unarmed; about to count it
    | Recheck(seqno: int)    // about to read the queue's position again
    | Cancel(seqno: int)     // the position has passed; about to disarm by compare-and-swap
    | Uncount(seqno: int)    // disarmed itself; about to take itself off the count

  /** armed is the number in wake_at_seqno, None standing for the invalid number.
      granted and woken are a history: the number of the last request that returned
      zero, and whether a wakeup came after it. */
  datatype App = App(armed: Option<int>, requester: Requester, granted: Option<int>, woken: bool)

  /** What the program reads from wake_at_seqno. */
  function WakeWord(a: App): Word {
    match a.armed
    case None => INVALID_PKT_SEQNO
    case Some(s) => Wrap(s)
  }

  /** Where the handler of the current event stands. */
  datatype Handler =
    | Resting
    | ReadAwaiters                                        // position written; about to read the count
    | Scan(rest: seq<nat>)                                // about to read the first application of rest
    | Clear(app: nat, seen: Word, rest: seq<nat>)         // about to disarm by compare-and-swap
    | Wake(app: nat, rest: seq<nat>)                      // disarmed it; about to uncount and wake it

  /** live lists the applications of the queue in list order; apps holds every application there is. */
  datatype State = State(now: int, awaiters: Word, apps: seq<App>, live: seq<nat>, handler: Handler)

  datatype Action =
    | Event(position: int)
    | HandlerReadsAwaiters
    | HandlerReadsApp
    | HandlerClears
    | HandlerWakes
    | Begin(app: nat, seqno: int)
    | RequestReadsNow(app: nat)
    | RequestExchanges(app: nat)
    | RequestCounts(app: nat)
    | RequestExchangesAndCounts(app: nat)
    | RequestRechecks(app: nat)
    | RequestCancels(app: nat)
    | RequestUncounts(app: nat)
    | Link(app: nat)
    | Unlink(app: nat)

  /** Which steps can be taken.  Handlers of one queue are serialised with each other and
      with changes of the live list, an application has one requester at a time, and the
      position only advances.  An application may ask before it is on the list. */
  predicate Enabled(st: State, act: Action) {
    match act
    case Event(n) => st.handler.Resting? && st.now <= n
    case HandlerReadsAwaiters => st.handler.ReadAwaiters?
    case HandlerReadsApp => st.handler.Scan? && st.handler.rest != [] && st.handler.rest[0] < |st.apps|
    case HandlerClears => st.handler.Clear? && st.handler.app < |st.apps|
    case HandlerWakes => st.handler.Wake? && st.handler.app < |st.apps|
    case Begin(a, s) => a < |st.apps| && st.apps[a].requester.Idle? && Wrap(s) != INVALID_PKT_SEQNO
    case RequestReadsNow(a) => a < |st.apps| && st.apps[a].requester.ReadNow?
    case RequestExchanges(a) => a < |st.apps| && st.apps[a].requester.Exchange?
    case RequestCounts(a) => a < |st.apps| && st.apps[a].requester.Count?
    case RequestExchangesAndCounts(a) => a < |st.apps| && st.apps[a].requester.Exchange?
    case RequestRechecks(a) => a < |st.apps| && st.apps[a].requester.Recheck?
    case RequestCancels(a) => a < |st.apps| && st.apps[a].requester.Cancel?
    case RequestUncounts(a) => a < |st.apps| && st.apps[a].requester.Uncount?
    case Link(a) => a < |st.apps| && st.handler.Resting? && a !in st.live
    case Unlink(a) => st.handler.Resting? && a in st.live
  }

  function Scanning(rest: seq<nat>): Handler {
    if rest == [] then Resting else Scan(rest)
  }

  function Without(s: seq<nat>, a: nat): seq<nat> {
    if s == [] then [] else if s[0] == a then Without(s[1..], a) else [s[0]] + Without(s[1..], a)
  }

  function Requesting(st: State, a: nat, r: Requester): State
    requires a < |st.apps|
  {
    st.(apps := st.apps[a := st.apps[a].(requester := r)])
  }

  function Exchanged(st: State, a: nat): State
    requires Enabled(st, RequestExchanges(a))
  {
    var s := st.apps[a].requester.seqno;
    var next := if WakeWord(st.apps[a]) == INVALID_PKT_SEQNO then Count(s) else Recheck(s);
    st.(apps := st.apps[a := st.apps[a].(armed := Some(s), requester := next)])
  }

  function Counted(st: State, a: nat): State
    requires Enabled(st, RequestCounts(a))
  {
    Requesting(st, a, Recheck(st.apps[a].requester.seqno)).(awaiters := Wrap(st.awaiters + 1))
  }

  /** One atomic operation of the program. */
  function Next(st: State, act: Action): State
    requires Enabled(st, act)
  {
    match act
    case Event(n) => st.(now := n, handler := ReadAwaiters)
    case HandlerReadsAwaiters =>
      if st.awaiters == 0 then st.(handler := Resting) else st.(handler := Scanning(st.live))
    case HandlerReadsApp =>
      var a, rest := st.handler.rest[0], st.handler.rest[1..];
      var w := WakeWord(st.apps[a]);
      if w != INVALID_PKT_SEQNO && SeqLt(w, Wrap(st.now)) then
        st.(handler := Clear(a, w, rest))
      else
        st.(handler := Scanning(rest))
    case HandlerClears =>
      var a := st.handler.app;
      if WakeWord(st.apps[a]) == st.handler.seen then
        st.(apps := st.apps[a := st.apps[a].(armed := None)], handler := Wake(a, st.handler.rest))
      else
        st.(handler := Scanning(st.handler.rest))
    case HandlerWakes =>
      var a := st.handler.app;
      st.(awaiters := Wrap(st.awaiters - 1),
          apps := st.apps[a := st.apps[a].(woken := true)],
          handler := Scanning(st.handler.rest))
    case Begin(a, s) =>
      st.(apps := st.apps[a := st.apps[a].(requester := ReadNow(s), granted := None)])
    case RequestReadsNow(a) =>
      var s := st.apps[a].requester.seqno;
      Requesting(st, a, if SeqLt(Wrap(s), Wrap(st.now)) then Idle else Exchange(s))
    case RequestExchanges(a) => Exchanged(st, a)
    case RequestCounts(a) => Counted(st, a)
    case RequestExchangesAndCounts(a) =>
      var mid := Exchanged(st, a);
      if mid.apps[a].requester.Count? then Counted(mid, a) else mid
    case RequestRechecks(a) =>
      var s := st.apps[a].requester.seqno;
      if SeqLt(Wrap(s), Wrap(st.now)) then
        Requesting(st, a, Cancel(s))
      else
        st.(apps := st.apps[a := st.apps[a].(requester := Idle, granted := Some(s), woken := false)])
    case RequestCancels(a) =>
      var s := st.apps[a].requester.seqno;
      if WakeWord(st.apps[a]) == Wrap(s) then
        st.(apps := st.apps[a := st.apps[a].(armed := None, requester := Uncount(s))])
      else
        Requesting(st, a, Idle)
    case RequestUncounts(a) =>
      Requesting(st, a, Idle).(awaiters := Wrap(st.awaiters - 1))
    case Link(a) => st.(live := [a] + st.live)
    case Unlink(a) => st.(live := Without(st.live, a))
  }


  /** Every number the program compares lies in the half of the number space around the position. */
  predicate InWindow(st: State) {
    forall a | 0 <= a < |st.apps| ::
      && (a in st.live && st.apps[a].armed.Some? ==> -HALF <= st.apps[a].armed.value - st.now < HALF)
      && (!st.apps[a].requester.Idle? ==> -HALF <= st.apps[a].requester.seqno - st.now < HALF)
  }

  /** A finite run: every step possible, every state within the window. */
  predicate Legal(st: State, acts: seq<Action>)
    decreases |acts|
  {
    InWindow(st) && (acts != [] ==> Enabled(st, acts[0]) && Legal(Next(st, acts[0]), acts[1..]))
  }

  function Exec(st: State, acts: seq<Action>): State
    requires Legal(st, acts)
    decreases |acts|
  {
    if acts == [] then st else Exec(Next(st, acts[0]), acts[1..])
  }

  /** A queue before anything happened: nobody armed, counted or in flight. */
  predicate Init(st: State) {
    && st.awaiters == 0 && st.handler.Resting? && st.live == [] && |st.apps| < WORD
    && forall a | 0 <= a < |st.apps| :: st.apps[a] == App(None, Idle, None, false)
  }

  // ----- Awaiter accounting -----

  /** What one application contributes to the count: one while armed, one while it still has
      to uncount itself, less one while it still has to be counted. */
  function Share(a: App): int {
    (if a.armed.Some? then 1 else 0) + (if a.requester.Uncount? then 1 else 0) - (if a.requester.Count? then 1 else 0)
  }

  function Shares(apps: seq<App>): int {
    if apps == [] then 0 else Share(apps[0]) + Shares(apps[1..])
  }

  lemma {:induction false} SharesUpdate(apps: seq<App>, i: nat, a: App)
    requires i < |apps|
    ensures Shares(apps[i := a]) == Shares(apps) - Share(apps[i]) + Share(a)
  {
    if i > 0 {
      assert apps[i := a][1..] == apps[1..][i - 1 := a];
      SharesUpdate(apps[1..], i - 1, a);
    } else {
      assert apps[i := a][1..] == apps[1..];
    }
  }

  /** awaiters is the number of armed applications, listed or not, plus the winners of a
      disarming compare-and-swap that have not yet decremented, less the requesters
      between an exchange from the invalid number and their increment. */
  predicate Accounted(st: State) {
    st.awaiters == Wrap(Shares(st.apps) + (if st.handler.Wake? then 1 else 0))
  }

  predicate InFlight(r: Requester) {
    r.Count? || r.Recheck? || r.Cancel?
  }

  /** Facts about one application: the invalid number is never armed, the armed number is the
      requester's own while it is in flight, and an arm that is already gone was passed by the
      position. */
  predicate Sound(a: App, now: int) {
    && (a.armed.Some? ==> Wrap(a.armed.value) != INVALID_PKT_SEQNO)
    && (!a.requester.Idle? ==> Wrap(a.requester.seqno) != INVALID_PKT_SEQNO)
    && (InFlight(a.requester) && a.armed.Some? ==> a.armed.value == a.requester.seqno)
    && (InFlight(a.requester) && a.armed.None? ==> a.requester.seqno < now)
    && (a.requester.Cancel? ==> a.requester.seqno < now)
    && (a.requester.Uncount? ==> a.armed.None?)
    && (!a.requester.Idle? ==> a.granted.None?)
  }

  function Remaining(h: Handler): seq<nat> {
    match h
    case Scan(rest) => rest
    case Clear(_, _, rest) => rest
    case Wake(_, rest) => rest
    case _ => []
  }

  predicate WellFormed(st: State) {
    && |st.apps| < WORD
    && (forall a | a in st.live :: a < |st.apps|)
    && (forall a | a in Remaining(st.handler) :: a in st.live)
    && (st.handler.Clear? || st.handler.Wake? ==> st.handler.app < |st.apps| && st.handler.app in st.live)
    && (st.handler.Clear? ==> st.handler.seen != INVALID_PKT_SEQNO && SeqLt(st.handler.seen, Wrap(st.now)))
    && (st.handler.Scan? ==> st.handler.rest != [])
    && (forall a | 0 <= a < |st.apps| :: Sound(st.apps[a], st.now))
  }

  /** A request that was granted is still armed, or about to be answered, or was answered. */
  predicate Kept(st: State) {
    forall a | 0 <= a < |st.apps| && st.apps[a].granted.Some? && !st.apps[a].woken ::
      st.apps[a].armed == st.apps[a].granted || (st.handler.Wake? && st.handler.app == a)
  }

  predicate Inv(st: State) {
    WellFormed(st) && Accounted(st) && Kept(st)
  }

  lemma InitInv(st: State)
    requires Init(st)
    ensures Inv(st)
  {
    InitShares(st.apps);
  }

  lemma {:induction false} InitShares(apps: seq<App>)
    requires forall a | 0 <= a < |apps| :: apps[a] == App(None, Idle, None, false)
    ensures Shares(apps) == 0
  {
    if apps != [] {
      InitShares(apps[1..]);
    }
  }

  lemma {:induction false} WithoutSubset(s: seq<nat>, a: nat)
    ensures forall x | x in Without(s, a) :: x in s
    ensures a !in Without(s, a)
  {
    if s != [] {
      WithoutSubset(s[1..], a);
    }
  }

  /** A step that changes one application by d shares and the count by d keeps the account. */
  lemma ShareStep(st: State, st': State, a: nat, d: int)
    requires Accounted(st) && a < |st.apps| == |st'.apps|
    requires st'.apps == st.apps[a := st'.apps[a]]
    requires st'.awaiters == Wrap(st.awaiters + d)
    requires Share(st'.apps[a]) + (if st'.handler.Wake? then 1 else 0) ==
             Share(st.apps[a]) + (if st.handler.Wake? then 1 else 0) + d
    ensures Accounted(st')
  {
    SharesUpdate(st.apps, a, st'.apps[a]);
    WrapSum(Shares(st.apps) + if st.handler.Wake? then 1 else 0, d);
  }

  lemma HandlerAccounted(st: State, act: Action)
    requires Inv(st) && InWindow(st) && Enabled(st, act)
    requires act.Event? || act.HandlerReadsAwaiters? || act.HandlerReadsApp? || act.HandlerClears? || act.HandlerWakes?
    ensures Accounted(Next(st, act))
  {
    if act.HandlerClears? {
      ShareStep(st, Next(st, act), st.handler.app, 0);
    } else if act.HandlerWakes? {
      ShareStep(st, Next(st, act), st.handler.app, -1);
    }
  }

  lemma RequestAccounted(st: State, act: Action)
    requires Inv(st) && InWindow(st) && Enabled(st, act)
    requires act.Begin? || act.RequestReadsNow? || act.RequestExchanges? || act.RequestCounts? ||
             act.RequestExchangesAndCounts? || act.RequestRechecks? || act.RequestCancels? || act.RequestUncounts?
    ensures Accounted(Next(st, act))
  {
    var st', a := Next(st, act), act.app;
    assert Sound(st.apps[a], st.now);
    if act.RequestExchangesAndCounts? {
      ShareStep(st, st', a, if st.apps[a].armed.None? then 1 else 0);
    } else {
      ShareStep(st, st', a, if act.RequestCounts? then 1 else if act.RequestUncounts? then -1 else 0);
    }
  }

  lemma AccountedStep(st: State, act: Action)
    requires Inv(st) && InWindow(st) && Enabled(st, act)
    ensures Accounted(Next(st, act))
  {
    match act
    case Link(_) =>
    case Unlink(_) =>
    case Event(_) => HandlerAccounted(st, act);
    case HandlerReadsAwaiters => HandlerAccounted(st, act);
    case HandlerReadsApp => HandlerAccounted(st, act);
    case HandlerClears => HandlerAccounted(st, act);
    case HandlerWakes => HandlerAccounted(st, act);
    case _ => RequestAccounted(st, act);
  }

  predicate KeptAt(st: State, a: nat)
    requires a < |st.apps|
  {
    st.apps[a].granted.Some? && !st.apps[a].woken ==>
      st.apps[a].armed == st.apps[a].granted || (st.handler.Wake? && st.handler.app == a)
  }

  /** A requester's step touches its own application only. */
  lemma RequestWellFormed(st: State, act: Action)
    requires Inv(st) && InWindow(st) && Enabled(st, act)
    requires act.Begin? || act.RequestReadsNow? || act.RequestExchanges? || act.RequestCounts? ||
             act.RequestExchangesAndCounts? || act.RequestRechecks? || act.RequestCancels? || act.RequestUncounts?
    ensures WellFormed(Next(st, act)) && Kept(Next(st, act))
  {
    var st', a := Next(st, act), act.app;
    assert KeptAt(st, a) && Sound(st.apps[a], st.now);
    if !act.Begin? {
      SeqLtIsOrder(st.apps[a].requester.seqno, st.now);
    }
    assert KeptAt(st', a) && Sound(st'.apps[a], st'.now);
    forall b | 0 <= b < |st'.apps|
      ensures Sound(st'.apps[b], st'.now) && KeptAt(st', b)
    {
      assert b != a ==> KeptAt(st, b) && st'.apps[b] == st.apps[b];
    }
  }

  lemma HandlerWellFormed(st: State, act: Action)
    requires Inv(st) && InWindow(st) && Enabled(st, act)
    requires act.HandlerReadsAwaiters? || act.HandlerReadsApp? || act.HandlerClears? || act.HandlerWakes?
    ensures WellFormed(Next(st, act)) && Kept(Next(st, act))
  {
    var st' := Next(st, act);
    if act.HandlerClears? && st.apps[st.handler.app].armed.Some? {
      SeqLtIsOrder(st.apps[st.handler.app].armed.value, st.now);
    }
    forall b | 0 <= b < |st'.apps|
      ensures Sound(st'.apps[b], st'.now) && KeptAt(st', b)
    {
      assert KeptAt(st, b) && Sound(st.apps[b], st.now);
    }
  }

  lemma InvStep(st: State, act: Action)
    requires Inv(st) && InWindow(st) && Enabled(st, act)
    ensures Inv(Next(st, act))
  {
    AccountedStep(st, act);
    match act
    case Event(_) =>
    case Link(_) =>
    case Unlink(a) => WithoutSubset(st.live, a);
    case HandlerReadsAwaiters => HandlerWellFormed(st, act);
    case HandlerReadsApp => HandlerWellFormed(st, act);
    case HandlerClears => HandlerWellFormed(st, act);
    case HandlerWakes => HandlerWellFormed(st, act);
    case _ => RequestWellFormed(st, act);
  }

  lemma {:induction false} RunKeepsInv(st: State, acts: seq<Action>)
    requires Inv(st) && Legal(st, acts)
    ensures Inv(Exec(st, acts))
    decreases |acts|
  {
    if acts != [] {
      InvStep(st, acts[0]);
      RunKeepsInv(Next(st, acts[0]), acts[1..]);
    }
  }

  /** How many applications are armed, still have to be counted, and still have to uncount themselves. */
  function Armed(apps: seq<App>): nat {
    if apps == [] then 0 else (if apps[0].armed.Some? then 1 else 0) + Armed(apps[1..])
  }

  function Counting(apps: seq<App>): nat {
    if apps == [] then 0 else (if apps[0].requester.Count? then 1 else 0) + Counting(apps[1..])
  }

  function Uncounting(apps: seq<App>): nat {
    if apps == [] then 0 else (if apps[0].requester.Uncount? then 1 else 0) + Uncounting(apps[1..])
  }

  lemma {:induction false} SharesCount(apps: seq<App>)
    ensures Shares(apps) == Armed(apps) + Uncounting(apps) - Counting(apps)
  {
    if apps != [] {
      SharesCount(apps[1..]);
    }
  }

  /** After any run from the start, whatever the interleaving: the count and the requesters between an
      exchange from the invalid number and their increment are together as many as the armed applications,
      listed or not, and the winners of a disarming compare-and-swap, requester or handler, that have not
      decremented yet.  The count is a word: it is 2^32 more exactly while it is ahead of its increments. */
  lemma AwaiterAccounting(st: State, acts: seq<Action>)
    requires Init(st) && |st.apps| < WORD - 1 && Legal(st, acts)
    ensures var end := Exec(st, acts);
            var owed := Armed(end.apps) + Uncounting(end.apps) + if end.handler.Wake? then 1 else 0;
            end.awaiters + Counting(end.apps) == owed + if owed < Counting(end.apps) then WORD else 0
  {
    InitInv(st);
    RunKeepsInv(st, acts);
    SameApps(st, acts);
    var end := Exec(st, acts);
    hide Exec, Legal, Armed, Uncounting, Counting, Shares;
    SharesCount(end.apps);
    SharesBounds(end.apps, end.now);
    var shares := Shares(end.apps) + if end.handler.Wake? then 1 else 0;
    if shares >= 0 {
      WrapInjective(shares, end.awaiters);
    } else {
      WrapShift(shares, 1);
      WrapInjective(shares + WORD, end.awaiters);
    }
  }

  lemma {:induction false} SameApps(st: State, acts: seq<Action>)
    requires Legal(st, acts)
    ensures |Exec(st, acts).apps| == |st.apps|
    decreases |acts|
  {
    if acts != [] {
      SameApps(Next(st, acts[0]), acts[1..]);
    }
  }

  // ----- No lost wakeup -----

  /** Somebody is still bound to look at application a: its own requester, or the handler. */
  predicate Covered(st: State, a: nat)
    requires a < |st.apps| && st.apps[a].armed.Some?
  {
    || InFlight(st.apps[a].requester)
    || st.handler.ReadAwaiters?
    || a in Remaining(st.handler)
    || (st.handler.Clear? && st.handler.app == a && st.handler.seen == WakeWord(st.apps[a]))
  }

  predicate Behind(st: State, a: nat)
    requires a < |st.apps|
  {
    st.apps[a].armed.Some? && st.apps[a].armed.value < st.now
  }

  predicate NoneLost(st: State) {
    forall a | 0 <= a < |st.apps| && a in st.live && Behind(st, a) :: Covered(st, a)
  }

  /** No application lost its arm before its requester had it counted. */
  predicate Undisturbed(st: State) {
    forall a | 0 <= a < |st.apps| && st.apps[a].requester.Count? :: st.apps[a].armed.Some?
  }

  /** The handler's compare-and-swap does not hit an application between its exchange and its increment. */
  predicate Careful(st: State, act: Action)
    requires Enabled(st, act)
  {
    act.HandlerClears? && WakeWord(st.apps[st.handler.app]) == st.handler.seen ==>
      !st.apps[st.handler.app].requester.Count?
  }

  predicate CarefulRun(st: State, acts: seq<Action>)
    requires Legal(st, acts)
    decreases |acts|
  {
    acts != [] ==> Careful(st, acts[0]) && CarefulRun(Next(st, acts[0]), acts[1..])
  }

  /** An application does not join the list armed for a passed number with nobody about to look at it. */
  predicate Timely(st: State, act: Action)
    requires Enabled(st, act)
  {
    act.Link? ==> !Behind(st, act.app) || InFlight(st.apps[act.app].requester)
  }

  predicate TimelyRun(st: State, acts: seq<Action>)
    requires Legal(st, acts)
    decreases |acts|
  {
    acts != [] ==> Timely(st, acts[0]) && TimelyRun(Next(st, acts[0]), acts[1..])
  }

  predicate Safe(st: State) {
    Inv(st) && NoneLost(st) && (|st.apps| == 1 || Undisturbed(st))
  }

  lemma {:induction false} SharesBounds(apps: seq<App>, now: int)
    requires forall a | 0 <= a < |apps| :: Sound(apps[a], now)
    ensures -|apps| <= Shares(apps) <= |apps|
  {
    if apps != [] {
      SharesBounds(apps[1..], now);
    }
  }

  /** Shares that are nowhere negative and add up to nothing are all nothing. */
  lemma {:induction false} SharesZero(apps: seq<App>)
    requires forall a | 0 <= a < |apps| :: Share(apps[a]) >= 0
    ensures Shares(apps) >= 0
    ensures Shares(apps) == 0 ==> forall a | 0 <= a < |apps| :: Share(apps[a]) == 0
  {
    if apps != [] {
      SharesZero(apps[1..]);
      assert forall a | 1 <= a < |apps| :: apps[a] == apps[1..][a - 1];
    }
  }

  lemma {:induction false} SharesMirror(apps: seq<App>)
    requires forall a | 0 <= a < |apps| :: Share(apps[a]) <= 0
    ensures Shares(apps) <= 0
    ensures Shares(apps) == 0 ==> forall a | 0 <= a < |apps| :: Share(apps[a]) == 0
  {
    if apps != [] {
      SharesMirror(apps[1..]);
      assert forall a | 1 <= a < |apps| :: apps[a] == apps[1..][a - 1];
    }
  }

  /** When the handler reads a zero count, somebody is armed and already counted, or still has
      to uncount itself, exactly if somebody lost its arm before it was counted. */
  lemma EarlyExitExactly(st: State)
    requires Inv(st) && st.handler.ReadAwaiters? && st.awaiters == 0
    ensures (exists a :: 0 <= a < |st.apps| && (st.apps[a].requester.Uncount? ||
                                                (st.apps[a].armed.Some? && !st.apps[a].requester.Count?)))
       <==> (exists a :: 0 <= a < |st.apps| && st.apps[a].requester.Count? && st.apps[a].armed.None?)
  {
    SharesBounds(st.apps, st.now);
    WrapInjective(Shares(st.apps), 0);
    forall a | 0 <= a < |st.apps|
      ensures Share(st.apps[a]) == 1 <==> st.apps[a].requester.Uncount? ||
                                          (st.apps[a].armed.Some? && !st.apps[a].requester.Count?)
      ensures Share(st.apps[a]) == -1 <==> st.apps[a].requester.Count? && st.apps[a].armed.None?
      ensures -1 <= Share(st.apps[a]) <= 1
    {
      assert Sound(st.apps[a], st.now);
    }
    if forall a | 0 <= a < |st.apps| :: Share(st.apps[a]) >= 0 {
      SharesZero(st.apps);
    } else if forall a | 0 <= a < |st.apps| :: Share(st.apps[a]) <= 0 {
      SharesMirror(st.apps);
    } else {
      var a :| 0 <= a < |st.apps| && Share(st.apps[a]) == 1;
      var b :| 0 <= b < |st.apps| && Share(st.apps[b]) == -1;
    }
  }

  /** Hence leaving early is right: whoever is armed then is in flight and looks for itself. */
  lemma EarlyExitSafe(st: State)
    requires Safe(st) && st.handler.ReadAwaiters? && st.awaiters == 0
    ensures forall a | 0 <= a < |st.apps| && st.apps[a].armed.Some? :: st.apps[a].requester.Count?
  {
    EarlyExitExactly(st);
  }

  lemma UndisturbedStep(st: State, act: Action)
    requires Inv(st) && Undisturbed(st) && InWindow(st) && Enabled(st, act) && Careful(st, act)
    ensures Undisturbed(Next(st, act))
  {
  }

  lemma HandlerNoneLost(st: State, act: Action)
    requires Safe(st) && InWindow(st) && Enabled(st, act)
    requires act.HandlerReadsAwaiters? || act.HandlerReadsApp? || act.HandlerClears? || act.HandlerWakes?
    ensures NoneLost(Next(st, act))
  {
    var st' := Next(st, act);
    if act.HandlerReadsAwaiters? && st.awaiters == 0 {
      EarlyExitSafe(st);
    }
    forall a | 0 <= a < |st'.apps| && a in st'.live && Behind(st', a)
      ensures Covered(st', a)
    {
      assert Behind(st, a) && Covered(st, a);
      SeqLtIsOrder(st.apps[a].armed.value, st.now);
      assert Sound(st.apps[a], st.now);
    }
  }

  lemma RequestNoneLost(st: State, act: Action)
    requires Safe(st) && InWindow(st) && Enabled(st, act)
    requires act.Begin? || act.RequestReadsNow? || act.RequestExchanges? || act.RequestCounts? ||
             act.RequestExchangesAndCounts? || act.RequestRechecks? || act.RequestCancels? || act.RequestUncounts?
    ensures NoneLost(Next(st, act))
  {
    var st', b := Next(st, act), act.app;
    assert Sound(st.apps[b], st.now);
    if !act.Begin? {
      SeqLtIsOrder(st.apps[b].requester.seqno, st.now);
    }
    forall a | 0 <= a < |st'.apps| && a in st'.live && Behind(st', a)
      ensures Covered(st', a)
    {
      if a != b || !(act.RequestExchanges? || act.RequestExchangesAndCounts?) {
        assert Behind(st, a) && Covered(st, a);
      }
    }
  }

  /** What joining the list does: a wakeup is lost exactly if the application is armed for a passed
      number and its request is not on its way to look again. */
  lemma LinkExactly(st: State, a: nat)
    requires Safe(st) && InWindow(st) && Enabled(st, Link(a))
    ensures NoneLost(Next(st, Link(a))) <==> !Behind(st, a) || InFlight(st.apps[a].requester)
    ensures st.apps[a].requester.Idle? ==> (Delivered(Next(st, Link(a))) <==> !Behind(st, a))
  {
    var st' := Next(st, Link(a));
    forall b | 0 <= b < |st.apps|
      ensures b in st'.live <==> b in st.live || b == a
      ensures Behind(st', b) <==> Behind(st, b)
      ensures b in st.live && Behind(st, b) ==> Covered(st', b)
    {
      assert b in st.live && Behind(st, b) ==> Covered(st, b);
    }
    if st.apps[a].requester.Idle? {
      assert a in st'.live;
      if !Behind(st, a) {
        InvStep(st, Link(a));
        SafeDelivers(st');
      }
    }
  }

  lemma SafeStep(st: State, act: Action)
    requires Safe(st) && InWindow(st) && Enabled(st, act) && Timely(st, act)
    requires |st.apps| == 1 || Careful(st, act)
    ensures Safe(Next(st, act))
  {
    InvStep(st, act);
    if |st.apps| != 1 {
      UndisturbedStep(st, act);
    }
    match act
    case Event(_) =>
    case Link(a) =>
      LinkExactly(st, a);
    case Unlink(a) =>
      WithoutSubset(st.live, a);
    case HandlerReadsAwaiters => HandlerNoneLost(st, act);
    case HandlerReadsApp => HandlerNoneLost(st, act);
    case HandlerClears => HandlerNoneLost(st, act);
    case HandlerWakes => HandlerNoneLost(st, act);
    case _ => RequestNoneLost(st, act);
  }

  /** Nobody on the list is left armed for a number the position has passed, and a request that
      returned zero for a passed number has been answered. */
  predicate Delivered(st: State) {
    forall a | 0 <= a < |st.apps| && a in st.live && st.handler.Resting? && st.apps[a].requester.Idle? ::
      && (st.apps[a].armed.Some? ==> st.now <= st.apps[a].armed.value)
      && (st.apps[a].granted.Some? && st.apps[a].granted.value < st.now ==> st.apps[a].woken)
  }

  lemma SafeDelivers(st: State)
    requires Safe(st)
    ensures Delivered(st)
  {
    forall a | 0 <= a < |st.apps| && a in st.live && st.handler.Resting? && st.apps[a].requester.Idle?
      ensures st.apps[a].armed.Some? ==> st.now <= st.apps[a].armed.value
      ensures st.apps[a].granted.Some? && st.apps[a].granted.value < st.now ==> st.apps[a].woken
    {
      assert !Behind(st, a);
      assert KeptAt(st, a);
    }
  }

  lemma {:induction false} SafeRun(st: State, acts: seq<Action>)
    requires Safe(st) && Legal(st, acts) && TimelyRun(st, acts)
    requires |st.apps| == 1 || CarefulRun(st, acts)
    ensures Safe(Exec(st, acts))
    decreases |acts|
  {
    if acts != [] {
      SafeStep(st, acts[0]);
      SafeRun(Next(st, acts[0]), acts[1..]);
    }
  }

  lemma InitSafe(st: State)
    requires Init(st)
    ensures Safe(st)
  {
    InitInv(st);
  }

  /** At every point of a run, somebody is bound to look at whoever is armed for a passed number. */
  predicate NoneLostThroughout(st: State, acts: seq<Action>)
    requires Legal(st, acts)
    decreases |acts|
  {
    NoneLost(st) && (acts != [] ==> NoneLostThroughout(Next(st, acts[0]), acts[1..]))
  }

  /** For one application, or with the handler careful, that holds of a run exactly if applications join in time. */
  lemma {:induction false} TimelyExactly(st: State, acts: seq<Action>)
    requires Safe(st) && Legal(st, acts)
    requires |st.apps| == 1 || CarefulRun(st, acts)
    ensures NoneLostThroughout(st, acts) <==> TimelyRun(st, acts)
    decreases |acts|
  {
    if acts != [] {
      if Timely(st, acts[0]) {
        SafeStep(st, acts[0]);
        TimelyExactly(Next(st, acts[0]), acts[1..]);
      } else {
        LinkExactly(st, acts[0].app);
      }
    }
  }

  /** One application, every atomic operation a step of its own: no wakeup is lost in a run in which it joins in time. */
  lemma NoLostWakeupOneApp(st: State, acts: seq<Action>)
    requires Init(st) && |st.apps| == 1 && Legal(st, acts) && TimelyRun(st, acts)
    ensures Delivered(Exec(st, acts))
  {
    InitSafe(st);
    SafeRun(st, acts);
    SafeDelivers(Exec(st, acts));
  }

  /** Any number of applications that join in time: no wakeup is lost as long as the handler never disarms one
      between its exchange and its increment. */
  lemma NoLostWakeup(st: State, acts: seq<Action>)
    requires Init(st) && Legal(st, acts) && TimelyRun(st, acts) && CarefulRun(st, acts)
    ensures Delivered(Exec(st, acts))
  {
    InitSafe(st);
    SafeRun(st, acts);
    SafeDelivers(Exec(st, acts));
  }

  predicate NobodyCounting(st: State) {
    forall a | 0 <= a < |st.apps| :: !st.apps[a].requester.Count?
  }

  lemma {:induction false} AtomicArmingIsCareful(st: State, acts: seq<Action>)
    requires NobodyCounting(st) && Legal(st, acts)
    requires forall i | 0 <= i < |acts| :: !acts[i].RequestExchanges?
    ensures CarefulRun(st, acts)
    decreases |acts|
  {
    if acts != [] {
      assert NobodyCounting(Next(st, acts[0])) by {
        assert !acts[0].RequestExchanges?;
      }
      AtomicArmingIsCareful(Next(st, acts[0]), acts[1..]);
    }
  }

  /** Any number of applications, the exchange and the increment taken as one step. */
  lemma NoLostWakeupAtomicArming(st: State, acts: seq<Action>)
    requires Init(st) && Legal(st, acts) && TimelyRun(st, acts)
    requires forall i | 0 <= i < |acts| :: !acts[i].RequestExchanges?
    ensures Delivered(Exec(st, acts))
  {
    AtomicArmingIsCareful(st, acts);
    NoLostWakeup(st, acts);
  }

  // ----- Runs that lose a wakeup -----

  function Fresh(n: nat): State {
    State(0, 0, seq(n, _ => App(None, Idle, None, false)), [], Resting)
  }

  lemma Prepend(st: State, act: Action, acts: seq<Action>)
    requires InWindow(st) && Enabled(st, act) && Legal(Next(st, act), acts)
    ensures Legal(st, [act] + acts) && Exec(st, [act] + acts) == Exec(Next(st, act), acts)
    ensures TimelyRun(st, [act] + acts) <==> Timely(st, act) && TimelyRun(Next(st, act), acts)
  {
    assert ([act] + acts)[1..] == acts;
  }

  lemma Stop(st: State)
    requires InWindow(st)
    ensures Legal(st, []) && TimelyRun(st, []) && Exec(st, []) == st
  {
  }

  /** The second application waits for number 10, armed and counted. */
  const WAITING := State(0, 1, [App(None, Idle, None, false), App(Some(10), Idle, Some(10), false)], [1, 0], Resting)

  /** The first application has armed itself for number 2 and is not counted yet. */
  const ARMED := State(0, 1, [App(Some(2), Count(2), None, false), App(Some(10), Idle, Some(10), false)], [1, 0], Resting)

  /** An event at 5 disarmed and woke the first application and took the count back to zero. */
  const DISARMED := State(5, 0, [App(None, Count(2), None, true), App(Some(10), Idle, Some(10), false)], [1, 0], Resting)

  /** An event at 20 left at once. */
  const PASSED := State(20, 0, [App(None, Count(2), None, true), App(Some(10), Idle, Some(10), false)], [1, 0], Resting)

  /** And the first request has returned. */
  const LOST := State(20, 1, [App(None, Idle, None, true), App(Some(10), Idle, Some(10), false)], [1, 0], Resting)

  /** Both applications are linked. */
  const LINKED := State(0, 0, [App(None, Idle, None, false), App(None, Idle, None, false)], [1, 0], Resting)

  lemma RunToLinked(acts: seq<Action>) returns (all: seq<Action>)
    requires Legal(LINKED, acts) && TimelyRun(LINKED, acts)
    ensures Legal(Fresh(2), all) && TimelyRun(Fresh(2), all) && Exec(Fresh(2), all) == Exec(LINKED, acts)
  {
    hide Legal, Exec, TimelyRun;
    var s0 := Fresh(2);
    var s1 := Next(s0, Link(0));
    assert Next(s1, Link(1)) == LINKED;
    all := acts;
    Prepend(s1, Link(1), all); all := [Link(1)] + all;
    Prepend(s0, Link(0), all); all := [Link(0)] + all;
  }

  /** The second application has armed itself and is not counted yet. */
  const ASKED := State(0, 0, [App(None, Idle, None, false), App(Some(10), Count(10), None, false)], [1, 0], Resting)

  lemma RunToAsked(acts: seq<Action>) returns (all: seq<Action>)
    requires Legal(ASKED, acts) && TimelyRun(ASKED, acts)
    ensures Legal(LINKED, all) && TimelyRun(LINKED, all) && Exec(LINKED, all) == Exec(ASKED, acts)
  {
    hide Legal, Exec, TimelyRun;
    var s0 := LINKED;
    var s1 := Next(s0, Begin(1, 10));
    var s2 := Next(s1, RequestReadsNow(1));
    assert Next(s2, RequestExchanges(1)) == ASKED;
    all := acts;
    Prepend(s2, RequestExchanges(1), all); all := [RequestExchanges(1)] + all;
    Prepend(s1, RequestReadsNow(1), all); all := [RequestReadsNow(1)] + all;
    Prepend(s0, Begin(1, 10), all); all := [Begin(1, 10)] + all;
  }

  lemma RunToWaiting(acts: seq<Action>) returns (all: seq<Action>)
    requires Legal(WAITING, acts) && TimelyRun(WAITING, acts)
    ensures Legal(ASKED, all) && TimelyRun(ASKED, all) && Exec(ASKED, all) == Exec(WAITING, acts)
  {
    hide Legal, Exec, TimelyRun;
    var s0 := ASKED;
    var s1 := Next(s0, RequestCounts(1));
    assert Next(s1, RequestRechecks(1)) == WAITING;
    all := acts;
    Prepend(s1, RequestRechecks(1), all); all := [RequestRechecks(1)] + all;
    Prepend(s0, RequestCounts(1), all); all := [RequestCounts(1)] + all;
  }

  lemma RunToArmed(acts: seq<Action>) returns (all: seq<Action>)
    requires Legal(ARMED, acts) && TimelyRun(ARMED, acts)
    ensures Legal(WAITING, all) && TimelyRun(WAITING, all) && Exec(WAITING, all) == Exec(ARMED, acts)
  {
    hide Legal, Exec, TimelyRun;
    var s0 := WAITING;
    var s1 := Next(s0, Begin(0, 2));
    var s2 := Next(s1, RequestReadsNow(0));
    assert Next(s2, RequestExchanges(0)) == ARMED;
    all := acts;
    Prepend(s2, RequestExchanges(0), all); all := [RequestExchanges(0)] + all;
    Prepend(s1, RequestReadsNow(0), all); all := [RequestReadsNow(0)] + all;
    Prepend(s0, Begin(0, 2), all); all := [Begin(0, 2)] + all;
  }

  /** The handler of an event at 5 has passed over the second application. */
  const SEEN := State(5, 1, [App(Some(2), Count(2), None, false), App(Some(10), Idle, Some(10), false)], [1, 0], Scan([0]))

  lemma RunToDisarmed(acts: seq<Action>) returns (all: seq<Action>)
    requires Legal(DISARMED, acts) && TimelyRun(DISARMED, acts)
    ensures Legal(SEEN, all) && TimelyRun(SEEN, all) && Exec(SEEN, all) == Exec(DISARMED, acts)
  {
    hide Legal, Exec, TimelyRun;
    var s0 := SEEN;
    var s1 := Next(s0, HandlerReadsApp);
    var s2 := Next(s1, HandlerClears);
    assert Next(s2, HandlerWakes) == DISARMED;
    all := acts;
    Prepend(s2, HandlerWakes, all); all := [HandlerWakes] + all;
    Prepend(s1, HandlerClears, all); all := [HandlerClears] + all;
    Prepend(s0, HandlerReadsApp, all); all := [HandlerReadsApp] + all;
  }

  lemma RunToSeen(acts: seq<Action>) returns (all: seq<Action>)
    requires Legal(SEEN, acts) && TimelyRun(SEEN, acts)
    ensures Legal(ARMED, all) && TimelyRun(ARMED, all) && Exec(ARMED, all) == Exec(SEEN, acts)
  {
    hide Legal, Exec, TimelyRun;
    var s0 := ARMED;
    var s1 := Next(s0, Event(5));
    var s2 := Next(s1, HandlerReadsAwaiters);
    assert Next(s2, HandlerReadsApp) == SEEN;
    all := acts;
    Prepend(s2, HandlerReadsApp, all); all := [HandlerReadsApp] + all;
    Prepend(s1, HandlerReadsAwaiters, all); all := [HandlerReadsAwaiters] + all;
    Prepend(s0, Event(5), all); all := [Event(5)] + all;
  }

  lemma RunToPassed(acts: seq<Action>) returns (all: seq<Action>)
    requires Legal(PASSED, acts) && TimelyRun(PASSED, acts)
    ensures Legal(DISARMED, all) && TimelyRun(DISARMED, all) && Exec(DISARMED, all) == Exec(PASSED, acts)
  {
    hide Legal, Exec, TimelyRun;
    var s0 := DISARMED;
    var s1 := Next(s0, Event(20));
    assert Next(s1, HandlerReadsAwaiters) == PASSED;
    all := acts;
    Prepend(s1, HandlerReadsAwaiters, all); all := [HandlerReadsAwaiters] + all;
    Prepend(s0, Event(20), all); all := [Event(20)] + all;
  }

  lemma RunToLost() returns (all: seq<Action>)
    ensures Legal(PASSED, all) && TimelyRun(PASSED, all) && Exec(PASSED, all) == LOST
  {
    hide Legal, Exec, TimelyRun;
    var s0 := PASSED;
    var s1 := Next(s0, RequestCounts(0));
    var s2 := Next(s1, RequestRechecks(0));
    assert Next(s2, RequestCancels(0)) == LOST;
    all := [];
    Stop(LOST);
    Prepend(s2, RequestCancels(0), all); all := [RequestCancels(0)] + all;
    Prepend(s1, RequestRechecks(0), all); all := [RequestRechecks(0)] + all;
    Prepend(s0, RequestCounts(0), all); all := [RequestCounts(0)] + all;
  }

  /** Without care on the handler's side a wakeup can be lost: with two applications there is a run, in which
      both join in time, that ends with nothing in flight and the second application asleep, its request
      granted and its number passed. */
  lemma WakeupCanBeLost() returns (acts: seq<Action>)
    ensures Legal(Fresh(2), acts) && TimelyRun(Fresh(2), acts) && Exec(Fresh(2), acts) == LOST && !Delivered(LOST)
  {
    var last := RunToLost();
    var passed := RunToPassed(last);
    var disarmed := RunToDisarmed(passed);
    var seen := RunToSeen(disarmed);
    var armed := RunToArmed(seen);
    var waiting := RunToWaiting(armed);
    var asked := RunToAsked(waiting);
    acts := RunToLinked(asked);
    assert LOST.apps[1].armed == Some(10) && 1 in LOST.live;
  }

  /** One application asked for number 10 before it was on the list, and the position has come to 20. */
  const UNSEEN := State(20, 1, [App(Some(10), Idle, Some(10), false)], [], Resting)

  /** Then it joins the list. */
  const LATE := State(20, 1, [App(Some(10), Idle, Some(10), false)], [0], Resting)

  /** It has armed itself and is not counted yet. */
  const EARLY := State(0, 0, [App(Some(10), Count(10), None, false)], [], Resting)

  /** Its request has returned, and no event has come. */
  const GRANTED := State(0, 1, [App(Some(10), Idle, Some(10), false)], [], Resting)

  lemma RunToGranted(acts: seq<Action>) returns (all: seq<Action>)
    requires Legal(GRANTED, acts)
    ensures Legal(EARLY, all) && Exec(EARLY, all) == Exec(GRANTED, acts)
  {
    hide Legal, Exec, TimelyRun;
    var s0 := EARLY;
    var s1 := Next(s0, RequestCounts(0));
    assert Next(s1, RequestRechecks(0)) == GRANTED;
    all := acts;
    Prepend(s1, RequestRechecks(0), all); all := [RequestRechecks(0)] + all;
    Prepend(s0, RequestCounts(0), all); all := [RequestCounts(0)] + all;
  }

  lemma RunToEarly(acts: seq<Action>) returns (all: seq<Action>)
    requires Legal(EARLY, acts)
    ensures Legal(Fresh(1), all) && Exec(Fresh(1), all) == Exec(EARLY, acts)
  {
    hide Legal, Exec, TimelyRun;
    var s0 := Fresh(1);
    var s1 := Next(s0, Begin(0, 10));
    var s2 := Next(s1, RequestReadsNow(0));
    assert Next(s2, RequestExchanges(0)) == EARLY;
    all := acts;
    Prepend(s2, RequestExchanges(0), all); all := [RequestExchanges(0)] + all;
    Prepend(s1, RequestReadsNow(0), all); all := [RequestReadsNow(0)] + all;
    Prepend(s0, Begin(0, 10), all); all := [Begin(0, 10)] + all;
  }

  lemma RunToUnseen(acts: seq<Action>) returns (all: seq<Action>)
    requires Legal(UNSEEN, acts)
    ensures Legal(GRANTED, all) && Exec(GRANTED, all) == Exec(UNSEEN, acts)
  {
    hide Legal, Exec, TimelyRun;
    var s0 := GRANTED;
    var s1 := Next(s0, Event(20));
    assert Next(s1, HandlerReadsAwaiters) == UNSEEN;
    all := acts;
    Prepend(s1, HandlerReadsAwaiters, all); all := [HandlerReadsAwaiters] + all;
    Prepend(s0, Event(20), all); all := [Event(20)] + all;
  }

  /** Even one application can lose a wakeup, if it joins the list after its number has passed. */
  lemma LateLinkLosesWakeup() returns (acts: seq<Action>)
    ensures Legal(Fresh(1), acts) && Exec(Fresh(1), acts) == LATE && !Delivered(LATE)
  {
    hide Legal, Exec, TimelyRun;
    assert Next(UNSEEN, Link(0)) == LATE;
    Stop(LATE);
    Prepend(UNSEEN, Link(0), []);
    var unseen := RunToUnseen([Link(0)] + []);
    var granted := RunToGranted(unseen);
    acts := RunToEarly(granted);
    assert LATE.apps[0].armed == Some(10) && 0 in LATE.live;
  }

  // ----- How many applications it takes -----

  const IDLE := App(None, Idle, None, false)

  /** The same with k more applications, which do nothing. */
  function Padded(st: State, k: nat): State {
    st.(apps := st.apps + seq(k, _ => IDLE))
  }

  lemma UpdatePadded(apps: seq<App>, k: nat, a: nat, x: App)
    requires a < |apps|
    ensures (apps + seq(k, _ => IDLE))[a := x] == apps[a := x] + seq(k, _ => IDLE)
    ensures (apps + seq(k, _ => IDLE))[a] == apps[a]
  {
  }

  /** They make no difference to any step. */
  lemma PaddedStep(st: State, k: nat, act: Action)
    requires Enabled(st, act)
    ensures Enabled(Padded(st, k), act) && Next(Padded(st, k), act) == Padded(Next(st, act), k)
  {
    match act
    case Event(_) =>
    case HandlerReadsAwaiters =>
    case HandlerReadsApp => UpdatePadded(st.apps, k, st.handler.rest[0], IDLE);
    case HandlerClears => UpdatePadded(st.apps, k, st.handler.app, st.apps[st.handler.app].(armed := None));
    case HandlerWakes => UpdatePadded(st.apps, k, st.handler.app, st.apps[st.handler.app].(woken := true));
    case Link(_) =>
    case Unlink(_) =>
    case _ => RequestPadded(st, k, act);
  }

  lemma RequestPadded(st: State, k: nat, act: Action)
    requires Enabled(st, act)
    requires act.Begin? || act.RequestReadsNow? || act.RequestExchanges? || act.RequestCounts? ||
             act.RequestExchangesAndCounts? || act.RequestRechecks? || act.RequestCancels? || act.RequestUncounts?
    ensures Enabled(Padded(st, k), act) && Next(Padded(st, k), act) == Padded(Next(st, act), k)
  {
    var a := act.app;
    UpdatePadded(st.apps, k, a, Next(st, act).apps[a]);
    if act.RequestExchangesAndCounts? {
      var mid := Exchanged(st, a);
      UpdatePadded(st.apps, k, a, mid.apps[a]);
    }
  }

  lemma {:induction false} PaddedRun(st: State, k: nat, acts: seq<Action>)
    requires Legal(st, acts)
    ensures Legal(Padded(st, k), acts) && Exec(Padded(st, k), acts) == Padded(Exec(st, acts), k)
    ensures TimelyRun(st, acts) ==> TimelyRun(Padded(st, k), acts)
    decreases |acts|
  {
    PaddedWindow(st, k);
    if acts != [] {
      PaddedStep(st, k, acts[0]);
      PaddedRun(Next(st, acts[0]), k, acts[1..]);
    }
  }

  lemma PaddedWindow(st: State, k: nat)
    requires InWindow(st)
    ensures InWindow(Padded(st, k))
  {
    var st' := Padded(st, k);
    forall a | 0 <= a < |st'.apps| ensures st'.apps[a] == if a < |st.apps| then st.apps[a] else IDLE {
    }
  }

  lemma PaddedDelivered(st: State, k: nat)
    requires !Delivered(st)
    ensures !Delivered(Padded(st, k))
  {
    var st' := Padded(st, k);
    forall a | 0 <= a < |st.apps| ensures st'.apps[a] == st.apps[a] {
    }
  }

  /** With separate steps no run in which applications join in time loses a wakeup exactly if the queue
      has at most one application. */
  lemma OneAppExactly(n: nat)
    requires n < WORD
    ensures (forall acts | Legal(Fresh(n), acts) && TimelyRun(Fresh(n), acts) :: Delivered(Exec(Fresh(n), acts)))
            <==> n <= 1
  {
    if n == 1 {
      forall acts | Legal(Fresh(n), acts) && TimelyRun(Fresh(n), acts) ensures Delivered(Exec(Fresh(n), acts)) {
        NoLostWakeupOneApp(Fresh(n), acts);
      }
    } else if n == 0 {
      forall acts | Legal(Fresh(n), acts) ensures Delivered(Exec(Fresh(n), acts)) {
        SameApps(Fresh(n), acts);
      }
    } else {
      var acts := WakeupCanBeLost();
      assert Padded(Fresh(2), n - 2) == Fresh(n);
      PaddedRun(Fresh(2), n - 2, acts);
      PaddedDelivered(LOST, n - 2);
    }
  }

  /** Without that, exactly if it has none. */
  lemma NoAppExactly(n: nat)
    ensures (forall acts | Legal(Fresh(n), acts) :: Delivered(Exec(Fresh(n), acts))) <==> n == 0
  {
    if n == 0 {
      forall acts | Legal(Fresh(n), acts) ensures Delivered(Exec(Fresh(n), acts)) {
        SameApps(Fresh(n), acts);
      }
    } else {
      var acts := LateLinkLosesWakeup();
      assert Padded(Fresh(1), n - 1) == Fresh(n);
      PaddedRun(Fresh(1), n - 1, acts);
      PaddedDelivered(LATE, n - 1);
    }
  }
}
