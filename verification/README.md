# Onload: verified models of its hard parts

Dafny models of parts of the Onload drivers and scripts, with proofs of what those parts promise.
`dafny verify dfyconfig.toml` checks everything.

## What is modelled

**Interrupt wakeup** (`Wakeup.dfy`, `WakeupRequests.dfy`). The lock-free protocol between a request for a wakeup and
the handler of wakeup events, as a transition system: every atomic operation is one step under sequential consistency,
handlers of one queue are serialised with each other and with changes of its list, an application has one request at a
time, the position only advances, and live numbers lie within half the number space. An application may ask before it
is on the list. What the code promises is not true of every run, and the model says exactly when it is. An application
that joins the list after its number has passed, with no request on its way to look again, sleeps on; so with one
application or more some run loses a wakeup. Among the runs in which applications join in time, none loses one exactly
if the queue has at most one application: with two, the handler may disarm an application that has armed but not
counted itself, take the count to zero, and then leave early while another application is armed. With any number, none
is lost in a run in which that does not happen, nor in any if arming and counting are one step. When a request is
granted, and whom an event wakes, is stated in terms of the unwrapped numbers.

**Superbuffer sharing** (`Superbuf.dfy`, `SuperbufInvariants.dfy`, `SuperbufDelivery.dfy`, `SuperbufQueue.dfy`,
`AppLists.dfy`). One receive queue lends numbered superbuffers to applications through shared rings and counts
references. The specification is a set of functions on a queue value; the invariant covers conservation of references,
alternation of start and release, the driver's window under wrapping 32-bit counters, and delivery in order and
without gaps; what each application is given by a start or a poll is stated in terms of the driver's stream and the
ring words read; the classes of `SuperbufQueue.dfy` update counters, bits and rings in place and are proved to do what
the specification says, with the lists of applications as sequences. `AppLists.dfy` has those lists as linked nodes,
with the pointers the code sets. Words read from shared memory are arbitrary. The net driver starts only superbuffers
without references, ends them oldest first, holds at most a ring of them, and does not poll with nothing in hand while
an application lags. The assertion in `efct_buffer_end` is stricter than the one in `post_superbuf_to_app` by one; the
model uses the bound of the code that acts on it. Reference counts are unbounded here, and proved to be at most the
number of live applications plus one.

**Control-plane handles** (`Cplane.dfy`, `CplaneOutcomes.dfy`, `CplaneTable.dfy`). Reference counting with delayed
kill work, cancelling and reviving, server attach and detach, and a hash table with one handle per namespace, as a
transition system whose steps are the critical sections, and as classes that take those steps in place. Cancelling
delayed work succeeds exactly while it is pending; a server drops its file only after its mapping is closed. What each
step does is also stated in terms of who holds the handle, and orphaned servers are proved to be killed.

**Coverage files** (`Bytes.dfy`, `Gcov34.dfy`, `Gcov34Counters.dfy`, `Gcov34Reading.dfy`, `Gcov33.dfy`,
`Gcov33Reading.dfy`, `GcovTree.dfy`). Readers that generate any stretch of a structured file equal a slice of the
whole file, and independent readers of the two formats get back from the whole file what the unit holds; the encoders
are as written. The gcc 3.4 code indexes the counts in a function's record by type, while the record has counts for
active types only, which is right exactly without inactive types below. The gcc 3.4 encoder of 64-bit counters keeps
only sixteen bits of the lower word. Its section sizes are 32-bit words; if one wraps, the file ends too early, and
the model says so. `store_gcov_type` says it fails for values of more than 8 * bytes - 1 bits; the code reports
success for magnitudes up to 2^(8 * bytes), and those that use the top bit do not survive. It negates its argument;
the model takes the negative of the most negative value to be itself. The iterative teardown of the tree of nodes is
proved to be a post-order traversal, on any tree and from any node, with its pointers changed in place.

**Firewall rules** (`Numerals.dfy`, `Firewall.dfy`, `FirewallText.dfy`, `FirewallParser.dfy`, `FirewallRoundTrip.dfy`,
`FirewallMatching.dfy`, `FirewallNotation.dfy`). The singly linked rule list with first and last pointers refines a
sequence; the filter check is first match; the parser reads back what the printer writes, for every table any text can
build. `int` arithmetic wraps. As in the code, an invalid address followed directly by a line end does not stop a rule
from being accepted, and the order of the ends of a port range is not checked; a hardware address mask given as a
length is read in hexadecimal and mostly left full.

**Smaller parts.** `Memreg.dfy`: the order of buffer-table blocks, for pinned pages in which the pages of each
compound page follow one another and compound pages are naturally aligned; on pages larger than the NIC's, a region
that does not end where pages end is not covered by its blocks. `FilterIds.dfy`: filter numbers across wraps.
`Sfcmask.dfy`, `SfcmaskLoops.dfy`: masks as text. `Timesync.dfy`: the sliding-window clock estimate; the comment in
`oo_timesync_stabilize_cpu_khz` promises less than 16 * 10^10 smoothed nanoseconds, the code gives at most that.
`Words.dfy`, `Arith.dfy`, `Options.dfy` and `Chains.dfy` (linked lists) hold what several of these share.

## Model

| member | source | states |
|---|---|---|
| `Wakeup.NoLostWakeupOneApp` | src/driver/linux_resource/aux_efct.c:95-183 | one application, every atomic operation its own step, every run in which it joins the list in time: when nothing is in flight it is not left armed at a passed number, and a granted request for a passed number has been answered |
| `Wakeup.NoLostWakeup` | src/driver/linux_resource/aux_efct.c:95-183 | the same for any number of applications that join in time, over every run in which the handler's compare-and-swap never hits an application between its exchange and its increment |
| `Wakeup.NoLostWakeupAtomicArming` | src/driver/linux_resource/aux_efct.c:168-169 | any number of applications that join in time, when the exchange and the increment are one step: no wakeup is lost |
| `Wakeup.AtomicArmingIsCareful` | src/driver/linux_resource/aux_efct.c:168-169 | with that step taken as one, every run satisfies the condition of NoLostWakeup |
| `Wakeup.WakeupCanBeLost` | src/driver/linux_resource/aux_efct.c:95-183 | with separate steps and two applications there is a run, in which both join in time, that ends at rest with a granted, passed and unanswered request |
| `Wakeup.LinkExactly` | src/driver/linux_resource/efct_superbuf.c:151-177 | activating an application, which does not look at its number, loses a wakeup if and only if it is armed for a passed number with no request on its way to look again |
| `Wakeup.TimelyExactly` | src/driver/linux_resource/aux_efct.c:95-183 | for one application, or with a careful handler: no state of a run has a lost wakeup if and only if applications join in time in it |
| `Wakeup.LateLinkLosesWakeup` | src/driver/linux_resource/efct_superbuf.c:151-177 | a run of one application that asks while it waits for activation and is activated after its number has passed: it is at rest, armed and never woken |
| `Wakeup.OneAppExactly` | src/driver/linux_resource/aux_efct.c:95-183 | over all runs in which applications join in time, none loses a wakeup if and only if there is at most one application |
| `Wakeup.NoAppExactly` | src/driver/linux_resource/aux_efct.c:95-183 | over all runs of a queue of n applications, none loses a wakeup if and only if n is zero |
| `Wakeup.EarlyExitExactly` | src/driver/linux_resource/aux_efct.c:106-107 | when the handler reads a zero count, a counted application is armed (or still has to uncount) if and only if some application lost its arm before it was counted |
| `Wakeup.EarlyExitSafe` | src/driver/linux_resource/aux_efct.c:106-107 | under the invariant, leaving on a zero count leaves armed only requests that still recheck the position themselves |
| `Wakeup.AwaiterAccounting` | src/driver/linux_resource/aux_efct.c:104-182 | after any run from the start: the count plus the requesters between exchange and increment equals the armed applications, unlinked ones included, plus the winners of a clearing compare-and-swap that have not decremented yet; as an equation on numbers, with 2^32 added exactly when the count has wrapped below zero |
| `Wakeup.InvStep` | src/driver/linux_resource/aux_efct.c:95-183 | every atomic step keeps that accounting and the shape of the protocol state |
| `Wakeup.SafeStep` | src/driver/linux_resource/aux_efct.c:95-183 | every step that is careful (any step, for one application) and does not join an application late keeps the no-lost-wakeup invariant |
| `Wakeup.SeqLtIsOrder` | src/driver/linux_resource/aux_efct.c:43-46 | the wrapping comparison is the true order for numbers less than 2^31 apart |
| `Wakeup.PktSeqOrder` | src/driver/linux_resource/aux_efct.c:48-51 | packet numbers order packets by superbuffer and then index across wraps, and never equal the invalid number |
| `Wakeup.PktSeqWord` | src/driver/linux_resource/aux_efct.c:48-51 | a packet number is the word of superbuffer sequence times 2^16 plus index |
| `WakeupRequests.RequestOutcome` | src/driver/linux_resource/aux_efct.c:149-183 | however a request goes on among the steps of everybody else: it is granted if and only if each of its reads finds the position at or before its number; granted, it leaves that number armed, and refused after arming, nothing |
| `WakeupRequests.QuietRequest` | src/driver/linux_resource/aux_efct.c:149-183 | from beginning to end with no event in between, among any other steps: granted and armed if and only if the number is not below the position, the position itself included |
| `WakeupRequests.SoloRequest` | src/driver/linux_resource/aux_efct.c:149-183 | an application alone can always carry a request through to that answer |
| `WakeupRequests.ReadsNowExactly` | src/driver/linux_resource/aux_efct.c:162-166 | in unwrapped numbers: the first read refuses exactly the numbers below the position |
| `WakeupRequests.RechecksExactly` | src/driver/linux_resource/aux_efct.c:171-174 | the second read grants, with the number armed, exactly if the position has not passed it |
| `WakeupRequests.CancelsExactly` | src/driver/linux_resource/aux_efct.c:176-182 | cancelling leaves nothing armed, and uncounts exactly if the handler had not disarmed it |
| `WakeupRequests.DisarmedWasPassed` | src/driver/linux_resource/aux_efct.c:110-119 | in every state an arm goes only after its number has passed, by the handler or by its own request |
| `WakeupRequests.EventAnswers` | src/driver/linux_resource/aux_efct.c:95-122 | with no request in progress, an event and its handler disarm and wake exactly the listed applications armed for a number the new position has passed, and touch no other |
| `WakeupRequests.UnlinkExactly` | src/driver/linux_resource/efct_superbuf.c:118-128 | leaving the list takes out that application and keeps the order of the others |
| `WakeupRequests.ListedOnceAlways` | src/driver/linux_resource/efct_superbuf.c:118-177 | after any run an application is on the list at most once |
| `SuperbufInvariants.ReferencesConserved` | src/driver/linux_resource/efct_superbuf.c:20-149 | in every reachable state, whatever the applications write: refcount is one for the driver window plus one per live owner, at most applications plus one; owned count equals set bits and is within the maximum; dying applications own nothing |
| `SuperbufInvariants.ReleasedExactlyOnce` | src/driver/linux_resource/efct_superbuf.c:90-218 | over every run, starts and releases of a superbuffer alternate, and it is out exactly while it has a reference |
| `SuperbufInvariants.DeliveryInOrder` | src/driver/linux_resource/efct_superbuf.c:34-75 | over every run, the positions posted to an application strictly increase and carry what the driver started there |
| `SuperbufInvariants.RunKeepsInv` | src/driver/linux_resource/efct_superbuf.c:20-306 | all entry points in any order keep the whole invariant, given what the net driver promises |
| `SuperbufInvariants.StepKeepsInv` | src/driver/linux_resource/efct_superbuf.c:193-306 | each entry point keeps it |
| `SuperbufInvariants.ChosenIsInWindow` | src/driver/linux_resource/efct_superbuf.c:52-66 | the wrapping arithmetic picks a position in the driver window the application has not seen, the first one unless it lags by 2^32 |
| `SuperbufInvariants.ChosenIsNotOwned` | src/driver/linux_resource/efct_superbuf.c:52-70 | the superbuffer picked is not one the application owns, and the position picked is the latest it was started at |
| `SuperbufInvariants.PostKeepsInv` | src/driver/linux_resource/efct_superbuf.c:20-76 | posting to one application keeps the invariant |
| `SuperbufInvariants.PostSafeExactly` | src/driver/linux_resource/efct_superbuf.c:52-66 | a posting keeps the invariant, and takes a superbuffer of the window, if and only if the window is not empty |
| `SuperbufInvariants.SkippedWereEnded` | src/driver/linux_resource/efct_superbuf.c:52-66 | a position is passed over only if the driver has ended it, for an application that lags by less than 2^32 |
| `SuperbufInvariants.NoGaps` | src/driver/linux_resource/efct_superbuf.c:34-75 | over every run: each position from an application's activation up to the last one posted to it was posted to it or has been ended, unless the application was ever posted to 2^32 or more behind |
| `SuperbufInvariants.GiveUpKeepsInv` | src/driver/linux_resource/efct_superbuf.c:90-104 | dropping an owner's reference keeps the invariant, the release of a last reference included |
| `SuperbufInvariants.FinishKeepsInv` | src/driver/linux_resource/efct_superbuf.c:90-110 | so does the whole of finishing, which posts the next superbuffer |
| `SuperbufInvariants.ReapKeepsInv` | src/driver/linux_resource/efct_superbuf.c:112-149 | any number of rounds of the reaping loop keep the invariant; applications passed so far left exactly if they were marked, all their references dropped, the rest in order |
| `SuperbufInvariants.PollUnlinksDestroyed` | src/driver/linux_resource/efct_superbuf.c:193-200 | a whole poll: of the live and the waiting applications exactly those marked for destruction leave, onto the destructor's list, and the others keep their order |
| `SuperbufInvariants.ActivateKeepsInv` | src/driver/linux_resource/efct_superbuf.c:151-177 | activation makes every waiting application live and keeps the invariant |
| `SuperbufInvariants.LendKeepsInv` | src/driver/linux_resource/efct_superbuf.c:220-243 | recording a started superbuffer without references keeps the invariant |
| `SuperbufInvariants.EndKeepsInv` | src/driver/linux_resource/efct_superbuf.c:204-218 | ending the oldest superbuffer keeps it |
| `SuperbufQueue.RxQueue.PostToApp` | src/driver/linux_resource/efct_superbuf.c:20-76 | the method on counters, bits and ring does what the specification says, for any ring words it reads |
| `SuperbufQueue.RxQueue.PostToApps` | src/driver/linux_resource/efct_superbuf.c:78-87 | the loop over live applications is the fold of that |
| `SuperbufQueue.RxQueue.FinishedWith` | src/driver/linux_resource/efct_superbuf.c:90-110 | drops the reference, releases at zero, posts the next |
| `SuperbufQueue.RxQueue.DrainFreeRing` | src/driver/linux_resource/efct_superbuf.c:129-146 | stops when it has looked at all elements added or at a whole ring, for any counters read; the counter written back is past exactly the entries looked at |
| `SuperbufQueue.RxQueue.StripApp` | src/driver/linux_resource/efct_superbuf.c:120-124 | gives up every owned superbuffer, lowest first |
| `SuperbufQueue.RxQueue.ReapSuperbufs` | src/driver/linux_resource/efct_superbuf.c:112-149 | the loop over the live applications equals the specification for the entries it read |
| `SuperbufQueue.RxQueue.ActivateNewApps` | src/driver/linux_resource/efct_superbuf.c:151-177 | moves the waiting list in front of the live list |
| `SuperbufQueue.RxQueue.Poll` | src/driver/linux_resource/efct_superbuf.c:193-200 | activation and reaping in turn |
| `SuperbufQueue.RxQueue.BufferStart` | src/driver/linux_resource/efct_superbuf.c:220-243 | records the superbuffer in ring and log, counts it and posts it to all; SuperbufDelivery.StartServes says what that gives each application |
| `SuperbufQueue.RxQueue.BufferEnd` | src/driver/linux_resource/efct_superbuf.c:204-218 | retires the oldest; true, with a release logged, exactly at the last reference |
| `SuperbufQueue.RxQueue.Bind` | src/driver/linux_resource/efct_superbuf.c:245-294 | a new application waits, owning nothing |
| `SuperbufQueue.RxQueue.Free` | src/driver/linux_resource/efct_superbuf.c:296-306 | marks that application and no other |
| `SuperbufQueue.RxQueue.DestructApps` | src/driver/linux_resource/efct_superbuf.c:179-191 | empties the destructor's list |
| `SuperbufDelivery.StartServes` | src/driver/linux_resource/efct_superbuf.c:220-243 | each waiting or live application that is not marked, owns fewer than its maximum, has not seen all and whose ring words leave room gets exactly one posting: of the first position held that it has not seen (always one held and unseen, for any lag), in the slot its ring counter names, with the next counter; any other is unchanged |
| `SuperbufDelivery.StartReaches` | src/driver/linux_resource/efct_superbuf.c:220-243 | one that has caught up, or just arrived, gets the superbuffer started itself under exactly those conditions |
| `SuperbufDelivery.BoundIsServed` | src/driver/linux_resource/efct_superbuf.c:245-294 | an application just bound gets the next superbuffer started as its first |
| `SuperbufDelivery.PostServes` | src/driver/linux_resource/efct_superbuf.c:20-76 | the same for one posting, in terms of the driver's stream and not of the wrapping counters |
| `SuperbufDelivery.TakeBackServes` | src/driver/linux_resource/efct_superbuf.c:90-110 | an id read from the free ring that the application owns is given up and the application served again; any other id changes nothing |
| `SuperbufDelivery.DrainServes` | src/driver/linux_resource/efct_superbuf.c:129-146 | the elements of a free ring are dealt with so, one after the other |
| `SuperbufDelivery.PollServes` | src/driver/linux_resource/efct_superbuf.c:193-200 | a whole poll leaves the applications not marked, in order, each exactly as the elements of its own free ring make it, whatever the others wrote |
| `SuperbufDelivery.GiveUpReturns` | src/driver/linux_resource/efct_superbuf.c:101-104 | giving up returns a superbuffer to the driver exactly if the driver has ended it and nobody else owns it |
| `SuperbufDelivery.EndExactly` | src/driver/linux_resource/efct_superbuf.c:204-218 | ending takes exactly the oldest out of the window, and returns it exactly if nobody owns it |
| `SuperbufDelivery.FreeMarks` | src/driver/linux_resource/efct_superbuf.c:296-306 | freeing sets the mark of that application and changes nothing else |
| `SuperbufDelivery.FreedGoes` | src/driver/linux_resource/efct_superbuf.c:296-306 | after freeing and one poll the application is off the list and waits for its destructor |
| `AppLists.Lists.Push` | src/include/ci/efhw/efct.h:226-233 | on linked nodes: the new application in front, the lists disjoint and every pointer right |
| `AppLists.Lists.ActivateNewApps` | src/driver/linux_resource/efct_superbuf.c:151-177 | walks to the last new application and joins it to the live ones: new before live, each in order |
| `AppLists.Lists.ReapDestroyed` | src/driver/linux_resource/efct_superbuf.c:112-149 | the walk with a pointer to the predecessor's pointer: exactly the marked applications leave the live list, the others in order, and are on the destructor's list in reverse before those already there |
| `AppLists.Lists.Unlink` | src/driver/linux_resource/efct_superbuf.c:125-125 | bypassing an application, first or not, leaves the list without it |
| `AppLists.Lists.DestructApps` | src/driver/linux_resource/efct_superbuf.c:179-191 | every application of the list is freed once, in order, and the list is empty |
| `AppLists.StaysOrLeaves` | src/driver/linux_resource/efct_superbuf.c:112-149 | a node stays if and only if it was listed and not marked, and leaves if and only if it was listed and marked |
| `Cplane.ReferenceSafety` | src/driver/linux_onload/cplane.c:364-676 | over every interleaving: refcount is the holders plus one for kill work with its reference; destruction is due or queued at most once in all, and then with no holder, server or kill work left and the handle out of the table |
| `Cplane.OneHandlePerNamespace` | src/driver/linux_onload/cplane.c:306-341 | in every reachable state at most one handle per namespace is in the table |
| `Cplane.LookupExactly` | src/driver/linux_onload/cplane.c:306-321 | lookup gives a handle if and only if it is the one in the table for that namespace |
| `Cplane.ReviveInherits` | src/driver/linux_onload/cplane.c:452-466 | after any run, reviving a killed handle leaves its count and the number of holders plus kill references behind it as they were; the reviver is a new holder in place of the kill work exactly if the kill could be cancelled, and else nothing changes |
| `Cplane.PendingKillAlone` | src/driver/linux_onload/cplane.c:491-521 | with kill work pending, a count of one is equivalent to there being no holder |
| `Cplane.GoneIsUntouched` | src/driver/linux_onload/cplane.c:475-532 | after its last reference nothing touches a handle but its one destruction |
| `Cplane.RunKeepsInv` | src/driver/linux_onload/cplane.c:306-1216 | every run of acquire, insert, release, attach, detach and kill steps keeps the invariant |
| `Cplane.StepKeepsInv` | src/driver/linux_onload/cplane.c:306-1216 | each step keeps it |
| `CplaneTable.CpHandle.CancelKill` | src/driver/linux_onload/cplane.c:452-466 | succeeds exactly while the work is pending, and then takes the kill back |
| `CplaneTable.CpHandle.DropRef` | src/driver/linux_onload/cplane.c:475-532 | the handle's part of a release is what the specification says, of which CplaneOutcomes.ReleaseOutcome gives the meaning |
| `CplaneTable.Table.Lookup` | src/driver/linux_onload/cplane.c:306-321 | the walk along the bucket finds what the specification finds |
| `CplaneTable.Table.Insert` | src/driver/linux_onload/cplane.c:325-334 | in front of its bucket |
| `CplaneTable.Table.Remove` | src/driver/linux_onload/cplane.c:336-341 | out of its bucket, the others in order |
| `CplaneTable.Table.AcquireIfExists` | src/driver/linux_onload/cplane.c:1031-1054 | the locked lookup, with reviving, as one step of the state machine |
| `CplaneTable.Table.InsertOrJoin` | src/driver/linux_onload/cplane.c:1056-1148 | the second lookup under the lock: join the handle another caller inserted, or insert the new one |
| `CplaneTable.Table.AcquireFromHolder` | src/driver/linux_onload/cplane.c:1222-1258 | one more reference from one already held |
| `CplaneTable.Table.Release` | src/driver/linux_onload/cplane.c:475-532 | the caller's reference, the delayed kill, and leaving the table with the last one |
| `CplaneTable.Table.KillLocked` | src/driver/linux_onload/cplane.c:438-449 | kill work takes the handle out of the table |
| `CplaneTable.Table.KillReleases` | src/driver/linux_onload/cplane.c:438-449 | and drops the reference it held |
| `CplaneTable.Table.Attach` | src/driver/linux_onload/cplane.c:762-879 | refused when a server is or was attached or, for a spawned one, when only its own references are left |
| `CplaneTable.Table.Detach` | src/driver/linux_onload/cplane.c:634-676 | closing the server's mapping detaches it and takes the handle out of the table |
| `CplaneOutcomes.KillScheduledExactly` | src/driver/linux_onload/cplane.c:499-515 | kill work becomes pending in a step if and only if the step releases, with servers spawned, the last holder but the server's own file of a handle that is not killed |
| `CplaneOutcomes.NoOrphanLives` | src/driver/linux_onload/cplane.c:475-532 | over every run with servers spawned: a handle in use whose only holder is its attached server is killed |
| `CplaneOutcomes.OrphansAreKilled` | src/driver/linux_onload/cplane.c:475-532 | the same from any state that has it |
| `CplaneOutcomes.ReleaseOutcome` | src/driver/linux_onload/cplane.c:475-532 | in terms of holders: the handle goes exactly if nobody else holds it and kill work has no reference or one that can be taken over; when the kill is scheduled; what else stays |
| `CplaneOutcomes.KillReleaseOutcome` | src/driver/linux_onload/cplane.c:438-449 | the release that ends a kill: the handle goes exactly if nobody holds it, and otherwise stays killed |
| `CplaneOutcomes.AcquireExactly` | src/driver/linux_onload/cplane.c:1031-1054 | the caller becomes a holder of exactly the handle in the table for the namespace, if and only if it is not killed, servers are not spawned, or its kill is called off; any other handle is unchanged |
| `CplaneOutcomes.InsertExactly` | src/driver/linux_onload/cplane.c:1056-1148 | afterwards the table has a handle of the namespace with the caller as holder: the one found, or else the new one |
| `CplaneOutcomes.SecondHolder` | src/driver/linux_onload/cplane.c:1222-1258 | a holder's further reference has a holder of its own |
| `CplaneOutcomes.AttachExactly` | src/driver/linux_onload/cplane.c:762-879 | a server is attached if and only if none is, none ever was and, with servers spawned, somebody or a kill has a reference besides its own two |
| `CplaneOutcomes.ServerExactly` | src/driver/linux_onload/cplane.c:634-676 | a server comes only with an attach and goes only with its detach |
| `CplaneOutcomes.LeavesExactly` | src/driver/linux_onload/cplane.c:336-341 | a handle leaves the table in a step if and only if it is a detach, the locked part of a kill, or the loss of the last reference |
| `CplaneOutcomes.EntersExactly` | src/driver/linux_onload/cplane.c:325-334 | it enters when it is made and never again |
| `CplaneOutcomes.KillUnlinks` | src/driver/linux_onload/cplane.c:438-449 | a pending kill can run through its locked part, after which the handle is out of the table |
| `CplaneOutcomes.KillEnds` | src/driver/linux_onload/cplane.c:438-449 | and on to its end, after which it has no kill work and is gone exactly if nobody holds it |
| `CplaneOutcomes.DestroyRunsThrough` | src/driver/linux_onload/cplane.c:475-532 | a handle whose last reference went can be destroyed |
| `Gcov34.StoreDaFile` | src/driver/linux/gcov.c:1019-1083 | a read at any offset of any count gives exactly that slice of the serialised file when no section size wraps; when one wraps, a read at the announced size is empty and is not the slice |
| `Gcov34.StoreFuncData` | src/driver/linux/gcov.c:941-1012 | the same for one function section; and, wrapped or not, a read is empty if and only if it starts at or past the size the program takes the section to have |
| `Gcov34.StoreCounterData` | src/driver/linux/gcov.c:888-934 | any stretch of one counter section is the slice of it |
| `Gcov34.StoreCounter` | src/driver/linux/gcov.c:862-881 | the two loops, with their 32-bit counter offset, give the bytes of the counter that Gcov34Counters.CounterPlace names |
| `Gcov34.SizeExactly` | src/driver/linux/gcov.c:825-835 | the announced size is the length of the file if and only if no section's 32-bit size wraps |
| `Bytes.ReadsConcatenate` | src/driver/linux/gcov.c:1110-1130 | consecutive reads of any sizes give the slice of their total, and the whole file once they reach its end |
| `Gcov34.Int32RoundTrip` | src/driver/linux/gcov.c:840-847 | four bytes hold a word |
| `Gcov34.Int64Exactly` | src/driver/linux/gcov.c:852-857 | a counter can be read back if and only if the upper half of its lower word is zero, because of the 0xffff mask |
| `Gcov34Counters.CountersPartition` | src/driver/linux/gcov.c:862-881 | the i-th stored array belongs to the i-th active type, and the sections of all functions one after the other show it from its beginning: every counter once, in order |
| `Gcov34Counters.CounterPlace` | src/driver/linux/gcov.c:862-881 | counter c of a section is the stored counter number c after those of the functions before |
| `Gcov34Counters.RecordAt` | src/driver/linux/gcov.c:771-794 | with the records of the functions one after the other in memory, every word of a record is found where the reader looks |
| `Gcov34Counters.CountEntryExactly` | src/driver/linux/gcov.c:797-806 | the counts taken for a type are its own, whatever the records hold, if and only if no type below it is inactive: the records have no place for inactive types, but the code indexes by type |
| `Gcov34Counters.ActiveExactly` | src/driver/linux/gcov.c:748-753 | a type is active exactly if its bit is set |
| `Gcov34Reading.FileReadsBack` | src/driver/linux/gcov.c:1019-1083 | an independent reader of the record format finds magic, version and stamp, then of every function its identifier and checksum and by active type its counters |
| `Gcov34Reading.RecordsReadBack` | src/driver/linux/gcov.c:888-1012 | records of a tag, a length and words are read back |
| `Gcov33.StoreDaFile` | src/driver/linux/gcov.c:612-741 | with the cached function, offset and counter pointer: a read gives exactly the slice, and fails if and only if a byte of it belongs to a checked number that does not fit four bytes |
| `Gcov33.FindFunction` | src/driver/linux/gcov.c:654-668 | wherever the cached search stood, it ends at the function hit, with its offset and first counter |
| `Gcov33.FunctionField` | src/driver/linux/gcov.c:669-728 | the chain of ranges gives a stretch of the right field; failure exactly for its unstorable numbers |
| `Gcov33.FindField` | src/driver/linux/gcov.c:669-728 | the range an offset into a function falls into |
| `Gcov33.HeaderField` | src/driver/linux/gcov.c:633-651 | the three numbers of the file header |
| `Gcov33.SizeIsLength` | src/driver/linux/gcov.c:555-576 | the announced size is the length of the file |
| `Gcov33.StoreGcovType` | src/driver/linux/gcov.c:472-498 | what is stored for every 64-bit value and every width, and exactly when failure is reported |
| `Gcov33.StoredExactly` | src/driver/linux/gcov.c:472-498 | a stored value can be read back if and only if its magnitude is below 2^(8*bytes-1) |
| `Gcov33.SuccessIsNotEnough` | src/driver/linux/gcov.c:472-498 | success is reported for values that cannot be read back, exactly for magnitudes that need the top bit |
| `Gcov33Reading.FileReadsBack` | src/driver/linux/gcov.c:612-741 | an independent reader of the format finds every function with its name and checksum, and all counters in order, each with its function, for numbers that leave the sign bit alone |
| `Gcov33Reading.FunctionReadsBack` | src/driver/linux/gcov.c:669-728 | one function is read back and the reader stands behind it |
| `GcovTree.Ftree.CleanupNode` | src/driver/linux/gcov.c:1239-1282 | on any well-formed tree: terminates; the tree is left without the subtree, the freed nodes are the subtree in post-order, the leaf list is the old one without the subtree's nodes |
| `GcovTree.TornExactly` | src/driver/linux/gcov.c:1239-1282 | the freed nodes are exactly those that left the tree, and exactly the subtree without the root of the whole tree |
| `GcovTree.TornInOrder` | src/driver/linux/gcov.c:1239-1282 | each is freed once, after everything below it |
| `GcovTree.RemoveKeeps` | src/driver/linux/gcov.c:1255-1265 | every node outside the subtree keeps its children in order, but for the node removed |
| `GcovTree.SpineNext` | src/driver/linux/gcov.c:1251-1254 | sibling or else parent is on the way to the next node in post-order |
| `GcovTree.Ftree.Unlink` | src/driver/linux/gcov.c:1255-1265 | taking a childless node out of its parent's list, first or not |
| `GcovTree.Ftree.UnlinkLeaf` | src/driver/linux/gcov.c:1266-1277 | taking a node out of the leaf list, if it is there |
| `GcovTree.Ftree.Descend` | src/driver/linux/gcov.c:1248-1250 | the descent ends at the first node in post-order |
| `FirewallRoundTrip.RoundTrip` | src/driver/linux_resource/filter.c:1029-1056 | printing the rules an interface has after any writes and adding that text where there are none gives a table that refuses exactly the same filters (up to 2^31 rules, the range of the printed number) |
| `FirewallRoundTrip.RuleRoundTrip` | src/driver/linux_resource/filter.c:980-1056 | a printed rule is read back with its interface and number, and the text after it is left |
| `FirewallRoundTrip.RestRoundTrip` | src/driver/linux_resource/filter.c:1547-1587 | rule by rule, every position printed is the position read back to |
| `FirewallRoundTrip.ReadBackMatches` | src/driver/linux_resource/filter.c:1149-1195 | what printing leaves out does not affect matching |
| `FirewallRoundTrip.InterpretBuilds` | src/driver/linux_resource/filter.c:1473-1545 | whatever the text, an accepted rule has a kind that goes with its protocol, an action, and an interface name that can be printed and read |
| `FirewallRoundTrip.RunBuilds` | src/driver/linux_resource/filter.c:1626-1652 | so has every rule of every table after any sequence of writes |
| `FirewallRoundTrip.DecRead` | src/driver/linux_resource/filter.c:165-192 | reading undoes printing a number, in the presence of 32-bit wrap |
| `FirewallRoundTrip.IpMaskRead` | src/driver/linux_resource/filter.c:351-371 | reading undoes printing an address with mask |
| `FirewallRoundTrip.MacMaskRead` | src/driver/linux_resource/filter.c:399-416 | reading undoes printing a hardware address with mask |
| `FirewallRoundTrip.PortsRead` | src/driver/linux_resource/filter.c:285-297 | reading undoes printing a port range, in order or not |
| `FirewallParser.InterpretRule` | src/driver/linux_resource/filter.c:1473-1545 | the token loop computes the recursive reading of a rule |
| `FirewallParser.AddRules` | src/driver/linux_resource/filter.c:1626-1652 | the loop over rules computes their insertion one after the other, up to the first that cannot be read |
| `FirewallParser.ReadInt` | src/driver/linux_resource/filter.c:165-192 | sign, wrap, end of text and where reading stops |
| `FirewallParser.ReadHexInt` | src/driver/linux_resource/filter.c:194-220 | the same for hexadecimal |
| `FirewallParser.SkipWhitespace` | src/driver/linux_resource/filter.c:232-239 | stops at a line end |
| `FirewallParser.ConsumeNextWord` | src/driver/linux_resource/filter.c:241-265 | stops at space, nil or the end of the buffer |
| `FirewallParser.FillTopBits` | src/driver/linux_resource/filter.c:299-324 | refuses widths out of range, leaves other bytes alone |
| `FirewallParser.TopBitsSet` | src/driver/linux_resource/filter.c:299-324 | exactly the top n bits are set in the bytes reached |
| `Firewall.Table.AddRule` | src/driver/linux_resource/filter.c:811-853 | insertion at min(position, length), append when negative |
| `Firewall.Table.RemoveRule` | src/driver/linux_resource/filter.c:855-885 | deletes that position, or fails and changes nothing when there is none |
| `Firewall.Table.LinkRule` | src/driver/linux_resource/filter.c:540-564 | keeps first, last and next pointers of the list with the rule in between |
| `Firewall.Table.UnlinkRule` | src/driver/linux_resource/filter.c:566-587 | the same without the rule |
| `Firewall.Table.FilterCheck` | src/driver/linux_resource/filter.c:1197-1261 | refused if and only if the first rule that matches is a drop rule; FirewallMatching says which filters those are, bit by bit |
| `Firewall.MacMatch` | src/driver/linux_resource/filter.c:1174-1195 | counting bytes that agree under the mask decides whether all do |
| `FirewallMatching.RangeRuleExactly` | src/driver/linux_resource/filter.c:1149-1172 | a drop rule for addresses and ports refuses exactly the filters of its protocol with local port in the local range, remote port in the remote range, addresses that are zero or agree at every bit of their masks, and a vlan that fits |
| `FirewallMatching.MacRuleExactly` | src/driver/linux_resource/filter.c:1174-1195 | a drop rule for hardware addresses refuses exactly the filters for those that agree at every bit of the mask, with a vlan that fits |
| `FirewallMatching.FirstDecides` | src/driver/linux_resource/filter.c:1197-1261 | a rule decides about the filters it would refuse alone as a drop rule, and the rules after it about the others; no rules refuse nothing |
| `FirewallMatching.OpenFieldsIgnored` | src/driver/linux_resource/filter.c:1149-1172 | under a full port range that port does not matter, under an empty mask that address does not |
| `Firewall.InsertMeans` | src/driver/linux_resource/filter.c:811-853 | where a rule added at any position goes |
| `FirewallRoundTrip.AddPrinted` | src/driver/linux_resource/filter.c:1626-1652 | a printed rule is added at the position printed |
| `FirewallNotation.ActionWord` | src/driver/linux_resource/filter.c:1309-1338 | the five words for actions and the action each gives |
| `FirewallNotation.OtherAction` | src/driver/linux_resource/filter.c:1309-1338 | any other word ends the rule |
| `FirewallNotation.WholeAddress` | src/driver/linux_resource/filter.c:351-371 | an address without a mask is matched in all its bits |
| `FirewallNotation.WholeMac` | src/driver/linux_resource/filter.c:399-416 | so is a hardware address |
| `FirewallNotation.PrefixMask` | src/driver/linux_resource/filter.c:351-371 | a mask given as a length has exactly that many top bits, and is refused beyond 32 |
| `FirewallNotation.MacPrefixExactly` | src/driver/linux_resource/filter.c:399-416 | a hardware mask given as a length, which is read in hexadecimal, has that many top bits if and only if the length is above 40, because the rest of the mask stays full; beyond 48 it is refused |
| `FirewallNotation.SinglePort` | src/driver/linux_resource/filter.c:285-297 | a single port is a range of one |
| `FirewallNotation.ColonPorts` | src/driver/linux_resource/filter.c:285-297 | a colon does for a dash |
| `FirewallNotation.WantingGivesNone` | src/driver/linux_resource/filter.c:1473-1545 | a text without an interface, an action, a protocol or anything to match gives no rule, whatever else it says |
| `FirewallNotation.RepeatedEnds` | src/driver/linux_resource/filter.c:1473-1545 | an interface, action, protocol or number may not come twice |
| `Arith.AndBits` | src/driver/linux_resource/filter.c:1125-1136 | the bits of an and, of which the address and byte matches are made, are those that both sides have |
| `Memreg.Layout` | src/driver/linux_char/efch_memreg.c:184-304 | every block's pages are physically consecutive from the recorded address; the order is the largest that the pages and both ends of the region allow; every pinned page is in a block, and the blocks reach the end of the region, if and only if both ends of the region are ends of pages; the blocks have as many bytes as the region if and only if both ends lie at the same place of their pages; all of that always for 4096-byte pages; fails exactly for empty or unaligned regions |
| `Memreg.CompoundOrder` | src/driver/linux_char/efch_memreg.c:260-267 | despite skipping tail pages and the early exit, the order is the largest for which every block starts with a page whose compound page and address allow it |
| `Memreg.BlockAddresses` | src/driver/linux_char/efch_memreg.c:296-304 | the address of block j is that of page j * 2^order |
| `Memreg.FfsAligned` | src/driver/linux_char/efch_memreg.c:155-158 | an order is allowed by an address if and only if its page number is a multiple of 2^order |
| `Memreg.BlockConsecutive` | src/driver/linux_char/efch_memreg.c:260-266 | pages from an aligned page on follow one another as far as its order goes |
| `Memreg.Tiles` | src/driver/linux_char/efch_memreg.c:279-288 | the exact condition for the blocks to have as many bytes as the region |
| `Memreg.CoversExactly` | src/driver/linux_char/efch_memreg.c:222-288 | the blocks have as many pages as the region touches, and reach its end, if and only if both its ends are ends of pages |
| `Memreg.EveryPageExactly` | src/driver/linux_char/efch_memreg.c:260-304 | every pinned page is in a block, at its place, if and only if the blocks have as many pages as were pinned |
| `Memreg.Fits` | src/driver/linux_char/efch_memreg.c:222-224 | the blocks do not go past the pinned pages |
| `FilterIds.AddedIdIsFree` | src/driver/linux_char/filter_list.c:126-154 | after any run of adds and deletes, across wraps: the number given is in 1..INT_MAX-1 and unused, and adding fails only if all of those are in use |
| `FilterIds.SearchFinds` | src/driver/linux_char/filter_list.c:126-154 | the search gives the first free number going round from the next one, and none only if there is none |
| `FilterIds.StepKeepsInv` | src/driver/linux_char/filter_list.c:126-415 | adding and deleting keep numbers distinct, in range and, before the first wrap, below the next one |
| `FilterIds.AddedComesAfter` | src/driver/linux_char/filter_list.c:126-154 | the search for the next number starts after the last one given, and deleting a filter undoes adding it |
| `FilterIds.FilterList.GenId` | src/driver/linux_char/filter_list.c:126-154 | the loop terminates and computes that search, resetting and setting next_id and wrapped as written |
| `FilterIds.FilterList.AddFilter` | src/driver/linux_char/filter_list.c:248-254 | numbering and listing a filter is one step of the runs |
| `FilterIds.FilterList.DeleteFilter` | src/driver/linux_char/filter_list.c:393-415 | removes the first filter with the number; found exactly if there is one |
| `Sfcmask.HexRoundTrip` | scripts/sfcmask.py:141-155 | to_int of the hexadecimal form gives back every mask |
| `Sfcmask.ListRoundTripBelow` | scripts/sfcmask.py:141-159 | to_int of the list form gives back every non-zero mask below 2^1000 |
| `Sfcmask.ListRoundTripExactly` | scripts/sfcmask.py:43-66 | every non-zero mask comes back from its list form if and only if none of its pieces is longer than seven characters |
| `Sfcmask.ZeroIsNoList` | scripts/sfcmask.py:58-66 | the list form of the empty set is refused |
| `Sfcmask.RunsCover` | scripts/sfcmask.py:105-125 | the runs written cover exactly the bits of the mask |
| `Sfcmask.RunsSeparated` | scripts/sfcmask.py:105-125 | they ascend, with a gap between one and the next |
| `Sfcmask.RunsMaximal` | scripts/sfcmask.py:105-125 | each is as long as it can be |
| `Sfcmask.RunsRoundTrip` | scripts/sfcmask.py:92-125 | setting the bits of the runs gives the mask back |
| `SfcmaskLoops.IntToCommaSepList` | scripts/sfcmask.py:105-125 | the loop that clears bits writes the list form and stops |
| `SfcmaskLoops.CommaSepListToInt` | scripts/sfcmask.py:92-102 | the loops over pieces and bits read it |
| `SfcmaskLoops.IntToCommaSepHex` | scripts/sfcmask.py:128-138 | the loop over words writes the hexadecimal form, highest first |
| `SfcmaskLoops.CommaSepHexToInt` | scripts/sfcmask.py:83-89 | the loop that shifts and ors in each piece, of any size, reads it |
| `Sfcmask.SetBitSets` | scripts/sfcmask.py:92-102 | setting a bit sets that bit and no other |
| `Sfcmask.ClearBitClears` | scripts/sfcmask.py:105-125 | clearing a bit clears that bit and no other |
| `Sfcmask.ShiftUpMoves` | scripts/sfcmask.py:83-89 | shifting moves every bit up by so many places |
| `Arith.OrBits` | scripts/sfcmask.py:83-89 | the bits of an or are those that either side has |
| `Sfcmask.MaskOfCovers` | scripts/sfcmask.py:92-102 | a bit is in the mask read from any pieces exactly if a piece covers it |
| `Timesync.TimeSync.Update` | src/driver/linux_onload/timesync.c:158-265 | over any history: the window invariant is kept; a reading is used as ElapsedNs says; from the second sample on the estimate is that of the current window; the generation count is odd during and even, non-zero and changed after every update, wrap included; completion is signalled only from the second sample on; nothing changes when no update is due |
| `Timesync.TimeSync.UseSample` | src/driver/linux_onload/timesync.c:222-237 | the in-place ring update keeps the smoothed sums equal to the sums of the last 16 samples (ticks modulo 2^64) |
| `Timesync.TimeSync.DivisionSafe` | src/driver/linux_onload/timesync.c:63-72 | once a sample is used, smoothed nanoseconds are positive and at most 16 times ten seconds |
| `Timesync.TimeSync.StabilizeCpuKhz` | src/driver/linux_onload/timesync.c:53-86 | first sample only counted, second completes; from then on the estimate is the true ratio if and only if the product is below 2^64 and the ratio below 2^32, and else the truncated quotient of the wrapped product |
| `Timesync.RatioExactly` | src/driver/linux_onload/timesync.c:63-72 | a wrapped product divided and cut to a word is the ratio if and only if neither is cut short |
| `Timesync.ElapsedExactly` | src/driver/linux_onload/timesync.c:184-217 | a reading is used if and only if the clock went forward by at most ten seconds, and its nanoseconds are that difference |
| `Timesync.WindowSlides` | src/driver/linux_onload/timesync.c:228-234 | adding the new and subtracting the leaving sample moves the window by one |
| `Timesync.SlotLeaving` | src/driver/linux_onload/timesync.c:228-236 | the slot overwritten holds the sample that leaves the window |

## Left out

- Wakeup.NoLostWakeup: for runs in which applications join in time and the handler never disarms one between its exchange and its increment, because the promise is false without either (Wakeup.NoAppExactly, Wakeup.OneAppExactly).
- Wakeup.NoLostWakeupOneApp: for runs in which the application joins in time, because the promise is false without that (Wakeup.TimelyExactly, Wakeup.NoAppExactly).
- Wakeup.NoLostWakeupAtomicArming: for runs in which applications join in time, for the same reason.
- SuperbufInvariants.SkippedWereEnded: for applications that lag by less than 2^32 positions only, because further lag cannot be told from none by 32-bit counters.
- SuperbufInvariants.NoGaps: for applications that were never posted to so far behind, for the same reason.
- Gcov34.StoreDaFile: when a section size wraps, says what a read from the announced size on gives and not what earlier reads give.
- FirewallRoundTrip.RoundTrip: for at most 2^31 rules, the positions a printed `int` can name.
- Gcov33Reading.FileReadsBack: for units whose numbers leave the sign bit of their bytes alone, because others do not survive (Gcov33.StoredExactly).
- Gcov34Reading.FileReadsBack: for sections whose length fits its word; it gives counters as stored, without the bits that Gcov34.Int64Exactly says are lost.
- FirewallNotation.PrefixMask: for the first address of its kind in a rule, because filling does not clear what an earlier one left.
- WakeupRequests.EventAnswers: with no request in progress, because requests in progress may arm and disarm while the handler runs.
- Memreg.Layout: addresses are unbounded, so the wrap of a region past the end of the address space is not modelled; the pages are given.
- Timesync.TimeSync.Update: clock readings are within the 32-bit seconds the structure stores; the wall clock and the period of updates are not modelled.
- ioctl, mmap, /proc, locking, allocation failures, copy failures, logging and hardware calls are absent or parameters.
- Statistics counters of the receive queues, and memory barriers beyond sequential consistency, are not modelled.
- AppLists.Lists: the compare-and-swap and exchange on the heads of the lists are single steps; SuperbufQueue.RxQueue keeps the same lists as sequences.
- Reset, hugepage provision and probing in aux_efct.c would only add easy members.
- Forwarding requests, MIB access and the spawning of servers in cplane.c are not modelled; whether servers are spawned is a parameter.
- The vmlinux file, file creation and names in gcov.c, and cleanup_node_and_path, are not modelled; pointers of freed nodes are simply no longer part of the tree.
- Interface tables, device names, net namespaces and the deletion file of filter.c are reduced to a map from interface name to rules; rule types other than the two in use are not modelled; remove_all_rules_from_table would only add an easy member.
- Python's int() is modelled on digits, with an optional prefix in base 16; signs, spaces and underscores are errors in the model.
- is_int_list, int_list_to_int and to_int_list of sfcmask.py would only add easy members.
- efch_filter_list_add_block and the hardware side of filters are not modelled; a filter is its number.
