# Verified models of Davide Libenzi's small C programs

A Dafny 4.11 model of seven programs of the repository, with proofs of what they promise:

- `RbTree.dfy`, `CfsQueue.dfy` — the pointer-based red-black tree of `smart-queue.c` and the CFS run queue on it. Nodes
  are heap objects with `left`, `right`, `parent` and colour, rewritten in place as in the source. The proof keeps four
  ghost numbers per node (the range of in-order positions its subtree covers, its own position, its black height), so
  that every invariant speaks of a node and its neighbours only; `ValidMeans` shows that together they are the usual
  recursive definitions. Mirror branches of the source are one method with a side parameter.
- `Bits.dfy`, `RingSpec.dfy`, `RingOrder.dfy`, `RingGaps.dfy`, `TimedRing.dfy` — the timed ring of `smart-queue.c`:
  doubly linked slot lists, occupancy bitmap, base slot and base time. The class, and every run of it, is proved against
  the functions of `RingSpec`, in 64-bit and 32-bit arithmetic as in the source; `RingOrder` proves in what order these
  return tasks and under which conditions, and `RingGaps` shows runs outside the conditions. Words of the bitmap are
  natural numbers with bit operators defined bit by bit.
- `RingWalk.dfy`, `Runs.dfy`, `TicketLock.dfy`, `SpinLock.dfy` — the locks of `qspins.c`: a step system whose steps are
  the atomic instructions, for any number of threads walking the ring of locks and any schedule. A log of lock
  operations, which no step reads, states what the locks did, and is tied to the threads' program counters.
- `SessionQueue.dfy`, `SessionProgress.dfy` — the per-CPU session queue of `thrplhttp.c`: one acceptor, any number of
  service threads, every statement a step, any interleaving, spurious wakeups, and the stop flag set at any moment. An
  observer, whom no step reads, notes the sessions accepted, written, read and served.
- `SmsPdu.dfy` — the SMS encoder of `xgsm.c` and a parser from the standard that inverts it.
- `BinPatch.dfy`, `MemIsZero.dfy`, `LineReader.dfy` — the search and copy loops of `binpatch.c`, the zero tests of
  `memiszero.c`, and the buffered stream of `thrhttp.c` over a connection that cuts its bytes into chunks of any size.

`dafny verify dfyconfig.toml` checks everything.

What the proofs brought out about `xgsm_get_vt`: between 24 and a half hours and 2 days, between 31 days and 5 weeks, and
from 64 weeks on its code stands for another period or for none; `ValidityIsRight` says that these are all such periods.
The one day it is called with is right.

What they brought out about the timed ring:

- `tr_dequeue` can return NULL while a task is waiting, because `rel_ffs` masks the low bits of its first word and never
  comes back to them: `NullWithATaskWaiting` is a run that does this, and `NullExactlyBeyondHorizon` says exactly when it
  happens. A caller rules it out by a check before each `tr_queue`: the task's time must be less than
  `MAX_RQ - ibase % BITS_X_LONG` slots after the base time (`QueueKeepsReach`, an if and only if); 193 slots are always
  safe (`SafeWindow`). Then NULL means empty (`CarefulRuns`).
- The order needs two more conditions, also exact for each operation (`QueueKeepsTimed`): a task is not before the base
  time, and a base time of 0, which counts as unset, is not seeded under waiting tasks. `LateTaskIsServedLast` and
  `ReseedServesLaterFirst` are families of runs that break them and return tasks out of order, and
  `FarTaskCanBeServedFirst` does so with a time 2^32 slots ahead.
- NULL from an empty ring resets the base time, so the order holds between two NULLs, and the first-in-first-out order of
  equal times also across them.

## Model

| member | source | states |
|---|---|---|
| RbTree.Tree.ValidMeans | smart-queue.c:113-143 | the neighbour-wise invariant means: reading the tree in order gives `order`, all paths from the root have equally many black nodes, no red node has a red child |
| RbTree.Tree.SubtreeInOrder | smart-queue.c:113-126 | the in-order reading of any subtree is the slice of `order` its ghost range names |
| RbTree.Tree.SubtreeBalanced | smart-queue.c:113-143 | every path below a node has its ghost black height, and no two red nodes in a row |
| RbTree.Tree.RotateLinksLeft | smart-queue.c:174-195 | exactly which links a left rotation rewrites, and to what; nothing else changes |
| RbTree.Tree.RotateLinksRight | smart-queue.c:197-218 | the same for a right rotation |
| RbTree.Tree.Rotate | smart-queue.c:174-218 | a rotation keeps parent and child links in agreement and the in-order sequence unchanged, and says for each node where it ends up |
| RbTree.Tree.Recolour | smart-queue.c:231-240 | red uncle: black heights stay equal and the only possible red-red edge moves to the grandparent, whose subtree is larger |
| RbTree.Tree.InnerOk | smart-queue.c:242-249 | rotating the red node above its red parent moves the red-red edge to the old parent and keeps black heights |
| RbTree.Tree.Pivot | smart-queue.c:251-253 | the last rotation of an insertion leaves no red-red edge, equal black heights and a black root |
| RbTree.Tree.InsertRound | smart-queue.c:228-279 | one round keeps "all invariants but a red-red edge at the node", and if the loop goes on the node's subtree has grown |
| RbTree.Tree.InsertColor | smart-queue.c:220-283 | terminates and restores equal black heights, no red-red edge and a black root; the in-order sequence is unchanged |
| RbTree.Tree.LinkNode | smart-queue.c:165-172 | a red leaf on the given link, nothing else changed |
| RbTree.Tree.LinkLeaf | smart-queue.c:165-172 | the in-order sequence is the old one with the node inserted at the link's position, links agree, and only a red-red edge at the node is possible |
| RbTree.Tree.Insert | smart-queue.c:165-283 | linking and recolouring gives a valid red-black tree whose in-order sequence has the node inserted at the link's position |
| RbTree.Tree.RedSibling | smart-queue.c:293-300 | red sibling: after recolouring and rotating, one black node is still missing at the same link, the sibling is black, and the subtree at the link has not changed size |
| RbTree.Tree.RedderSibling | smart-queue.c:301-307 | black sibling with black children: the missing black node moves up to the parent's link |
| RbTree.Tree.NearNephew | smart-queue.c:310-318 | only the near nephew red: after the rotation the far nephew is red, and the deficit is where it was |
| RbTree.Tree.FarNephew | smart-queue.c:319-325 | red far nephew: after the rotation no black node is missing anywhere, no red-red edge, black root |
| RbTree.Tree.EraseRound | smart-queue.c:291-364 | one round ends the repair or moves the deficit to a link with a strictly larger subtree, also after a red-sibling rotation |
| RbTree.Tree.EraseColor | smart-queue.c:284-368 | terminates and restores equal black heights, no red-red edge and a black root |
| RbTree.Tree.Splice | smart-queue.c:417-430 | taking out a node with at most one child removes exactly it from the in-order sequence; if it was black exactly one link is one black node short |
| RbTree.Tree.Successor | smart-queue.c:383-385 | the loop finds the in-order successor, which has no left child |
| RbTree.Tree.Replace | smart-queue.c:398-413 | a node takes another's place in links, colour and in-order sequence, keeping all invariants |
| RbTree.Tree.EraseInner | smart-queue.c:379-415 | erasing a node with two children removes exactly it from the in-order sequence, with at most one link a black node short |
| RbTree.Tree.Erase | smart-queue.c:370-435 | erasing any node of any valid tree terminates, keeps every red-black invariant, and the in-order sequence loses exactly that node |
| RbTree.Tree.First | smart-queue.c:439-449 | the first node of the in-order sequence, or NULL for the empty tree |
| RbTree.Tree.Last | smart-queue.c:450-460 | the last one |
| RbTree.Tree.Next | smart-queue.c:461-487 | the next node in order, NULL after the last one and for a cleared node |
| RbTree.Tree.Prev | smart-queue.c:488-510 | the previous node in order, NULL before the first one and for a cleared node |
| RbTree.Tree.NextThenPrev | smart-queue.c:461-510 | `rb_prev` undoes `rb_next` |
| RbTree.Tree.Walk | smart-queue.c:439-487 | from `rb_first`, repeating `rb_next` until NULL visits exactly the in-order sequence |
| CfsQueue.CfsRq.FindLink | smart-queue.c:557-579 | the descent ends at the free link behind all keys at most `t` and before all larger ones; the leftmost flag is kept exactly if that is the first place |
| CfsQueue.CfsRq.Queue | smart-queue.c:556-588 | the task is inserted behind all tasks of key at most `t`; tree, key order and leftmost cache stay valid |
| CfsQueue.CfsRq.FirstFair | smart-queue.c:594-599 | cached or searched, the first task in order |
| CfsQueue.CfsRq.DequeueTask | smart-queue.c:589-593 | any queued task leaves, the others keep their order, and the cached leftmost task stays absent or right |
| CfsQueue.CfsRq.Dequeue | smart-queue.c:600-609 | returns and removes the first task, or returns NULL from an empty queue |
| CfsQueue.EnqueueKeepsDue | smart-queue.c:556-588 | insertion behind equal keys keeps the queue sorted by key and arrival, and adds exactly the new entry |
| CfsQueue.DequeueKeepsDue | smart-queue.c:600-609 | the head of the queue is the entry of least key and, among those, least arrival |
| CfsQueue.Run | smart-queue.c:552-609 | every run of queue and dequeue operations returns what a set of waiting tasks returns from which each dequeue takes the least key, first come first served |
| CfsQueue.RunFromInit | smart-queue.c:552-609 | the same from `cfs_rqinit` on |
| Bits.Ffs | smart-queue.c:83-89 | the index of the lowest set bit |
| Bits.BitOfOr | smart-queue.c:77-79 | a bit of `v \| w` |
| Bits.BitOfAndNot | smart-queue.c:80-82 | a bit of `v & ~w` |
| Bits.BitOfLow | smart-queue.c:651 | the mask `(1UL << b) - 1` has exactly the bits below `b` |
| TimedRing.TrRq.SetBit | smart-queue.c:77-79 | exactly the given bit of the bitmap becomes set |
| TimedRing.TrRq.ClearBit | smart-queue.c:80-82 | exactly the given bit becomes clear |
| TimedRing.TrRq.ListAddTail | smart-queue.c:51-61 | the four links written |
| TimedRing.TrRq.ListDel | smart-queue.c:62-70 | the neighbours are joined and the entry's links cleared |
| TimedRing.TrRq.Append | smart-queue.c:693 | the slot's circular list stays well formed and gets the task at its end; all other lists are untouched |
| TimedRing.TrRq.TakeFirst | smart-queue.c:672-673 | the slot's first task leaves; all lists stay well formed |
| TimedRing.TrRq.RelFfs | smart-queue.c:645-661 | the word scan finds the non-empty slot at the least circular distance from the base within its horizon, or MAX_RQ |
| TimedRing.TrRq.Queue | smart-queue.c:683-695 | keeps lists, and bit set exactly if slot not empty; does to the ring what `RingSpec.Queue` does |
| TimedRing.TrRq.Dequeue | smart-queue.c:663-681 | the same for `RingSpec.Dequeue`; returns NULL or the task it names |
| TimedRing.Run | smart-queue.c:663-695 | every run on the linked lists and the bitmap returns the tasks, with the times, that the functions of `RingSpec` return, and leaves the ring they leave; the time that seeds the base is the one the task was queued with last |
| TimedRing.RunFromInit | smart-queue.c:635-695 | the same from `tr_rqinit` on; in a careful run the times read from the returned tasks are sorted up to NS_SLOT between two NULLs |
| RingSpec.Scan | smart-queue.c:645-661 | the result is a non-empty slot within the horizon and none such is nearer; MAX_RQ only if there is none |
| RingSpec.ScanFinds | smart-queue.c:645-661 | any slot with those properties is the result |
| RingSpec.NullExactlyBeyondHorizon | smart-queue.c:667-671 | NULL is returned if and only if every non-empty slot is at distance at least MAX_RQ - ibase % BITS_X_LONG |
| RingSpec.BaseMoves | smart-queue.c:663-695 | from any ring: a queue operation sets the base time only if it is 0, to the task's old time; a returned task makes its slot the base slot and moves the base time by 5000000 for each slot in between, modulo 2^64; NULL sets the base time to 0 and changes nothing else |
| RingGaps.NullWithATaskWaiting | smart-queue.c:663-671 | a run after which NULL is returned and the base time reset although a task waits |
| RingGaps.MissedExactlyBeyondHorizon | smart-queue.c:645-695 | a task queued alone is missed by the next dequeue if and only if its slot is at distance at least MAX_RQ - ibase % BITS_X_LONG |
| RingOrder.QueuedInTime | smart-queue.c:689-691 | for a time not before the base, the chosen slot starts at or before it, and ends after it if and only if it is less than 256 slots of 5000000 ahead; up to 2^32 slots ahead, all later times get the last slot |
| RingOrder.QueueKeepsTimed | smart-queue.c:683-695 | every task stays at or after the start of its slot, and near ones before its end, if and only if the new task is not before the base and seeding the base leaves the waiting ones in their slots |
| RingOrder.DequeueKeepsTimed | smart-queue.c:663-681 | the same across the moving base, and across NULL from an empty ring; the base time does not wrap, and a returned near task is less than NS_SLOT later than every task left in the ring |
| RingOrder.RunKeepsTimed | smart-queue.c:663-695 | so over every run of punctual tasks whose dequeues return NULL only from an empty ring |
| RingOrder.RunKeepsEpoch | smart-queue.c:663-695 | over such a run on a set base, up to the next NULL, the slots keep their times: base slots and base times lie on one grid |
| RingOrder.NearTasksByTheClock | smart-queue.c:683-695 | on that grid a near task is in the slot that its time alone names |
| RingOrder.OutsAreNearlySorted | smart-queue.c:663-695 | over any such run, a near task is less than NS_SLOT later than any task returned after it before the next NULL, also tasks queued in between |
| RingOrder.StepKeepsFifo | smart-queue.c:663-695 | in every slot tasks stand in the order of queueing |
| RingOrder.EqualTimesAreFifo | smart-queue.c:663-695 | over any such run, also across NULLs, near tasks of equal time are returned in the order in which they were queued |
| RingOrder.NullOnlyWhenEmpty | smart-queue.c:667-671 | with all tasks in reach of the scan, NULL is returned if and only if the ring is empty |
| RingOrder.QueueKeepsReach | smart-queue.c:683-695 | a task not before the base keeps the ring in reach if and only if its time is less than MAX_RQ - ibase % BITS_X_LONG slots after the base |
| RingOrder.DequeueKeepsReach | smart-queue.c:645-681 | a dequeue keeps all tasks in reach, though the horizon moves with the base |
| RingOrder.CarefulRuns | smart-queue.c:663-695 | if every queue operation of a run meets these conditions, NULL is returned only from an empty ring throughout |
| RingOrder.SafeWindow | smart-queue.c:645-661 | 193 slots are in reach of every base slot, and no more of some |
| RingOrder.CarefulRunsAreNearlySorted | smart-queue.c:635-695 | the same, and first in first out among equal times, for all tasks of a run whose queue operations a caller has checked beforehand |
| RingSpec.StepConserves | smart-queue.c:663-695 | one operation adds exactly the queued task or removes exactly the returned one |
| RingSpec.RunConserves | smart-queue.c:663-695 | tasks at the start and queued are, as multisets, the tasks returned and left |
| RingGaps.LateTaskGoesLast | smart-queue.c:689-691 | a task before the base time, by up to 2^31 slots, goes to the farthest slot |
| RingGaps.AheadWraps | smart-queue.c:689-691 | a time before the base is treated as one nearly 2^64 ahead, and slots repeat every 2^32 |
| RingGaps.TwoTasks | smart-queue.c:663-695 | two tasks queued into an empty ring are returned in the order of the slots chosen for them |
| RingGaps.LateTaskIsServedLast | smart-queue.c:663-695 | so every late task is returned after any task on time, however much later that is due |
| RingGaps.ReseedServesLaterFirst | smart-queue.c:686-687 | a near task that seeds a base time of 0 while another waits is returned first, although due at least a slot later |
| RingGaps.FarTaskCanBeServedFirst | smart-queue.c:689-691 | a steady run in which a task 2^32 slots ahead is returned before one due now |
| RingWalk.AdvancedIsOnTrack | qspins.c:175-176 | the index increment is one hop round the ring |
| RingWalk.AcquiredIsOnTrack | qspins.c:171-181 | the loop counters count the hops |
| TicketLock.OpenTickets | qspins.c:95-107 | at most as many tickets of a lock are open as there are threads |
| TicketLock.SpinTestIsExact | qspins.c:100 | the 16-bit comparison succeeds exactly for the ticket number next in line on a free lock |
| TicketLock.StepKeepsInv | qspins.c:95-107 | every instruction of every thread keeps: counters are residues of the ticket numbers, open tickets belong to threads at the lock, owners are those granted |
| TicketLock.EveryRunIsFifoAndExclusive | qspins.c:95-107 | for up to 65536 threads and every schedule: grants follow ticket order, releases follow grants, at most one grant open; a thread is at a program point that owns a lock if and only if the log says so, no two threads own the same lock, no thread holds two |
| TicketLock.SomeThreadMoves | qspins.c:161-185 | with `go` set and a thread unfinished, the holder or the next in line of some lock can move |
| TicketLock.EveryRunCanGoOn | qspins.c:161-185 | in every run with `go` set and a thread unfinished some thread can do more than spin |
| TicketLock.MovesAreBounded | qspins.c:161-185 | no schedule has more non-spinning steps than the threads have work, and it has as many if and only if it ends with all threads finished |
| TicketLock.EveryRunCanFinish | qspins.c:161-185 | every run can be continued, with as many steps as there is work left, so that all threads finish |
| TicketLock.NobodyStartsBeforeGo | qspins.c:161-169 | in every run, until `go` is set, each thread takes or holds its own lock and no lock is released |
| TicketLock.EveryThreadWalksTheRing | qspins.c:161-185 | each thread is at the lock its hops lead to; a finished one has made 32 * 100 of them |
| SpinLock.WordInRange | qspins.c:114-128 | the word is one minus the decrements since the last release, hence between 1 - N and 1 |
| SpinLock.SignTestIsExact | qspins.c:114-124 | the decrement succeeds, and the spin ends, exactly when the lock is free |
| SpinLock.DecrementIsExact | qspins.c:114-124 | a thread that decrements has not done so since the last release, and gets the lock exactly if it is free |
| SpinLock.StepKeepsInv | qspins.c:114-128 | every instruction of every thread keeps these facts |
| SpinLock.EveryRunIsExclusiveAndInRange | qspins.c:109-128 | for up to 2^31 threads and every schedule: grants and releases alternate, the word stays in range; a thread is at a program point that owns a lock if and only if the log says so, no two threads own the same lock, no thread holds two |
| SpinLock.SomeThreadMoves | qspins.c:187-211 | with `go` set and a thread unfinished, some thread can do more than spin |
| SpinLock.EveryRunCanGoOn | qspins.c:187-211 | the same in every run |
| SpinLock.EveryRunCanFinish | qspins.c:187-211 | every run can be continued, with at most as many steps as there is work left, so that all threads finish |
| SpinLock.NobodyStartsBeforeGo | qspins.c:187-195 | in every run, until `go` is set, each thread takes or holds its own lock and no lock is released |
| SpinLock.EveryThreadWalksTheRing | qspins.c:187-211 | each thread is at the lock its hops lead to; a finished one has made 32 * 100 of them |
| SessionQueue.AccPutsInRing | thrplhttp.c:579-582 | each statement of the enqueue keeps the ring equal to what was written and not yet read, counting the statements under way |
| SessionQueue.SvcTakesFromRing | thrplhttp.c:559-562 | the same for each statement of the dequeue |
| SessionQueue.AccKeepsSafe | thrplhttp.c:571-586 | every acceptor step keeps mutual exclusion and the ring |
| SessionQueue.SvcKeepsSafe | thrplhttp.c:552-569 | every service step does |
| SessionQueue.AccKeepsAwake | thrplhttp.c:571-586 | every acceptor step keeps: while service threads are blocked each session has a thread coming or its signal pending; a blocked acceptor means a full queue or a pending signal |
| SessionQueue.SvcKeepsAwake | thrplhttp.c:552-569 | every service step does |
| SessionQueue.SvcKeepsServed | thrplhttp.c:552-569 | every service step keeps: a thread that has a session has the last one it read |
| SessionQueue.AccKeepsLossless | thrplhttp.c:571-586 | every acceptor step keeps: the sessions accepted are those written to the ring and the one under way; only after the stop flag is set can one be missing |
| SessionQueue.SvcKeepsTended | thrplhttp.c:552-569 | every service step keeps: a thread has read as many sessions as it has served and one more if it has one, and does not end before the stop flag is set |
| SessionQueue.StepKeepsInv | thrplhttp.c:552-623 | so do spurious wakeups and the stop signal |
| SessionQueue.EveryRunKeepsTheRing | thrplhttp.c:552-586 | in every run, with the mutex free: count in range, `wqpos == (rqpos + qcount) % qsize`, and sessions written are those read followed by those in the ring |
| SessionQueue.EveryRunQueuesWhatItAccepts | thrplhttp.c:571-586 | in every run the sessions accepted are written to the ring in order; without the stop flag none is dropped |
| SessionQueue.EveryRunGoesOn | thrplhttp.c:610-623 | in every run not stopped no service thread ends or has taken -1 from the queue; each has served all it has read but the one it has |
| SessionQueue.EveryRunServesEachOnce | thrplhttp.c:552-586 | in every run a thread that has a session has the last one it read, which no other thread has read |
| SessionQueue.EveryRunLosesNoWakeup | thrplhttp.c:552-586 | in every run not stopped, with the mutex free: a blocked service thread means `qcount` is at most the number of woken ones, a blocked acceptor means a full queue |
| SessionQueue.NeverAllBlocked | thrplhttp.c:552-586 | with `qsize > 0` the acceptor and all service threads are never blocked together |
| SessionProgress.AcceptorTurns | thrplhttp.c:571-586 | a session is dropped only if the stop flag is set and the queue full; the acceptor ends only if the flag is set or no session comes, and does not begin to wait once it is set |
| SessionProgress.ServiceTurns | thrplhttp.c:552-569 | a thread turns away only from an empty queue with the stop flag set, ends only then, and does not begin to wait once it is set |
| SessionProgress.QuietMeansServed | thrplhttp.c:552-623 | if no thread can go on by itself and the stop flag is not set, every accepted session has been read and served and all service threads wait |
| SessionProgress.EveryQuietRunHasServedAll | thrplhttp.c:552-623 | the same in every run |
| SessionProgress.StepUsesWork | thrplhttp.c:552-623 | every step on which a thread goes on uses up work, wakeups included, until the next session is accepted |
| SessionProgress.MovesAreBounded | thrplhttp.c:552-623 | so no schedule lets threads go on more often than there is work |
| SessionProgress.EveryRunCanServeAll | thrplhttp.c:552-623 | every run not stopped can go on, without help from outside, until all sessions accepted so far are served |
| SmsPdu.PackRound | xgsm.c:111-122 | after `i` characters the octets hold them and `i % 8` bits of the next one |
| SmsPdu.Pack7 | xgsm.c:105-126 | NULL exactly for characters beyond 7 bits; otherwise ceil(7 * len / 8) octets with the message's base-128 value in base 256 |
| SmsPdu.UserDataRoundTrip | xgsm.c:105-126 | unpacking with the known length restores the message (section 6.1.2.1 of 3GPP TS 23.038) |
| SmsPdu.CodeNumber | xgsm.c:42-71 | NULL exactly for non-digits; otherwise the semi-octets of the number |
| SmsPdu.SemiOctetsRoundTrip | xgsm.c:42-71 | reading the semi-octets gives the number back (section 9.1.2.3 of 3GPP TS 23.040) |
| SmsPdu.ValidityIsRight | xgsm.c:128-139 | the validity code stands for the period given, up to a step of its scale, if and only if the period is below 1470 minutes, from 2880 to below 44640, or from 50400 to below 645120 (section 9.2.3.12.1 of 3GPP TS 23.040) |
| SmsPdu.CreatePdu | xgsm.c:141-202 | when the result is NULL, undefined or a unit; its layout; it fits the allocated buffer |
| SmsPdu.PduRoundTrip | xgsm.c:141-202 | the parser, which accepts only the 7-bit coding scheme, recovers service centre, recipient, types, validity and message (sections 9.1.2.5 and 9.2.2.2 of 3GPP TS 23.040) |
| SmsPdu.WrittenRoundTrip | xgsm.c:141-202 | in raw characters: digits alone come back with type 129, digits behind a plus sign with type 145, for both numbers; reference, protocol and coding scheme are 0 and the validity code is 167, which stands for a day |
| SmsPdu.HexData | xgsm.c:204-216 | two digits per octet, high half first, of 0 to 9 and lower-case a to f |
| SmsPdu.HexRoundTrip | xgsm.c:204-216 | reading the digits gives the octets back |
| SmsPdu.HexDigitsAre | xgsm.c:204-216 | the digits written are those 16, and reading takes these and the upper-case ones only |
| SmsPdu.LengthIsThatOfTheTpdu | xgsm.c:482-489 | the announced length is the number of octets after the service-centre field (section 4.3 of 3GPP TS 27.005) |
| SmsPdu.LengthOfOthers | xgsm.c:482-489 | -1 without a hexadecimal digit in front; a single digit counts as a number of its own |
| SmsPdu.CreateHexPdu | xgsm.c:218-229 | NULL exactly if a number is not digits, alone or behind a plus sign; otherwise what is written to the modem, read as hexadecimal digits and parsed, gives the numbers as written, type 129 or 145, the code of a day and the message; the announced length is that of what follows the service centre |
| BinPatch.Search | binpatch.c:76-92 | terminates although it seeks back, and records exactly what trying every position finds |
| BinPatch.FindIsSpaced | binpatch.c:76-92 | these are occurrences, ascending, not overlapping, at most the limit |
| BinPatch.FindIsComplete | binpatch.c:76-92 | every other occurrence starts inside a recorded one, or behind all 32 |
| BinPatch.Copy | binpatch.c:103-115 | same length, exactly the recorded ranges replaced by the patch |
| BinPatch.PatchFile | binpatch.c:66-119 | search and copy together; different lengths are refused |
| MemIsZero.MemIsZeroLoop | memiszero.c:130-138 | true exactly for all zero bytes |
| MemIsZero.OrBytes | memiszero.c:56-73 | a fall-through of `k` labels reads `k` bytes inside the block and leaves zero exactly if all were zero |
| MemIsZero.WordsAreZero | memiszero.c:74-76 | the word loop: true exactly for all zero bytes up to its end, with aligned loads only |
| MemIsZero.MemIsZero64 | memiszero.c:48-95 | the same result for every block at every address, all loads inside the block and all word loads aligned |
| MemIsZero.MemIsZero32 | memiszero.c:97-128 | the same |
| LineReader.BStream.Refil | thrhttp.c:83-89 | the buffer holds a first piece of what the connection delivers, bytes still in it are dropped, and none are lost if it was exhausted; 0 exactly at the end |
| LineReader.BStream.ReadSome | thrhttp.c:91-104 | a first piece of the pending bytes, empty only at the end or if none was asked for |
| LineReader.BStream.Read | thrhttp.c:106-118 | exactly `n` bytes or all that are left |
| LineReader.BStream.ReadLn | thrhttp.c:120-151 | the pending bytes up to the first newline, or all of them; NULL exactly at the end |
| LineReader.Run | thrhttp.c:83-151 | any mix of reads returns what it would on the uncut stream, for every chunking |
| LineReader.ResultsAreConsecutive | thrhttp.c:83-151 | these are consecutive pieces of the stream |
| LineReader.ReadAllLines | thrhttp.c:120-151 | repeated line reads give the stream split behind each newline, for every chunking |
| LineReader.LinesCutTheStream | thrhttp.c:120-151 | the lines join to the stream, and all but the last end in their only newline |

## Left out

- `cfs_test`, `tr_test`, cycle counting, averages and sorting of samples: benchmarks without a functional claim.
- `rb_replace_node` as a public operation: nothing calls it; putting a successor in a node's place is part of `Erase`.
- RbTree.Tree.LinkNode: the link pointer of the source is a parent and a side, since the model has no pointers to fields.
- TimedRing: list_entry and rb_entry are the identity, a task and its link being one object; BITS_X_LONG is 64.
- RingOrder.OutsAreNearlySorted: its condition is exact for each operation, not for a run as a whole, since a run outside
  it may still return its tasks in order.
- CPU affinity, scheduling priorities, `cpu_relax` and weak memory ordering in `qspins.c`: each instruction is one
  sequentially consistent step.
- SpinLock: no bound on the number of failed decrements, since the lock is not fair.
- SessionQueue: the separate critical section that counts connections, what a session does while it is served, and
  liveness after the stop flag is set, when a session may be dropped and the acceptor is not woken.
- SessionQueue: a signal wakes one thread; more are covered by spurious wakeups.
- Memory allocation failure in all programs; `recv` errors in `thrhttp.c`, which the source stores in an unsigned count.
- `bstream_readln` of `thrplhttp.c`, which refills only once.
- SmsPdu: modem input and output, and time stamps; `xgsm_get_vt` of negative periods; `sscanf` is modelled on strings
  that do not start with blanks, a sign or `0x`.
- BinPatch.Search: an empty pattern, for which the source compares with an uninitialised byte.
- MemIsZero: the accumulator is as wide as a byte, which is all that its value ever needs; blocks that wrap around the
  address space.
- HTTP parsing, file sending, sockets and threads of the servers, argument parsing, and the remaining programs of the
  repository, which are wrappers over system calls and libraries.
