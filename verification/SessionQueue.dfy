/** The per-CPU session queue of thrplhttp.c: one acceptor and any number of service threads sharing a bounded ring
    under one mutex and two condition variables.  Every statement between the mutex operations is a step of its own,
    threads interleave arbitrarily, waits may end spuriously, and the stop flag may be set at any moment. */
module SessionQueue {
  import opened Runs

  /** Where the acceptor is: `queue_client_session`, called from the loop of `acceptor_thproc`. */
  datatype APc =
    | APoll | ALock | ATest | AIncWait | AWait | ABlocked | AWoken | ADecWait
    | ACheck | AInc | AWrite | AAdvance | ASignal | AUnlock | ADone

  /** Where a service thread is: `dequeue_client_session`, called from the loop of `service_thproc`. */
  datatype SPc =
    | SLock | STest | SWait | SBlocked | SWoken
    | SCheck | SRead | SAdvance(cfd: int) | SDec(cfd: int) | SSignal(cfd: int) | SUnlock(cfd: int)
    | SServe(cfd: int) | SDone

  datatype Owner = Free | Acceptor | Service(i: nat)

  /** The context, the threads, and what an observer notes, which no step reads: the sessions accepted, those written to
      and read from the ring, who read them, and who has finished serving one. */
  datatype State = State(
    qsize: nat, squeue: seq<int>, rqpos: nat, wqpos: nat, qcount: int, qwait: int, stop: bool,
    owner: Owner, acc: APc, acfd: int, svc: seq<SPc>,
    accepted: seq<int>, enq: seq<int>, deq: seq<int>, taker: seq<nat>, served: seq<nat>)

  /** A scheduling choice.  `Acc(x)` is a step of the acceptor, `x` being the accepted session, or the service thread
      that a signal wakes; `Svc(i)` a step of a service thread; the others are spurious wakeups and the stop signal. */
  datatype Action = Acc(x: int) | Svc(i: nat) | SpuriousAcc | SpuriousSvc(i: nat) | Stop

  function Init(qsize: nat, n: nat): State {
    State(qsize, seq(qsize, _ => 0), 0, 0, 0, 0, false, Free, APoll, 0, seq(n, _ => SLock), [], [], [], [], [])
  }

  predicate AnyBlocked(svc: seq<SPc>) {
    exists i :: 0 <= i < |svc| && svc[i].SBlocked?
  }

  /** `pthread_cond_signal(&cnd)`: a blocked service thread, if any, is woken; `x` names it. */
  predicate CanSignal(s: State, x: int) {
    AnyBlocked(s.svc) ==> 0 <= x < |s.svc| && s.svc[x].SBlocked?
  }

  function AccStep(s: State, x: int): (s': State)
    requires |s.squeue| == s.qsize && (s.acc.AWrite? || s.acc.AAdvance? ==> s.wqpos < s.qsize)
    ensures s'.qsize == s.qsize && |s'.svc| == |s.svc| && s'.stop == s.stop
  {
    match s.acc
    case APoll =>
      if s.stop || x < 0 then s.(acc := ADone) else s.(acc := ALock, acfd := x, accepted := s.accepted + [x])
    case ALock => if s.owner.Free? then s.(acc := ATest, owner := Acceptor) else s
    case ATest => if !s.stop && s.qcount >= s.qsize then s.(acc := AIncWait) else s.(acc := ACheck)
    case AIncWait => s.(acc := AWait, qwait := s.qwait + 1)
    case AWait => s.(acc := ABlocked, owner := Free)
    case ABlocked => s
    case AWoken => if s.owner.Free? then s.(acc := ADecWait, owner := Acceptor) else s
    case ADecWait => s.(acc := ATest, qwait := s.qwait - 1)
    case ACheck => if s.qcount < s.qsize then s.(acc := AInc) else s.(acc := AUnlock)
    case AInc => s.(acc := AWrite, qcount := s.qcount + 1)
    case AWrite => s.(acc := AAdvance, squeue := s.squeue[s.wqpos := s.acfd], enq := s.enq + [s.acfd])
    case AAdvance => s.(acc := ASignal, wqpos := (s.wqpos + 1) % s.qsize)
    case ASignal =>
      if CanSignal(s, x) then
        s.(acc := AUnlock, svc := if AnyBlocked(s.svc) then s.svc[x := SWoken] else s.svc)
      else s
    case AUnlock => s.(acc := APoll, owner := Free)
    case ADone => s
  }

  function SvcStep(s: State, i: nat): (s': State)
    requires |s.squeue| == s.qsize && i < |s.svc|
    requires s.svc[i].SRead? || s.svc[i].SAdvance? ==> s.rqpos < s.qsize
    ensures s'.qsize == s.qsize && |s'.svc| == |s.svc| && s'.svc == s.svc[i := s'.svc[i]] && s'.stop == s.stop
  {
    match s.svc[i]
    case SLock => if s.owner.Free? then s.(svc := s.svc[i := STest], owner := Service(i)) else s
    case STest => s.(svc := s.svc[i := if !s.stop && s.qcount == 0 then SWait else SCheck])
    case SWait => s.(svc := s.svc[i := SBlocked], owner := Free)
    case SBlocked => s
    case SWoken => if s.owner.Free? then s.(svc := s.svc[i := STest], owner := Service(i)) else s
    case SCheck => s.(svc := s.svc[i := if s.qcount > 0 then SRead else SUnlock(-1)])
    case SRead =>
      var cfd := s.squeue[s.rqpos];
      s.(svc := s.svc[i := SAdvance(cfd)], deq := s.deq + [cfd], taker := s.taker + [i])
    case SAdvance(cfd) => s.(svc := s.svc[i := SDec(cfd)], rqpos := (s.rqpos + 1) % s.qsize)
    case SDec(cfd) => s.(svc := s.svc[i := SSignal(cfd)], qcount := s.qcount - 1)
    case SSignal(cfd) =>
      s.(svc := s.svc[i := SUnlock(cfd)], acc := if s.qwait > 0 && s.acc.ABlocked? then AWoken else s.acc)
    case SUnlock(cfd) => s.(svc := s.svc[i := SServe(cfd)], owner := Free)
    case SServe(cfd) =>
      if cfd != -1 then s.(svc := s.svc[i := SLock], served := s.served + [i]) else s.(svc := s.svc[i := SDone])
    case SDone => s
  }

  // ---------------------------------------------------------------- mutual exclusion

  predicate AInside(p: APc) {
    p.ATest? || p.AIncWait? || p.AWait? || p.ADecWait? || p.ACheck? || p.AInc? || p.AWrite? || p.AAdvance? || p.ASignal?
    || p.AUnlock?
  }

  predicate SInside(p: SPc) {
    p.STest? || p.SWait? || p.SCheck? || p.SRead? || p.SAdvance? || p.SDec? || p.SSignal? || p.SUnlock?
  }

  /** The mutex is owned by exactly the thread that is inside a critical section. */
  ghost predicate Owned(s: State) {
    && (s.owner.Acceptor? <==> AInside(s.acc))
    && (forall i :: 0 <= i < |s.svc| ==> (s.owner == Service(i) <==> SInside(s.svc[i])))
    && (s.owner.Service? ==> s.owner.i < |s.svc|)
  }

  /** The program counter of the owning service thread, if there is one. */
  function Inside(s: State): SPc {
    if s.owner.Service? && s.owner.i < |s.svc| then s.svc[s.owner.i] else SDone
  }

  // ---------------------------------------------------------------- the ring

  /** The next place of a ring of size `q`, and the k-th place from `p`. */
  function NextPlace(p: nat, q: nat): nat { if p + 1 == q then 0 else p + 1 }

  function Place(p: nat, k: nat, q: nat): int { if p + k < q then p + k else p + k - q }

  lemma NextIsModular(p: nat, q: nat)
    requires p < q
    ensures (p + 1) % q == NextPlace(p, q)
  {
  }

  lemma PlaceIsModular(p: nat, k: nat, q: nat)
    requires p < q && k <= q
    ensures (p + k) % q == Place(p, k, q)
  {
    if p + k >= q {
      assert (p + k) == q * 1 + (p + k - q);
    }
  }

  /** Read position, length and write position as they are once the statement sequence under way is complete. */
  function Rq(s: State): nat { if Inside(s).SAdvance? then NextPlace(s.rqpos, s.qsize) else s.rqpos }

  function Len(s: State): int {
    s.qcount - (if Inside(s).SAdvance? || Inside(s).SDec? then 1 else 0) - (if s.acc.AWrite? then 1 else 0)
  }

  function Wq(s: State): nat { if s.acc.AAdvance? then NextPlace(s.wqpos, s.qsize) else s.wqpos }

  /** The ring holds, in order, the sessions written and not yet read. */
  ghost predicate RingOk(s: State) {
    && |s.squeue| == s.qsize
    && 0 <= Len(s) <= s.qsize && Len(s) == |s.enq| - |s.deq|
    && s.deq <= s.enq && |s.taker| == |s.deq|
    && (s.qsize > 0 ==> s.rqpos < s.qsize && s.wqpos < s.qsize && Wq(s) == Place(Rq(s), Len(s), s.qsize))
    && (forall j :: |s.deq| <= j < |s.enq| ==> s.enq[j] == s.squeue[Place(Rq(s), j - |s.deq|, s.qsize)])
    && (s.acc.AInc? || s.acc.AWrite? ==> Len(s) < s.qsize)
    && (s.acc.AAdvance? ==> s.qsize > 0)
    && (Inside(s).SRead? ==> Len(s) > 0)
    && (Inside(s).SAdvance? || Inside(s).SDec? ==> s.qcount > 0 && s.qsize > 0)
    && (forall i :: 0 <= i < |s.taker| ==> s.taker[i] < |s.svc|)
  }

  ghost predicate Safe(s: State) {
    Owned(s) && RingOk(s)
  }

  /** Steps that touch neither ring nor logs keep the ring. */
  lemma RingFrame(s: State, s': State)
    requires RingOk(s)
    requires s' == s.(stop := s'.stop, qwait := s'.qwait, owner := s'.owner,
                      acc := s'.acc, acfd := s'.acfd, svc := s'.svc, accepted := s'.accepted, served := s'.served)
    requires |s'.svc| == |s.svc|
    requires !(s.acc.AWrite? || s.acc.AAdvance?) || s'.acc == s.acc
    requires !(s'.acc.AWrite? || s'.acc.AAdvance? || s'.acc.AInc?) || s'.acc == s.acc
    requires Inside(s') == Inside(s) || !(Inside(s').SAdvance? || Inside(s').SDec? || Inside(s').SRead?)
    requires Inside(s') == Inside(s) || !(Inside(s).SAdvance? || Inside(s).SDec?)
    ensures RingOk(s')
  {
  }

  lemma AccKeepsOwned(s: State, x: int)
    requires Safe(s)
    ensures Owned(AccStep(s, x)) && Inside(AccStep(s, x)) == Inside(s)
  {
  }

  /** The test for room, and the count. */
  lemma AccCountsIn(s: State, x: int)
    requires Safe(s) && (s.acc.ACheck? || s.acc.AInc?)
    ensures RingOk(AccStep(s, x))
  {
    AccKeepsOwned(s, x);
  }

  lemma AccWrites(s: State, x: int)
    requires Safe(s) && s.acc.AWrite?
    ensures RingOk(AccStep(s, x))
  {
    AccKeepsOwned(s, x);
  }

  lemma AccAdvances(s: State, x: int)
    requires Safe(s) && s.acc.AAdvance?
    ensures RingOk(AccStep(s, x))
  {
    AccKeepsOwned(s, x);
    NextIsModular(s.wqpos, s.qsize);
  }

  /** The four statements that put a session into the ring. */
  lemma AccPutsInRing(s: State, x: int)
    requires Safe(s) && (s.acc.ACheck? || s.acc.AInc? || s.acc.AWrite? || s.acc.AAdvance?)
    ensures RingOk(AccStep(s, x))
  {
    match s.acc
    case AWrite => AccWrites(s, x);
    case AAdvance => AccAdvances(s, x);
    case _ => AccCountsIn(s, x);
  }

  lemma AccKeepsSafe(s: State, x: int)
    requires Safe(s)
    ensures Safe(AccStep(s, x))
  {
    AccKeepsOwned(s, x);
    if s.acc.ACheck? || s.acc.AInc? || s.acc.AWrite? || s.acc.AAdvance? {
      AccPutsInRing(s, x);
    } else {
      RingFrame(s, AccStep(s, x));
    }
  }

  /** The owner is the only service thread inside. */
  lemma OwnerIsInside(s: State, i: nat)
    requires Owned(s) && i < |s.svc|
    ensures SInside(s.svc[i]) ==> Inside(s) == s.svc[i]
    ensures s.owner.Free? ==> Inside(s).SDone?
  {
  }

  /** A thread that stays outside leaves the owner alone. */
  lemma SvcStaysOutside(s: State, i: nat)
    requires Safe(s) && i < |s.svc| && !SInside(s.svc[i]) && !SInside(SvcStep(s, i).svc[i])
    ensures Inside(SvcStep(s, i)) == Inside(s)
  {
  }

  lemma SvcPassesOwner(s: State, i: nat)
    requires |s.squeue| == s.qsize && i < |s.svc| && (s.svc[i].SRead? || s.svc[i].SAdvance? ==> s.rqpos < s.qsize)
    requires Owned(s)
    ensures Owned(SvcStep(s, i))
  {
    assert s.owner == Service(i) <==> SInside(s.svc[i]);
  }

  lemma SvcKeepsOwned(s: State, i: nat)
    requires Safe(s) && i < |s.svc|
    ensures Owned(SvcStep(s, i))
    ensures SInside(s.svc[i]) ==> Inside(s) == s.svc[i]
    ensures SInside(SvcStep(s, i).svc[i]) ==> Inside(SvcStep(s, i)) == SvcStep(s, i).svc[i]
    ensures !SInside(s.svc[i]) && !SInside(SvcStep(s, i).svc[i]) ==> Inside(SvcStep(s, i)) == Inside(s)
    ensures SvcStep(s, i).owner.Free? ==> Inside(SvcStep(s, i)).SDone?
  {
    OwnerIsInside(s, i);
    SvcPassesOwner(s, i);
    OwnerIsInside(SvcStep(s, i), i);
    if !SInside(s.svc[i]) && !SInside(SvcStep(s, i).svc[i]) { SvcStaysOutside(s, i); }
  }

  lemma SvcChecks(s: State, i: nat)
    requires Safe(s) && i < |s.svc| && s.svc[i].SCheck?
    ensures RingOk(SvcStep(s, i))
  {
    SvcKeepsOwned(s, i);
  }

  lemma SvcReads(s: State, i: nat)
    requires Safe(s) && i < |s.svc| && s.svc[i].SRead?
    ensures RingOk(SvcStep(s, i))
  {
    SvcKeepsOwned(s, i);
  }

  lemma SvcAdvances(s: State, i: nat)
    requires Safe(s) && i < |s.svc| && s.svc[i].SAdvance?
    ensures RingOk(SvcStep(s, i))
  {
    SvcKeepsOwned(s, i);
    NextIsModular(s.rqpos, s.qsize);
  }

  lemma SvcCountsOut(s: State, i: nat)
    requires Safe(s) && i < |s.svc| && s.svc[i].SDec?
    ensures RingOk(SvcStep(s, i))
  {
    SvcKeepsOwned(s, i);
  }

  /** The four statements that take a session out of the ring. */
  lemma SvcTakesFromRing(s: State, i: nat)
    requires Safe(s) && i < |s.svc|
    requires s.svc[i].SCheck? || s.svc[i].SRead? || s.svc[i].SAdvance? || s.svc[i].SDec?
    ensures RingOk(SvcStep(s, i))
  {
    match s.svc[i]
    case SCheck => SvcChecks(s, i);
    case SRead => SvcReads(s, i);
    case SAdvance(_) => SvcAdvances(s, i);
    case SDec(_) => SvcCountsOut(s, i);
  }

  lemma SvcKeepsSafe(s: State, i: nat)
    requires Safe(s) && i < |s.svc|
    ensures Safe(SvcStep(s, i))
  {
    SvcKeepsOwned(s, i);
    if s.svc[i].SCheck? || s.svc[i].SRead? || s.svc[i].SAdvance? || s.svc[i].SDec? {
      SvcTakesFromRing(s, i);
    } else {
      RingFrame(s, SvcStep(s, i));
    }
  }

  // ---------------------------------------------------------------- wakeups

  /** A service thread that was woken, or has the mutex, and has not yet taken a session or gone back to wait. */
  predicate Coming(p: SPc) {
    p.SWoken? || p.STest? || p.SCheck? || p.SRead? || p.SAdvance? || p.SDec?
  }

  function Count(svc: seq<SPc>): nat {
    if svc == [] then 0 else (if Coming(svc[0]) then 1 else 0) + Count(svc[1..])
  }

  lemma {:induction false} CountAfterUpdate(svc: seq<SPc>, i: nat, p: SPc)
    requires i < |svc|
    ensures Count(svc[i := p]) == Count(svc) - (if Coming(svc[i]) then 1 else 0) + (if Coming(p) then 1 else 0)
  {
    if i == 0 {
      assert svc[i := p][1..] == svc[1..];
    } else {
      assert svc[i := p][1..] == svc[1..][i - 1 := p];
      CountAfterUpdate(svc[1..], i - 1, p);
    }
  }

  /** No wakeup is lost.  While service threads are blocked, every session in the ring has a thread coming for it, or
      its signal is about to be sent; and while the acceptor is blocked, the ring is full or its signal is about to be
      sent. */
  ghost predicate Awake(s: State) {
    && s.qwait == (if s.acc.AWait? || s.acc.ABlocked? || s.acc.AWoken? || s.acc.ADecWait? then 1 else 0)
    && (!s.stop ==>
        && (AnyBlocked(s.svc) ==>
              s.qcount <= Count(s.svc) + if s.acc.AWrite? || s.acc.AAdvance? || s.acc.ASignal? then 1 else 0)
        && (s.acc.ABlocked? ==> s.qcount >= s.qsize || Inside(s).SSignal?)
        && (s.acc.AIncWait? || s.acc.AWait? ==> s.qcount >= s.qsize)
        && (Inside(s).SWait? ==> s.qcount == 0))
  }

  lemma AccSignals(s: State, x: int)
    requires Safe(s) && Awake(s) && s.acc.ASignal?
    ensures Awake(AccStep(s, x))
  {
    AccKeepsOwned(s, x);
    if CanSignal(s, x) && AnyBlocked(s.svc) {
      CountAfterUpdate(s.svc, x, SWoken);
    }
  }

  lemma AccKeepsAwake(s: State, x: int)
    requires Safe(s) && Awake(s)
    ensures Awake(AccStep(s, x))
  {
    if s.acc.ASignal? {
      AccSignals(s, x);
    } else {
      AccKeepsOwned(s, x);
      assert AccStep(s, x).svc == s.svc;
    }
  }

  lemma BlockedBefore(svc: seq<SPc>, i: nat, p: SPc)
    requires i < |svc| && AnyBlocked(svc[i := p]) && (p.SBlocked? ==> svc[i].SBlocked?)
    ensures AnyBlocked(svc)
  {
    var b :| 0 <= b < |svc| && svc[i := p][b].SBlocked?;
    assert svc[b].SBlocked?;
  }

  lemma SvcKeepsCount(s: State, i: nat)
    requires Safe(s) && Awake(s) && i < |s.svc|
    ensures var s' := SvcStep(s, i);
            !s'.stop && AnyBlocked(s'.svc) ==>
              s'.qcount <= Count(s'.svc) + if s'.acc.AWrite? || s'.acc.AAdvance? || s'.acc.ASignal? then 1 else 0
  {
    var s' := SvcStep(s, i);
    if !s'.stop && AnyBlocked(s'.svc) {
      CountAfterUpdate(s.svc, i, s'.svc[i]);
      assert SInside(s.svc[i]) ==> Inside(s) == s.svc[i] && !AInside(s.acc);
      if !s.svc[i].SWait? {
        BlockedBefore(s.svc, i, s'.svc[i]);
      }
    }
  }

  lemma SvcKeepsAwake(s: State, i: nat)
    requires Safe(s) && Awake(s) && i < |s.svc|
    ensures Awake(SvcStep(s, i))
  {
    SvcKeepsOwned(s, i);
    SvcKeepsCount(s, i);
  }

  // ---------------------------------------------------------------- who serves what

  /** The thread has a session: it has read one and not yet finished serving it. */
  predicate HasSession(p: SPc) {
    (p.SAdvance? || p.SDec? || p.SSignal? || p.SUnlock? || p.SServe?) && p.cfd != -1
  }

  /** The last session that thread `i` read, by its number, or -1. */
  function LastOf(taker: seq<nat>, i: nat): (k: int)
    ensures -1 <= k < |taker| && (k >= 0 ==> taker[k] == i)
    ensures forall m :: k < m < |taker| ==> taker[m] != i
  {
    var n := |taker|;
    if n == 0 then -1 else if taker[n - 1] == i then n - 1 else LastOf(taker[..n - 1], i)
  }

  lemma LastAfterTaking(taker: seq<nat>, j: nat, i: nat)
    ensures LastOf(taker + [j], i) == if i == j then |taker| else LastOf(taker, i)
  {
    assert (taker + [j])[..|taker|] == taker;
  }

  /** If the thread has a session, it is the last one it read. */
  ghost predicate HasLast(p: SPc, deq: seq<int>, taker: seq<nat>, i: nat)
    requires |taker| == |deq|
  {
    HasSession(p) ==> LastOf(taker, i) >= 0 && deq[LastOf(taker, i)] == p.cfd
  }

  ghost predicate Served(s: State) {
    && |s.taker| == |s.deq| && s.acfd >= 0 && (forall k :: 0 <= k < |s.enq| ==> s.enq[k] >= 0)
    && forall i :: 0 <= i < |s.svc| ==> HasLast(s.svc[i], s.deq, s.taker, i)
  }

  lemma AccKeepsServed(s: State, x: int)
    requires |s.squeue| == s.qsize && (s.acc.AWrite? || s.acc.AAdvance? ==> s.wqpos < s.qsize) && Served(s)
    ensures Served(AccStep(s, x))
  {
    var s' := AccStep(s, x);
    assert s'.deq == s.deq && s'.taker == s.taker && s'.acfd >= 0;
    forall j | 0 <= j < |s.svc| ensures HasLast(s'.svc[j], s.deq, s.taker, j) {
      assert s'.svc[j] == s.svc[j] || s'.svc[j].SWoken?;
    }
  }

  lemma SvcReadIsServed(s: State, i: nat, j: nat)
    requires |s.squeue| == s.qsize && i < |s.svc| && j < |s.svc| && s.svc[i].SRead? && s.rqpos < s.qsize && Served(s)
    ensures HasLast(SvcStep(s, i).svc[j], SvcStep(s, i).deq, SvcStep(s, i).taker, j)
  {
    LastAfterTaking(s.taker, i, j);
    assert HasLast(s.svc[j], s.deq, s.taker, j);
  }

  lemma SvcElseIsServed(s: State, i: nat, j: nat)
    requires |s.squeue| == s.qsize && i < |s.svc| && j < |s.svc| && !s.svc[i].SRead? && Served(s)
    requires s.svc[i].SAdvance? ==> s.rqpos < s.qsize
    ensures var s' := SvcStep(s, i); s'.deq == s.deq && s'.taker == s.taker && HasLast(s'.svc[j], s.deq, s.taker, j)
  {
    assert HasLast(s.svc[j], s.deq, s.taker, j);
  }

  lemma SvcKeepsServed(s: State, i: nat)
    requires |s.squeue| == s.qsize && i < |s.svc| && (s.svc[i].SRead? || s.svc[i].SAdvance? ==> s.rqpos < s.qsize)
    requires Served(s)
    ensures Served(SvcStep(s, i))
  {
    var s' := SvcStep(s, i);
    forall j | 0 <= j < |s.svc| ensures HasLast(s'.svc[j], s'.deq, s'.taker, j) {
      if s.svc[i].SRead? { SvcReadIsServed(s, i, j); } else { SvcElseIsServed(s, i, j); }
    }
  }

  // ---------------------------------------------------------------- nothing is dropped

  /** The acceptor has a session that it has not yet written to the ring. */
  predicate UnderWay(p: APc) {
    p.ALock? || p.ATest? || p.AIncWait? || p.AWait? || p.ABlocked? || p.AWoken? || p.ADecWait? || p.ACheck? || p.AInc?
    || p.AWrite?
  }

  /** The sessions accepted are those written to the ring, and the one under way; only after the stop flag is set can
      one have been dropped, and then it is the last. */
  ghost predicate Lossless(s: State) {
    && (if UnderWay(s.acc) then s.accepted == s.enq + [s.acfd]
        else s.accepted == s.enq || (s.stop && s.accepted == s.enq + [s.acfd]))
    && (s.acc.ACheck? && !s.stop ==> s.qcount < s.qsize)
  }

  lemma AccKeepsLossless(s: State, x: int)
    requires Safe(s) && Lossless(s)
    ensures Lossless(AccStep(s, x))
  {
  }

  lemma SvcKeepsLossless(s: State, i: nat)
    requires Safe(s) && Lossless(s) && i < |s.svc|
    ensures Lossless(SvcStep(s, i))
  {
    assert SInside(s.svc[i]) ==> !AInside(s.acc);
  }

  // ---------------------------------------------------------------- service threads go on

  /** The thread has not ended, nor is it about to. */
  predicate Goes(p: SPc) {
    !p.SDone? && (p.SAdvance? || p.SDec? || p.SSignal? || p.SUnlock? || p.SServe? ==> p.cfd != -1)
  }

  /** What a thread that reads gets is a session. */
  predicate Reads(p: SPc) {
    p.SAdvance? || p.SDec? || p.SSignal? ==> p.cfd != -1
  }

  /** Each thread has read as many sessions as it has served, and one more if it has one.  Until the stop flag is set no
      thread ends. */
  ghost predicate Tended(s: State, i: nat)
    requires i < |s.svc|
  {
    && multiset(s.taker)[i] == multiset(s.served)[i] + (if HasSession(s.svc[i]) then 1 else 0)
    && Reads(s.svc[i]) && (!s.stop ==> Goes(s.svc[i]))
  }

  ghost predicate AllTended(s: State) {
    && (Inside(s).SCheck? && !s.stop ==> s.qcount > 0)
    && forall i :: 0 <= i < |s.svc| ==> Tended(s, i)
  }

  lemma AccKeepsTended(s: State, x: int)
    requires Safe(s) && AllTended(s)
    ensures AllTended(AccStep(s, x))
  {
    AccKeepsOwned(s, x);
    forall i | 0 <= i < |s.svc| ensures Tended(AccStep(s, x), i) { AccLeavesTended(s, x, i); }
    assert Inside(s).SCheck? ==> !AInside(s.acc);
  }

  lemma AccLeavesTended(s: State, x: int, i: nat)
    requires |s.squeue| == s.qsize && (s.acc.AWrite? || s.acc.AAdvance? ==> s.wqpos < s.qsize)
    requires i < |s.svc| && Tended(s, i)
    ensures Tended(AccStep(s, x), i)
  {
    var s' := AccStep(s, x);
    assert s'.taker == s.taker && s'.served == s.served;
    assert s'.svc[i] == s.svc[i] || (s.svc[i].SBlocked? && s'.svc[i].SWoken?);
  }

  lemma SvcReadIsTended(s: State, i: nat)
    requires |s.squeue| == s.qsize && i < |s.svc| && Tended(s, i)
    requires s.svc[i].SRead? && s.rqpos < s.qsize && s.squeue[s.rqpos] != -1
    ensures Tended(SvcStep(s, i), i)
  {
  }

  lemma SvcElseIsTended(s: State, i: nat)
    requires |s.squeue| == s.qsize && i < |s.svc| && Tended(s, i) && !s.svc[i].SRead?
    requires s.svc[i].SAdvance? ==> s.rqpos < s.qsize
    requires s.svc[i].SCheck? && !s.stop ==> s.qcount > 0
    ensures Tended(SvcStep(s, i), i)
  {
    var s' := SvcStep(s, i);
    assert s'.taker == s.taker && (s'.served == s.served || s.svc[i].SServe?);
  }

  lemma SvcLeavesTended(s: State, i: nat, j: nat)
    requires |s.squeue| == s.qsize && i < |s.svc| && j < |s.svc| && j != i && Tended(s, j)
    requires s.svc[i].SRead? || s.svc[i].SAdvance? ==> s.rqpos < s.qsize
    ensures Tended(SvcStep(s, i), j)
  {
  }

  /** What is read is a session that was accepted, so it is not -1. */
  lemma ReadIsSession(s: State, i: nat)
    requires Safe(s) && Served(s) && i < |s.svc| && s.svc[i].SRead?
    ensures s.rqpos < s.qsize && s.squeue[s.rqpos] >= 0
  {
    assert Inside(s) == s.svc[i];
    assert s.enq[|s.deq|] == s.squeue[Place(s.rqpos, 0, s.qsize)];
  }

  lemma SvcKeepsTended(s: State, i: nat)
    requires Safe(s) && Served(s) && AllTended(s) && i < |s.svc|
    ensures AllTended(SvcStep(s, i))
  {
    SvcKeepsOwned(s, i);
    if s.svc[i].SRead? { ReadIsSession(s, i); }
    forall j | 0 <= j < |s.svc| ensures Tended(SvcStep(s, i), j) {
      assert Tended(s, j);
      if j != i { SvcLeavesTended(s, i, j); }
      else if s.svc[i].SRead? { SvcReadIsTended(s, i); }
      else { SvcElseIsTended(s, i); }
    }
    SvcChecksRoom(s, i);
  }

  lemma SvcChecksRoom(s: State, i: nat)
    requires Safe(s) && i < |s.svc| && (Inside(s).SCheck? && !s.stop ==> s.qcount > 0)
    ensures Inside(SvcStep(s, i)).SCheck? && !s.stop ==> SvcStep(s, i).qcount > 0
  {
    SvcKeepsOwned(s, i);
  }

  // ---------------------------------------------------------------- whole runs

  function Step(s: State, a: Action): State
    requires Safe(s)
  {
    match a
    case Acc(x) => AccStep(s, x)
    case Svc(i) => if i < |s.svc| then SvcStep(s, i) else s
    case SpuriousAcc => if s.acc.ABlocked? then s.(acc := AWoken) else s
    case SpuriousSvc(i) => if i < |s.svc| && s.svc[i].SBlocked? then s.(svc := s.svc[i := SWoken]) else s
    case Stop => s.(stop := true)
  }

  ghost predicate Inv(s: State) {
    Safe(s) && Awake(s) && Served(s) && Lossless(s) && AllTended(s)
  }

  lemma SpuriousKeepsInv(s: State, i: nat)
    requires Inv(s) && i < |s.svc| && s.svc[i].SBlocked?
    ensures Inv(s.(svc := s.svc[i := SWoken]))
  {
    var s' := s.(svc := s.svc[i := SWoken]);
    forall j | 0 <= j < |s.svc| ensures Tended(s', j) { assert Tended(s, j); }
    CountAfterUpdate(s.svc, i, SWoken);
    assert Inside(s') == Inside(s);
    RingFrame(s, s');
  }

  lemma OtherKeepsInv(s: State)
    requires Inv(s)
    ensures Inv(s.(stop := true))
    ensures s.acc.ABlocked? ==> Inv(s.(acc := AWoken))
  {
    RingFrame(s, s.(stop := true));
    forall j | 0 <= j < |s.svc| ensures Tended(s.(stop := true), j) { assert Tended(s, j); }
    if s.acc.ABlocked? {
      RingFrame(s, s.(acc := AWoken));
      forall j | 0 <= j < |s.svc| ensures Tended(s.(acc := AWoken), j) { assert Tended(s, j); }
    }
  }

  lemma AccKeepsInv(s: State, x: int)
    requires Inv(s)
    ensures Inv(AccStep(s, x))
  {
    AccKeepsSafe(s, x);
    AccKeepsAwake(s, x);
    AccKeepsServed(s, x);
    AccKeepsLossless(s, x);
    AccKeepsTended(s, x);
  }

  lemma SvcKeepsInv(s: State, i: nat)
    requires Inv(s) && i < |s.svc|
    ensures Inv(SvcStep(s, i))
  {
    SvcKeepsSafe(s, i);
    SvcKeepsAwake(s, i);
    SvcKeepsServed(s, i);
    SvcKeepsLossless(s, i);
    SvcKeepsTended(s, i);
  }

  lemma StepKeepsInv(s: State, a: Action)
    requires Inv(s)
    ensures Inv(Step(s, a))
  {
    match a
    case Acc(x) => AccKeepsInv(s, x);
    case Svc(i) => if i < |s.svc| { SvcKeepsInv(s, i); }
    case SpuriousAcc => OtherKeepsInv(s);
    case SpuriousSvc(i) => if i < |s.svc| && s.svc[i].SBlocked? { SpuriousKeepsInv(s, i); }
    case Stop => OtherKeepsInv(s);
  }

  lemma InitIsFine(qsize: nat, n: nat)
    ensures Inv(Init(qsize, n))
  {
    assert Inside(Init(qsize, n)) == SDone;
  }

  /** A state of which the invariant holds. */
  type Running = s: State | Inv(s) ghost witness (InitIsFine(1, 1); Init(1, 1))

  ghost function Start(qsize: nat, n: nat): Running {
    InitIsFine(qsize, n);
    Init(qsize, n)
  }

  /** What a scheduling choice does. */
  ghost function Next(s: Running, a: Action): Running {
    StepKeepsInv(s, a);
    Step(s, a)
  }

  lemma NextKeepsSize(s: Running, a: Action)
    ensures Next(s, a).qsize == s.qsize && |Next(s, a).svc| == |s.svc|
  {
  }

  lemma AfterKeepsSize(qsize: nat, n: nat, sched: seq<Action>)
    ensures var s := Exec<Running, Action>(Next, Start(qsize, n), sched); s.qsize == qsize && |s.svc| == n
  {
    forall s: Running, a ensures Next(s, a).qsize == s.qsize && |Next(s, a).svc| == |s.svc| { NextKeepsSize(s, a); }
    ExecKeeps<Running, Action>(Next, (s: Running) => s.qsize == qsize && |s.svc| == n, Start(qsize, n), sched);
  }

  /** The state of a queue of `qsize` places and `n` service threads after a schedule. */
  ghost function After(qsize: nat, n: nat, sched: seq<Action>): (s: Running)
    ensures s.qsize == qsize && |s.svc| == n
  {
    AfterKeepsSize(qsize, n, sched);
    Exec<Running, Action>(Next, Start(qsize, n), sched)
  }

  /** The sessions in the ring, from the read position on. */
  function Contents(s: State): seq<int>
    requires 0 <= s.qcount <= s.qsize && |s.squeue| == s.qsize && (s.qsize > 0 ==> s.rqpos < s.qsize)
  {
    seq(s.qcount, k requires 0 <= k < s.qcount => s.squeue[(s.rqpos + k) % s.qsize])
  }

  /** In every run, whenever the mutex is free: count and positions agree, and the sessions ever written are those
      ever read followed by those in the ring.  So each session is read once at most, in the order of writing. */
  lemma EveryRunKeepsTheRing(qsize: nat, n: nat, sched: seq<Action>)
    requires qsize > 0
    ensures var s := After(qsize, n, sched);
            s.owner.Free? ==>
              && 0 <= s.qcount <= qsize && |s.squeue| == qsize && s.rqpos < qsize
              && s.wqpos == (s.rqpos + s.qcount) % qsize
              && s.enq == s.deq + Contents(s) && |s.taker| == |s.deq|
  {
    var s := After(qsize, n, sched);
    if s.owner.Free? {
      assert Inside(s) == SDone && !AInside(s.acc);
      PlaceIsModular(s.rqpos, s.qcount, qsize);
      forall k | 0 <= k < s.qcount ensures Contents(s)[k] == s.enq[|s.deq| + k] {
        PlaceIsModular(s.rqpos, k, qsize);
      }
    }
  }

  /** In every run each session goes to at most one service thread: a thread that has a session has the `k`-th one
      ever written, for a `k` that only it has read, and no two threads have the same. */
  lemma EveryRunServesEachOnce(qsize: nat, n: nat, sched: seq<Action>, i: nat)
    requires i < n
    ensures var s := After(qsize, n, sched);
            HasSession(s.svc[i]) ==>
              var k := LastOf(s.taker, i);
              && 0 <= k < |s.deq| <= |s.enq| && s.deq[k] == s.enq[k] == s.svc[i].cfd && s.taker[k] == i
              && forall j :: 0 <= j < n && j != i ==> LastOf(s.taker, j) != k
  {
    var s := After(qsize, n, sched);
    assert HasLast(s.svc[i], s.deq, s.taker, i);
  }

  /** In every run each accepted session is written to the ring, in order, except the one under way; only after the
      stop flag is set can one be dropped. */
  lemma EveryRunQueuesWhatItAccepts(qsize: nat, n: nat, sched: seq<Action>)
    ensures var s := After(qsize, n, sched);
            && s.enq <= s.accepted && |s.accepted| <= |s.enq| + 1
            && (!s.stop && (s.acc.APoll? || s.acc.AAdvance? || s.acc.ASignal? || s.acc.AUnlock? || s.acc.ADone?) ==>
                  s.accepted == s.enq)
            && (UnderWay(s.acc) ==> s.accepted == s.enq + [s.acfd])
  {
  }

  /** In every run, until the stop flag is set, no service thread ends or is about to; and each thread has served all
      the sessions it has read, but for the one it has. */
  lemma EveryRunGoesOn(qsize: nat, n: nat, sched: seq<Action>, i: nat)
    requires i < n
    ensures var s := After(qsize, n, sched);
            && (!s.stop ==> !s.svc[i].SDone? && s.svc[i] != SUnlock(-1) && s.svc[i] != SServe(-1))
            && multiset(s.taker)[i] == multiset(s.served)[i] + (if HasSession(s.svc[i]) then 1 else 0)
  {
    var s := After(qsize, n, sched);
    assert Tended(s, i);
  }

  /** The service threads that were woken and wait for the mutex. */
  function Woken(svc: seq<SPc>): nat {
    if svc == [] then 0 else (if svc[0].SWoken? then 1 else 0) + Woken(svc[1..])
  }

  lemma {:induction false} OutsideOnlyWokenCome(svc: seq<SPc>)
    requires forall i :: 0 <= i < |svc| ==> !SInside(svc[i])
    ensures Count(svc) == Woken(svc)
  {
    if svc != [] { OutsideOnlyWokenCome(svc[1..]); }
  }

  /** In every run that has not been stopped, whenever the mutex is free: if a service thread is blocked, at least as
      many threads have been woken as there are sessions; if the acceptor is blocked, the queue is full. */
  lemma EveryRunLosesNoWakeup(qsize: nat, n: nat, sched: seq<Action>)
    ensures var s := After(qsize, n, sched);
            s.owner.Free? && !s.stop ==>
              && (AnyBlocked(s.svc) ==> s.qcount <= Woken(s.svc))
              && (s.acc.ABlocked? ==> s.qcount == qsize)
  {
    var s := After(qsize, n, sched);
    if s.owner.Free? {
      assert Inside(s) == SDone && !AInside(s.acc);
      OutsideOnlyWokenCome(s.svc);
    }
  }

  lemma {:induction false} AllBlockedNoneComes(svc: seq<SPc>)
    requires forall i :: 0 <= i < |svc| ==> svc[i].SBlocked?
    ensures Count(svc) == 0
  {
    if svc != [] { AllBlockedNoneComes(svc[1..]); }
  }

  /** With room for at least one session, the acceptor and all service threads are never blocked together. */
  lemma NeverAllBlocked(qsize: nat, n: nat, sched: seq<Action>)
    requires qsize > 0 && n > 0
    ensures var s := After(qsize, n, sched);
            !s.stop && s.acc.ABlocked? ==> exists i :: 0 <= i < |s.svc| && !s.svc[i].SBlocked?
  {
    var s := After(qsize, n, sched);
    if s.acc.ABlocked? && !s.stop && forall i :: 0 <= i < |s.svc| ==> s.svc[i].SBlocked? {
      AllBlockedNoneComes(s.svc);
      assert s.svc[0].SBlocked? && AnyBlocked(s.svc);
    }
  }
}
