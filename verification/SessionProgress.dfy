/** That the session queue gets its work done: as long as an accepted session is not served, some thread can go on, and
    there is a bound on how often threads can go on before the next session is accepted. */
module SessionProgress {
  import opened Runs
  import opened SessionQueue

  /** A step of a thread of its own, other than waiting for the next connection. */
  predicate Internal(s: State, a: Action) {
    (a.Acc? && !s.acc.APoll?) || (a.Svc? && a.i < |s.svc|)
  }

  /** No thread can go on: whatever is scheduled stays where it is, waiting for a condition, the mutex or a
      connection. */
  ghost predicate Quiet(s: State)
    requires Safe(s)
  {
    forall a :: Internal(s, a) ==> Step(s, a) == s
  }

  lemma QuietAcceptor(s: State)
    requires Safe(s) && Quiet(s)
    ensures !AInside(s.acc) && (s.owner.Free? ==> s.acc.APoll? || s.acc.ABlocked? || s.acc.ADone?)
  {
    var x := if b :| 0 <= b < |s.svc| && s.svc[b].SBlocked? then b else 0;
    assert !s.acc.APoll? ==> Internal(s, Acc(x)) && Step(s, Acc(x)) == AccStep(s, x) == s;
  }

  lemma QuietService(s: State, i: nat)
    requires Safe(s) && Quiet(s) && i < |s.svc|
    ensures !SInside(s.svc[i]) && (s.owner.Free? ==> s.svc[i].SBlocked? || s.svc[i].SDone?)
  {
    assert Internal(s, Svc(i)) && Step(s, Svc(i)) == SvcStep(s, i) == s;
  }

  /** Each session that was accepted has been read and served, and all service threads wait for the next one. */
  ghost predicate AllServed(s: State) {
    && s.accepted == s.enq == s.deq && s.qcount == 0 && (s.acc.APoll? || s.acc.ADone?)
    && forall i :: 0 <= i < |s.svc| ==> s.svc[i].SBlocked? && multiset(s.taker)[i] == multiset(s.served)[i]
  }

  /** When no thread can go on, and the stop flag is not set, everything is served. */
  lemma QuietMeansServed(s: State)
    requires Inv(s) && Quiet(s) && !s.stop && s.qsize > 0 && |s.svc| > 0
    ensures AllServed(s)
  {
    QuietAcceptor(s);
    forall i | 0 <= i < |s.svc| ensures !SInside(s.svc[i]) { QuietService(s, i); }
    assert s.owner.Free?;
    forall i | 0 <= i < |s.svc| ensures s.svc[i].SBlocked? && multiset(s.taker)[i] == multiset(s.served)[i] {
      QuietService(s, i);
      assert Tended(s, i);
    }
    AllBlockedNoneComes(s.svc);
    assert s.svc[0].SBlocked? && AnyBlocked(s.svc);
    assert Inside(s) == SDone && s.qcount == 0;
  }

  // ---------------------------------------------------------------- turns

  predicate AWaits(p: APc) { p.AIncWait? || p.AWait? || p.ABlocked? }

  predicate SWaits(p: SPc) { p.SWait? || p.SBlocked? }

  /** A session is dropped only if the stop flag is set and the queue is full; the acceptor ends only if the stop flag
      is set or no session comes; otherwise a session that comes is accepted; and after the stop flag is set it does not
      begin to wait. */
  lemma AcceptorTurns(s: State, x: int)
    requires Inv(s)
    ensures var s' := AccStep(s, x);
            && (UnderWay(s.acc) && !UnderWay(s'.acc) && s'.enq == s.enq ==> s.stop && s.qcount == s.qsize)
            && (s'.acc.ADone? && !s.acc.ADone? ==> s.acc.APoll? && (s.stop || x < 0))
            && (s.acc.APoll? && !s.stop && x >= 0 ==> s'.accepted == s.accepted + [x] && UnderWay(s'.acc))
            && (s.stop && AWaits(s'.acc) ==> AWaits(s.acc))
  {
    AccKeepsOwned(s, x);
  }

  /** A thread turns away from the queue only if it is empty and the stop flag is set; it ends only then; and after the
      stop flag is set it does not begin to wait. */
  lemma ServiceTurns(s: State, i: nat)
    requires Inv(s) && i < |s.svc|
    ensures var p, p' := s.svc[i], SvcStep(s, i).svc[i];
            && (p'.SUnlock? && p'.cfd == -1 && p != p' ==> s.stop && s.qcount == 0)
            && (p'.SDone? && !p.SDone? ==> p == SServe(-1))
            && (s.stop && SWaits(p') ==> SWaits(p))
  {
    OwnerIsInside(s, i);
    assert Tended(s, i);
  }

  // ---------------------------------------------------------------- a bound

  /** How many more statements a thread may execute before it waits, counting for one that wakes another thread also
      what that thread may then execute. */
  function ARank(p: APc): nat {
    match p
    case APoll => 0 case ADone => 0 case ABlocked => 0 case AUnlock => 1 case AWait => 1 case AIncWait => 2
    case ASignal => 6 case AAdvance => 7 case AWrite => 8 case AInc => 9 case ACheck => 10 case ATest => 11
    case ALock => 12 case ADecWait => 12 case AWoken => 13
  }

  function SRank(p: SPc): nat {
    match p
    case SBlocked => 0 case SDone => 0 case SRead => 1 case SWait => 1 case SCheck => 2 case STest => 3
    case SLock => 4 case SWoken => 4 case SServe(_) => 5 case SUnlock(_) => 6
    case SSignal(_) => 20 case SDec(_) => 21 case SAdvance(_) => 22
  }

  function Ranks(svc: seq<SPc>): nat {
    if svc == [] then 0 else SRank(svc[0]) + Ranks(svc[1..])
  }

  lemma {:induction false} RanksAfterUpdate(svc: seq<SPc>, i: nat, p: SPc)
    requires i < |svc|
    ensures Ranks(svc[i := p]) == Ranks(svc) - SRank(svc[i]) + SRank(p)
  {
    if i == 0 {
      assert svc[i := p][1..] == svc[1..];
    } else {
      assert svc[i := p][1..] == svc[1..][i - 1 := p];
      RanksAfterUpdate(svc[1..], i - 1, p);
    }
  }

  /** Every session not yet read is worth the 22 statements from its reading on. */
  function Work(s: State): int {
    22 * (|s.accepted| - |s.deq|) + ARank(s.acc) + Ranks(s.svc)
  }

  lemma WorkIsNotNegative(s: State)
    requires Inv(s)
    ensures Work(s) >= 0
  {
  }

  lemma AccUsesWork(s: State, x: int)
    requires Inv(s) && !s.stop && !s.acc.APoll? && AccStep(s, x) != s
    ensures Work(AccStep(s, x)) < Work(s)
  {
    var s' := AccStep(s, x);
    if s.acc.ASignal? && AnyBlocked(s.svc) { RanksAfterUpdate(s.svc, x, SWoken); }
    assert s'.accepted == s.accepted && s'.deq == s.deq;
  }

  lemma SvcUsesWork(s: State, i: nat)
    requires Inv(s) && !s.stop && i < |s.svc| && SvcStep(s, i) != s
    ensures Work(SvcStep(s, i)) < Work(s)
  {
    var s' := SvcStep(s, i);
    OwnerIsInside(s, i);
    assert Tended(s, i);
    RanksAfterUpdate(s.svc, i, s'.svc[i]);
  }

  /** Every step on which a thread goes on uses up work, until the stop flag is set. */
  lemma StepUsesWork(s: State, a: Action)
    requires Inv(s) && !s.stop && Internal(s, a) && Step(s, a) != s
    ensures Work(Step(s, a)) < Work(s)
  {
    match a
    case Acc(x) => AccUsesWork(s, x);
    case Svc(i) => SvcUsesWork(s, i);
  }

  /** The number of steps of a schedule on which a thread goes on. */
  ghost function Moves(s: Running, sched: seq<Action>): nat
    decreases |sched|
  {
    if sched == [] then 0 else (if Next(s, sched[0]) != s then 1 else 0) + Moves(Next(s, sched[0]), sched[1..])
  }

  /** No session is accepted, no wakeup is spurious, and the stop flag is not set. */
  ghost predicate AllInternal(s: Running, sched: seq<Action>)
    decreases |sched|
  {
    sched != [] ==> Internal(s, sched[0]) && AllInternal(Next(s, sched[0]), sched[1..])
  }

  /** However the threads are then scheduled, they go on at most `Work(s)` times. */
  lemma {:induction false} MovesAreBounded(s: Running, sched: seq<Action>)
    requires !s.stop && AllInternal(s, sched)
    ensures Moves(s, sched) <= Work(s)
    decreases |sched|
  {
    WorkIsNotNegative(s);
    if sched != [] {
      InternalKeeps(s, sched[0]);
      if Next(s, sched[0]) != s { NextUsesWork(s, sched[0]); }
      MovesAreBounded(Next(s, sched[0]), sched[1..]);
    }
  }

  lemma InternalKeeps(s: State, a: Action)
    requires Safe(s) && Internal(s, a)
    ensures var s' := Step(s, a);
            s'.accepted == s.accepted && s'.qsize == s.qsize && |s'.svc| == |s.svc| && s'.stop == s.stop
  {
    match a
    case Acc(x) => assert AccStep(s, x).accepted == s.accepted;
    case Svc(i) => assert SvcStep(s, i).accepted == s.accepted;
  }

  lemma NextUsesWork(s: Running, a: Action)
    requires !s.stop && Internal(s, a) && Next(s, a) != s
    ensures 0 <= Work(Next(s, a)) < Work(s)
  {
    StepUsesWork(s, a);
    WorkIsNotNegative(Next(s, a));
  }

  lemma {:induction false} Finish(s: Running) returns (more: seq<Action>)
    requires !s.stop && s.qsize > 0 && |s.svc| > 0
    ensures |more| <= Work(s) && AllInternal(s, more)
    ensures AllServed(Exec<Running, Action>(Next, s, more))
    ensures Exec<Running, Action>(Next, s, more).accepted == s.accepted
    decreases Work(s)
  {
    WorkIsNotNegative(s);
    if !Quiet(s) {
      var a :| Internal(s, a) && Next(s, a) != s;
      InternalKeeps(s, a);
      NextUsesWork(s, a);
      var rest := Finish(Next(s, a));
      more := [a] + rest;
      assert more[1..] == rest;
    } else {
      QuietMeansServed(s);
      more := [];
    }
  }

  /** Every run that has not been stopped can go on so that all sessions accepted so far are read and served, without
      any help from outside. */
  lemma EveryRunCanServeAll(qsize: nat, n: nat, sched: seq<Action>) returns (more: seq<Action>)
    requires qsize > 0 && n > 0 && !After(qsize, n, sched).stop
    ensures AllInternal(After(qsize, n, sched), more) && AllServed(After(qsize, n, sched + more))
    ensures After(qsize, n, sched + more).deq == After(qsize, n, sched).accepted
  {
    more := Finish(After(qsize, n, sched));
    ExecConcat<Running, Action>(Next, Start(qsize, n), sched, more);
  }

  /** And whenever in a run no thread can go on by itself, they are. */
  lemma EveryQuietRunHasServedAll(qsize: nat, n: nat, sched: seq<Action>)
    requires qsize > 0 && n > 0
    ensures var s := After(qsize, n, sched); !s.stop && Quiet(s) ==> AllServed(s)
  {
    var s := After(qsize, n, sched);
    if !s.stop && Quiet(s) { QuietMeansServed(s); }
  }
}
