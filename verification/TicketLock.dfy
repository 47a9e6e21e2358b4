/** The ticket lock of qspins.c under any number of threads walking the ring of locks: each atomic instruction is
    one step, and a run is any schedule of threads. */
module TicketLock {
  import opened RingWalk
  import opened Counting
  import opened Runs

  const WRAP := 0x1_0000

  /** The shared memory and the threads.  `qhead` and `qtail` are 16-bit counters. */
  datatype State = State(qhead: seq<nat>, qtail: seq<nat>, threads: seq<Thread>, go: bool)

  ghost predicate Sized(s: State) {
    |s.qhead| == |s.qtail| == |s.threads| && forall th :: 0 <= th < |s.threads| ==> ThreadOk(s.threads[th], |s.threads|)
  }

  function Init(n: nat): State {
    State(seq(n, _ => 0), seq(n, _ => 0), seq(n, i requires 0 <= i < n => Start(i)), false)
  }

  function Set(s: State, th: nat, t: Thread): State
    requires th < |s.threads|
  {
    s.(threads := s.threads[th := t])
  }

  /** One instruction of thread `th`; a failed spin test and a thread that is waiting for `go` stay where they are. */
  function Step(s: State, th: nat): (s': State)
    requires Sized(s) && th < |s.threads|
    ensures Sized(s') && |s'.threads| == |s.threads|
  {
    var t := s.threads[th];
    match t.pc
    case Acquire =>  // lock ; xaddw
      Set(s, th, t.(pc := Wait, pos := s.qhead[t.k])).(qhead := s.qhead[t.k := (s.qhead[t.k] + 1) % WRAP])
    case Wait =>
      if t.pos == s.qtail[t.k] then Set(s, th, Acquired(t)) else s
    case Go =>
      if s.go then Set(s, th, t.(pc := Release)) else s
    case Release =>  // addw $1
      Set(s, th, t.(pc := Advance)).(qtail := s.qtail[t.k := (s.qtail[t.k] + 1) % WRAP])
    case Advance =>
      Set(s, th, Advanced(t, |s.threads|))
    case Last =>
      Set(s, th, t.(pc := Done)).(qtail := s.qtail[t.k := (s.qtail[t.k] + 1) % WRAP])
    case Done => s
  }

  /** What an observer of the lock operations writes down, per lock: the threads that took a ticket, that got the
      lock and that released it, each in order; and per thread, the number of its last ticket. */
  datatype Log = Log(arrivals: seq<seq<nat>>, grants: seq<seq<nat>>, releases: seq<seq<nat>>, ticket: seq<nat>)

  function EmptyLog(n: nat): Log {
    Log(seq(n, _ => []), seq(n, _ => []), seq(n, _ => []), seq(n, _ => 0))
  }

  ghost predicate LogSized(g: Log, n: nat) {
    |g.arrivals| == |g.grants| == |g.releases| == |g.ticket| == n
  }

  function Observe(s: State, g: Log, th: nat): (g': Log)
    requires Sized(s) && th < |s.threads| && LogSized(g, |s.threads|)
    ensures LogSized(g', |s.threads|)
  {
    var t := s.threads[th];
    var l := t.k;
    match t.pc
    case Acquire => g.(arrivals := g.arrivals[l := g.arrivals[l] + [th]], ticket := g.ticket[th := |g.arrivals[l]|])
    case Wait => if t.pos == s.qtail[l] then g.(grants := g.grants[l := g.grants[l] + [th]]) else g
    case Release => g.(releases := g.releases[l := g.releases[l] + [th]])
    case Last => g.(releases := g.releases[l := g.releases[l] + [th]])
    case _ => g
  }

  // ---------------------------------------------------------------- the invariant

  /** Releases follow grants and grants follow arrivals, in the same order, with at most one grant open. */
  ghost predicate InOrder(g: Log, l: nat)
    requires l < |g.arrivals| && l < |g.grants| && l < |g.releases|
  {
    && g.releases[l] <= g.grants[l] <= g.arrivals[l]
    && |g.grants[l]| <= |g.releases[l]| + 1
  }

  /** The 16-bit counters are the residues of the unbounded ticket numbers, and the tickets not yet granted, and the
      one granted but not released, belong to threads that are at that lock. */
  ghost predicate LockOk(s: State, g: Log, l: nat)
    requires Sized(s) && LogSized(g, |s.threads|) && l < |s.threads|
  {
    && InOrder(g, l)
    && s.qhead[l] == |g.arrivals[l]| % WRAP && s.qtail[l] == |g.releases[l]| % WRAP
    && (forall x :: |g.releases[l]| <= x < |g.arrivals[l]| ==>
          && g.arrivals[l][x] < |s.threads| && g.ticket[g.arrivals[l][x]] == x
          && s.threads[g.arrivals[l][x]].k == l
          && if x < |g.grants[l]| then Owns(s.threads[g.arrivals[l][x]], l) else s.threads[g.arrivals[l][x]].pc.Wait?)
  }

  ghost predicate ThreadHolds(s: State, g: Log, th: nat)
    requires Sized(s) && LogSized(g, |s.threads|) && th < |s.threads|
  {
    var t := s.threads[th];
    var x := g.ticket[th];
    && (t.pc.Wait? ==> |g.grants[t.k]| <= x < |g.arrivals[t.k]| && g.arrivals[t.k][x] == th && t.pos == x % WRAP)
    && (Owns(t, t.k) ==> |g.releases[t.k]| == x < |g.grants[t.k]| && g.grants[t.k][x] == th)
  }

  ghost predicate Inv(s: State, g: Log) {
    && Sized(s) && LogSized(g, |s.threads|) && |s.threads| <= WRAP
    && (forall l {:trigger LockOk(s, g, l)} :: 0 <= l < |s.threads| ==> LockOk(s, g, l))
    && (forall th {:trigger ThreadHolds(s, g, th)} :: 0 <= th < |s.threads| ==> ThreadHolds(s, g, th))
  }

  /** At most as many tickets are open as there are threads. */
  lemma OpenTickets(s: State, g: Log, l: nat)
    requires Inv(s, g) && l < |s.threads|
    ensures |g.arrivals[l]| - |g.releases[l]| <= |s.threads|
  {
    assert LockOk(s, g, l);
    Pigeonhole(g.arrivals[l][|g.releases[l]|..], |s.threads|);
  }

  /** The 16-bit comparison of a spinning thread is the comparison of the unbounded ticket numbers. */
  lemma SpinTestIsExact(s: State, g: Log, th: nat)
    requires Inv(s, g) && th < |s.threads| && s.threads[th].pc.Wait?
    ensures var t := s.threads[th];
            t.pos == s.qtail[t.k] <==> g.ticket[th] == |g.releases[t.k]| == |g.grants[t.k]|
  {
    var t := s.threads[th];
    assert ThreadHolds(s, g, th) && LockOk(s, g, t.k);
    OpenTickets(s, g, t.k);
    var x, r := g.ticket[th], |g.releases[t.k]|;
    assert 0 <= x - r < WRAP;
    assert x % WRAP == r % WRAP ==> (x - r) % WRAP == 0;
  }

  lemma TicketedLockOk(s: State, g: Log, th: nat, l: nat)
    requires Inv(s, g) && th < |s.threads| && s.threads[th].pc.Acquire? && l < |s.threads|
    ensures LockOk(Step(s, th), Observe(s, g, th), l)
  {
    assert LockOk(s, g, l);
  }

  lemma TicketKeepsInv(s: State, g: Log, th: nat)
    requires Inv(s, g) && th < |s.threads| && s.threads[th].pc.Acquire?
    ensures Inv(Step(s, th), Observe(s, g, th))
  {
    var s', g' := Step(s, th), Observe(s, g, th);
    forall l {:trigger LockOk(s', g', l)} | 0 <= l < |s.threads| ensures LockOk(s', g', l) {
      TicketedLockOk(s, g, th, l);
    }
    forall u {:trigger ThreadHolds(s', g', u)} | 0 <= u < |s.threads| ensures ThreadHolds(s', g', u) {
      assert ThreadHolds(s, g, u) && LockOk(s, g, s.threads[th].k) && LockOk(s, g, s.threads[u].k);
    }
  }

  lemma GrantKeepsInv(s: State, g: Log, th: nat)
    requires Inv(s, g) && th < |s.threads| && s.threads[th].pc.Wait? && s.threads[th].pos == s.qtail[s.threads[th].k]
    ensures Inv(Step(s, th), Observe(s, g, th))
  {
    SpinTestIsExact(s, g, th);
    var s', g' := Step(s, th), Observe(s, g, th);
    var k := s.threads[th].k;
    assert ThreadHolds(s, g, th) && LockOk(s, g, k);
    forall l {:trigger LockOk(s', g', l)} | 0 <= l < |s.threads| ensures LockOk(s', g', l) {
      assert LockOk(s, g, l);
    }
    forall u {:trigger ThreadHolds(s', g', u)} | 0 <= u < |s.threads| ensures ThreadHolds(s', g', u) {
      assert ThreadHolds(s, g, u) && LockOk(s, g, s.threads[u].k);
    }
  }

  lemma ReleasedLockOk(s: State, g: Log, th: nat)
    requires Inv(s, g) && th < |s.threads| && (s.threads[th].pc.Release? || s.threads[th].pc.Last?)
    ensures LockOk(Step(s, th), Observe(s, g, th), s.threads[th].k)
  {
    assert ThreadHolds(s, g, th) && LockOk(s, g, s.threads[th].k);
  }

  lemma ReleaseLeavesOthers(s: State, g: Log, th: nat, l: nat)
    requires Inv(s, g) && th < |s.threads| && (s.threads[th].pc.Release? || s.threads[th].pc.Last?)
    requires l < |s.threads| && l != s.threads[th].k
    ensures LockOk(Step(s, th), Observe(s, g, th), l)
  {
    assert LockOk(s, g, l);
  }

  lemma ReleaseKeepsInv(s: State, g: Log, th: nat)
    requires Inv(s, g) && th < |s.threads| && (s.threads[th].pc.Release? || s.threads[th].pc.Last?)
    ensures Inv(Step(s, th), Observe(s, g, th))
  {
    var s', g' := Step(s, th), Observe(s, g, th);
    assert ThreadHolds(s, g, th) && LockOk(s, g, s.threads[th].k);
    forall l {:trigger LockOk(s', g', l)} | 0 <= l < |s.threads| ensures LockOk(s', g', l) {
      if l == s.threads[th].k { ReleasedLockOk(s, g, th); } else { ReleaseLeavesOthers(s, g, th, l); }
    }
    forall u {:trigger ThreadHolds(s', g', u)} | 0 <= u < |s.threads| ensures ThreadHolds(s', g', u) {
      assert ThreadHolds(s, g, u) && LockOk(s, g, s.threads[u].k);
    }
  }

  lemma OtherKeepsInv(s: State, g: Log, th: nat)
    requires Inv(s, g) && th < |s.threads|
    requires var t := s.threads[th]; t.pc.Go? || t.pc.Advance? || t.pc.Done? || (t.pc.Wait? && t.pos != s.qtail[t.k])
    ensures Inv(Step(s, th), Observe(s, g, th))
  {
    var s', g' := Step(s, th), Observe(s, g, th);
    forall l {:trigger LockOk(s', g', l)} | 0 <= l < |s.threads| ensures LockOk(s', g', l) {
      assert LockOk(s, g, l);
    }
    forall u {:trigger ThreadHolds(s', g', u)} | 0 <= u < |s.threads| ensures ThreadHolds(s', g', u) {
      assert ThreadHolds(s, g, u);
    }
  }

  lemma StepKeepsInv(s: State, g: Log, th: nat)
    requires Inv(s, g) && th < |s.threads|
    ensures Inv(Step(s, th), Observe(s, g, th))
  {
    var t := s.threads[th];
    if t.pc.Acquire? { TicketKeepsInv(s, g, th); }
    else if t.pc.Wait? && t.pos == s.qtail[t.k] { GrantKeepsInv(s, g, th); }
    else if t.pc.Release? || t.pc.Last? { ReleaseKeepsInv(s, g, th); }
    else { OtherKeepsInv(s, g, th); }
  }

  lemma InitKeepsInv(n: nat)
    requires n <= WRAP
    ensures Inv(Init(n), EmptyLog(n))
  {
    var s0, g0 := Init(n), EmptyLog(n);
    forall l {:trigger LockOk(s0, g0, l)} | 0 <= l < n ensures LockOk(s0, g0, l) {}
    forall u {:trigger ThreadHolds(s0, g0, u)} | 0 <= u < n ensures ThreadHolds(s0, g0, u) {}
  }

  // ---------------------------------------------------------------- whole runs

  /** A state with its log. */
  type Config = c: (State, Log) | Sized(c.0) && LogSized(c.1, |c.0.threads|) ghost witness (Init(0), EmptyLog(0))

  /** What a scheduling choice does; the choice of a thread that does not exist does nothing. */
  function Next(c: Config, a: Action): Config {
    match a
    case SetGo => (c.0.(go := true), c.1)
    case Run(th) => if th < |c.0.threads| then (Step(c.0, th), Observe(c.0, c.1, th)) else c
  }

  /** State and log of `n` threads after a schedule. */
  ghost function After(n: nat, sched: seq<Action>): (c: Config)
    ensures |c.0.threads| == n
  {
    ExecKeeps<Config, Action>(Next, (c: Config) => |c.0.threads| == n, (Init(n), EmptyLog(n)), sched);
    Exec<Config, Action>(Next, (Init(n), EmptyLog(n)), sched)
  }

  lemma StepContinues(s: State, th: nat)
    requires Sized(s) && th < |s.threads|
    ensures var t' := Step(s, th).threads[th];
            Step(s, th).threads == s.threads[th := t'] && Continues(s.threads[th], t', |s.threads|)
  {
  }

  lemma NextKeepsInv(c: Config, a: Action)
    requires Inv(c.0, c.1)
    ensures Inv(Next(c, a).0, Next(c, a).1)
  {
    var (s, g) := c;
    match a
    case SetGo =>
      var s' := s.(go := true);
      forall l {:trigger LockOk(s', g, l)} | 0 <= l < |s.threads| ensures LockOk(s', g, l) { assert LockOk(s, g, l); }
      forall u {:trigger ThreadHolds(s', g, u)} | 0 <= u < |s.threads| ensures ThreadHolds(s', g, u) {
        assert ThreadHolds(s, g, u);
      }
    case Run(th) =>
      if th < |s.threads| { StepKeepsInv(s, g, th); }
  }

  /** Every run keeps the invariant. */
  lemma EveryRunKeepsInv(n: nat, sched: seq<Action>)
    requires n <= WRAP
    ensures Inv(After(n, sched).0, After(n, sched).1)
  {
    InitKeepsInv(n);
    forall c: Config, a | Inv(c.0, c.1) ensures Inv(Next(c, a).0, Next(c, a).1) { NextKeepsInv(c, a); }
    ExecKeeps<Config, Action>(Next, (c: Config) => Inv(c.0, c.1), (Init(n), EmptyLog(n)), sched);
  }

  /** In the log, lock `l` is granted to `th` and not yet released. */
  ghost predicate Holder(g: Log, l: nat, th: nat)
    requires l < |g.grants| && l < |g.releases|
  {
    |g.releases[l]| < |g.grants[l]| && g.grants[l][|g.releases[l]|] == th
  }

  /** A thread is at a program point where it owns a lock exactly if the log says so. */
  lemma OwnerIsHolder(s: State, g: Log, l: nat, th: nat)
    requires Inv(s, g) && l < |s.threads| && th < |s.threads|
    ensures Owns(s.threads[th], l) <==> Holder(g, l, th)
  {
    assert LockOk(s, g, l) && ThreadHolds(s, g, th);
  }

  /** For up to 65536 threads and every schedule: each lock is granted in the order in which its tickets were taken
      and to one thread at a time, only the thread it was granted to releases it, no more than 65536 tickets of a lock
      are ever open, the owner by program counter is the one the log names, no two threads own the same lock, and no
      thread holds two. */
  lemma EveryRunIsFifoAndExclusive(n: nat, sched: seq<Action>)
    requires n <= 65536
    ensures var (s, g) := After(n, sched);
            && (forall l :: 0 <= l < n ==> InOrder(g, l) && |g.arrivals[l]| - |g.releases[l]| <= n)
            && (forall l, th {:trigger Owns(s.threads[th], l)} :: 0 <= l < n && 0 <= th < n ==>
                  (Owns(s.threads[th], l) <==> Holder(g, l, th)))
            && (forall l, th, u {:trigger Owns(s.threads[th], l), Owns(s.threads[u], l)} ::
                  0 <= th < n && 0 <= u < n && Owns(s.threads[th], l) && Owns(s.threads[u], l) ==> th == u)
            && (forall l, m, th {:trigger Holder(g, l, th), Holder(g, m, th)} ::
                  0 <= l < n && 0 <= m < n && Holder(g, l, th) && Holder(g, m, th) ==> l == m)
  {
    EveryRunKeepsInv(n, sched);
    var (s, g) := After(n, sched);
    forall l | 0 <= l < n ensures InOrder(g, l) && |g.arrivals[l]| - |g.releases[l]| <= n {
      assert LockOk(s, g, l);
      OpenTickets(s, g, l);
    }
    forall l, th | 0 <= l < n && 0 <= th < n ensures Owns(s.threads[th], l) <==> Holder(g, l, th) {
      OwnerIsHolder(s, g, l, th);
    }
    forall l, m, th | 0 <= l < n && 0 <= m < n && Holder(g, l, th) && Holder(g, m, th) ensures l == m {
      assert LockOk(s, g, l) && LockOk(s, g, m);
    }
  }

  // ---------------------------------------------------------------- progress

  /** Once `go` is set, as long as some thread is unfinished, some thread can do more than spin. */
  lemma SomeThreadMoves(s: State, g: Log, u: nat) returns (th: nat)
    requires Inv(s, g) && s.go && u < |s.threads| && !s.threads[u].pc.Done?
    ensures th < |s.threads| && Step(s, th) != s
  {
    var t := s.threads[u];
    th := u;
    if t.pc.Wait? {
      assert ThreadHolds(s, g, u) && LockOk(s, g, t.k);
      th := g.arrivals[t.k][|g.releases[t.k]|];
      if s.threads[th].pc.Wait? {
        SpinTestIsExact(s, g, th);
      }
    }
  }

  /** In every run, once `go` is set and as long as some thread `u` is unfinished, some thread can do more than spin. */
  lemma EveryRunCanGoOn(n: nat, sched: seq<Action>, u: nat)
    requires n <= WRAP && u < n
    requires var s := After(n, sched).0; s.go && !s.threads[u].pc.Done?
    ensures var s := After(n, sched).0; exists th: nat :: th < n && Step(s, th) != s
  {
    EveryRunKeepsInv(n, sched);
    var (s, g) := After(n, sched);
    var th := SomeThreadMoves(s, g, u);
  }

  /** Instructions a thread still has to execute, not counting spins. */
  function Work(t: Thread): int {
    var rounds := (MAX_SAMPLES - t.j) * NR_ITERS - t.i;
    match t.pc
    case Acquire => if t.first then 4 * rounds + 4 else 4 * rounds - 1
    case Wait => if t.first then 4 * rounds + 3 else 4 * rounds - 2
    case Go => 4 * rounds + 2
    case Release => 4 * rounds + 1
    case Advance => 4 * rounds
    case Last => 1
    case Done => 0
  }

  function TotalWork(ts: seq<Thread>): int {
    Total(Work, ts)
  }

  lemma StateWorkLeft(s: State)
    requires Sized(s)
    ensures TotalWork(s.threads) >= 0
    ensures TotalWork(s.threads) == 0 <==> forall t :: t in s.threads ==> t.pc.Done?
  {
    forall t | t in s.threads ensures Work(t) >= 0 && (Work(t) == 0 <==> t.pc.Done?) {
      assert ThreadOk(t, |s.threads|);
    }
    WorkLeft(Work, s.threads);
  }

  lemma StepUsesWork(s: State, th: nat)
    requires Sized(s) && th < |s.threads|
    ensures TotalWork(Step(s, th).threads) == TotalWork(s.threads) - if Step(s, th) != s then 1 else 0
  {
    var t' := Step(s, th).threads[th];
    assert Step(s, th) != s ==> Work(t') == Work(s.threads[th]) - 1;
    assert Step(s, th).threads == s.threads[th := t'];
    TotalAfterUpdate(Work, s.threads, th, t');
  }

  /** The number of instructions of a schedule that are not spins. */
  ghost function Moves(c: Config, sched: seq<Action>): nat
    decreases |sched|
  {
    if sched == [] then 0 else
    (if sched[0].Run? && Next(c, sched[0]).0 != c.0 then 1 else 0) + Moves(Next(c, sched[0]), sched[1..])
  }

  /** Every instruction that is not a spin uses up one unit of work, whatever the schedule. */
  lemma {:induction false} MovesUseWork(c: Config, sched: seq<Action>)
    ensures TotalWork(Exec<Config, Action>(Next, c, sched).0.threads) == TotalWork(c.0.threads) - Moves(c, sched)
    decreases |sched|
  {
    if sched != [] {
      var a := sched[0];
      if a.Run? && a.th < |c.0.threads| { StepUsesWork(c.0, a.th); }
      MovesUseWork(Next(c, a), sched[1..]);
    }
  }

  /** No schedule has more of them than the threads have work, and it has as many exactly if it ends with all done. */
  lemma MovesAreBounded(c: Config, sched: seq<Action>)
    ensures Moves(c, sched) <= TotalWork(c.0.threads)
    ensures Moves(c, sched) == TotalWork(c.0.threads) <==>
            forall t :: t in Exec<Config, Action>(Next, c, sched).0.threads ==> t.pc.Done?
  {
    MovesUseWork(c, sched);
    var s := Exec<Config, Action>(Next, c, sched).0;
    StateWorkLeft(s);
  }

  lemma {:induction false} Finish(c: Config) returns (more: seq<Action>)
    requires Inv(c.0, c.1) && c.0.go
    ensures |more| == TotalWork(c.0.threads)
    ensures forall t :: t in Exec<Config, Action>(Next, c, more).0.threads ==> t.pc.Done?
    decreases TotalWork(c.0.threads)
  {
    StateWorkLeft(c.0);
    more := [];
    if u :| 0 <= u < |c.0.threads| && !c.0.threads[u].pc.Done? {
      var th := SomeThreadMoves(c.0, c.1, u);
      StepUsesWork(c.0, th);
      NextKeepsInv(c, Run(th));
      more := Finish(Next(c, Run(th)));
      assert ([Run(th)] + more)[1..] == more;
      more := [Run(th)] + more;
    }
  }

  /** No run is stuck: whatever was scheduled, setting `go` and scheduling the threads that can move, as often as
      there is work left, ends with all threads done. */
  lemma EveryRunCanFinish(n: nat, sched: seq<Action>) returns (more: seq<Action>)
    requires n <= WRAP
    ensures |more| == TotalWork(After(n, sched).0.threads) + 1
    ensures forall t :: t in After(n, sched + more).0.threads ==> t.pc.Done?
  {
    EveryRunKeepsInv(n, sched);
    var c := After(n, sched);
    NextKeepsInv(c, SetGo);
    var rest := Finish(Next(c, SetGo));
    more := [SetGo] + rest;
    assert more[1..] == rest;
    ExecConcat<Config, Action>(Next, (Init(n), EmptyLog(n)), sched, more);
  }

  // ---------------------------------------------------------------- the start signal

  /** Until `go` is set every thread is at its start, and no lock has been released. */
  ghost predicate Barred(c: Config) {
    !c.0.go ==> AllAtStart(c.0.threads) && forall l :: 0 <= l < |c.1.releases| ==> c.1.releases[l] == []
  }

  lemma NextKeepsBarred(c: Config, a: Action)
    requires Barred(c)
    ensures Barred(Next(c, a))
  {
    if a.Run? && a.th < |c.0.threads| && !c.0.go {
      assert AtStart(c.0.threads[a.th], a.th);
    }
  }

  /** In every run, until main sets `go`, each thread is taking or holding its own lock and has not gone on to any
      other, and no lock has been released. */
  lemma NobodyStartsBeforeGo(n: nat, sched: seq<Action>)
    ensures var (s, g) := After(n, sched);
            !s.go ==>
              && (forall th :: 0 <= th < n ==> s.threads[th].k == th && Hops(s.threads[th]) == 0)
              && (forall th :: 0 <= th < n ==>
                    s.threads[th].pc.Acquire? || s.threads[th].pc.Wait? || s.threads[th].pc.Go?)
              && (forall l :: 0 <= l < n ==> g.releases[l] == [])
  {
    forall c, a | Barred(c) ensures Barred(Next(c, a)) { NextKeepsBarred(c, a); }
    ExecKeeps<Config, Action>(Next, Barred, (Init(n), EmptyLog(n)), sched);
    var (s, g) := After(n, sched);
    assert !s.go ==> forall th :: 0 <= th < n ==> AtStart(s.threads[th], th);
  }

  // ---------------------------------------------------------------- the walk

  /** In every run each thread is at the lock its hops lead to from its own; a finished thread has made all
      32 * 100 of them. */
  lemma EveryThreadWalksTheRing(n: nat, sched: seq<Action>, th: nat)
    requires th < n
    ensures var t := After(n, sched).0.threads[th];
            t.k == (th + Hops(t)) % n && Hops(t) <= 32 * 100 && (t.pc.Last? || t.pc.Done? ==> Hops(t) == 32 * 100)
  {
    var onTrack := (c: Config) => AllOnTrack(c.0.threads);
    forall c, a | onTrack(c) ensures onTrack(Next(c, a)) {
      if a.Run? && a.th < |c.0.threads| {
        StepContinues(c.0, a.th);
        ContinuesOnTrack(c.0.threads, a.th, Step(c.0, a.th).threads[a.th]);
      }
    }
    StartIsOnTrack(Init(n).threads);
    ExecKeeps<Config, Action>(Next, onTrack, (Init(n), EmptyLog(n)), sched);
    var t := After(n, sched).0.threads[th];
    assert OnTrack(t, th, n) && ThreadOk(t, n);
  }
}
