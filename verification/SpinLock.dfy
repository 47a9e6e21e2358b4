/** The decrement spinlock of qspins.c under any number of threads walking the ring of locks. */
module SpinLock {
  import opened Common
  import opened RingWalk
  import opened Counting
  import opened Runs

  /** `slock` holds the 32-bit lock words. */
  datatype State = State(slock: seq<nat>, threads: seq<Thread>, go: bool)

  ghost predicate Sized(s: State) {
    |s.slock| == |s.threads| && forall th :: 0 <= th < |s.threads| ==> ThreadOk(s.threads[th], |s.threads|)
  }

  /** The word as the sign flag and the signed comparison read it. */
  function Signed(w: nat): int {
    if w < TWO_TO_THE_31 then w else w - TWO_TO_THE_32
  }

  function Decremented(w: nat): nat {
    if w == 0 then TWO_TO_THE_32 - 1 else w - 1
  }

  function Init(n: nat): State {
    State(seq(n, _ => 1), seq(n, i requires 0 <= i < n => Start(i)), false)
  }

  function Set(s: State, th: nat, t: Thread): State
    requires th < |s.threads|
  {
    s.(threads := s.threads[th := t])
  }

  /** One instruction of thread `th`. */
  function Step(s: State, th: nat): (s': State)
    requires Sized(s) && th < |s.threads|
    ensures Sized(s') && |s'.threads| == |s.threads|
  {
    var t := s.threads[th];
    match t.pc
    case Acquire =>  // lock ; decl, then jns on the result
      var w := Decremented(s.slock[t.k]);
      Set(s, th, if Signed(w) >= 0 then Acquired(t) else t.(pc := Wait)).(slock := s.slock[t.k := w])
    case Wait =>  // cmpl $0, then jle back to the comparison
      if Signed(s.slock[t.k]) <= 0 then s else Set(s, th, t.(pc := Acquire))
    case Go =>
      if s.go then Set(s, th, t.(pc := Release)) else s
    case Release =>  // movl $1
      Set(s, th, t.(pc := Advance)).(slock := s.slock[t.k := 1])
    case Advance =>
      Set(s, th, Advanced(t, |s.threads|))
    case Last =>
      Set(s, th, t.(pc := Done)).(slock := s.slock[t.k := 1])
    case Done => s
  }

  /** Per lock: the grants and the releases in order, and the threads that decremented it since the last release. */
  datatype Log = Log(grants: seq<seq<nat>>, releases: seq<seq<nat>>, since: seq<set<nat>>)

  function EmptyLog(n: nat): Log {
    Log(seq(n, _ => []), seq(n, _ => []), seq(n, _ => {}))
  }

  ghost predicate LogSized(g: Log, n: nat) {
    |g.grants| == |g.releases| == |g.since| == n
  }

  function Observe(s: State, g: Log, th: nat): (g': Log)
    requires Sized(s) && th < |s.threads| && LogSized(g, |s.threads|)
    ensures LogSized(g', |s.threads|)
  {
    var t := s.threads[th];
    var l := t.k;
    match t.pc
    case Acquire =>
      g.(since := g.since[l := g.since[l] + {th}],
         grants := if Signed(Decremented(s.slock[l])) >= 0 then g.grants[l := g.grants[l] + [th]] else g.grants)
    case Release => g.(releases := g.releases[l := g.releases[l] + [th]], since := g.since[l := {}])
    case Last => g.(releases := g.releases[l := g.releases[l] + [th]], since := g.since[l := {}])
    case _ => g
  }

  // ---------------------------------------------------------------- the invariant

  /** Grants and releases alternate, each release by the thread that was granted the lock. */
  ghost predicate Alternate(g: Log, l: nat)
    requires l < |g.grants| && l < |g.releases|
  {
    g.releases[l] <= g.grants[l] && |g.grants[l]| <= |g.releases[l]| + 1
  }

  ghost predicate Holder(g: Log, l: nat, th: nat)
    requires l < |g.grants| && l < |g.releases|
  {
    |g.releases[l]| < |g.grants[l]| && g.grants[l][|g.releases[l]|] == th
  }

  /** The word is 1 less one for each decrement since the last release; the lock is free exactly if there was none. */
  ghost predicate LockOk(s: State, g: Log, l: nat)
    requires Sized(s) && LogSized(g, |s.threads|) && l < |s.threads|
  {
    && Alternate(g, l)
    && s.slock[l] < TWO_TO_THE_32 && Signed(s.slock[l]) == 1 - |g.since[l]|
    && (forall th :: th in g.since[l] ==>
          && th < |s.threads| && s.threads[th].k == l
          && if Holder(g, l, th) then Owns(s.threads[th], l) else s.threads[th].pc.Wait?)
    && (|g.grants[l]| == |g.releases[l]| ==> g.since[l] == {})
    && (|g.grants[l]| > |g.releases[l]| ==> g.grants[l][|g.releases[l]|] in g.since[l])
  }

  ghost predicate OwnerHolds(s: State, g: Log, th: nat)
    requires Sized(s) && LogSized(g, |s.threads|) && th < |s.threads|
  {
    Owns(s.threads[th], s.threads[th].k) ==> Holder(g, s.threads[th].k, th)
  }

  ghost predicate Inv(s: State, g: Log) {
    && Sized(s) && LogSized(g, |s.threads|) && |s.threads| <= TWO_TO_THE_31
    && (forall l {:trigger LockOk(s, g, l)} :: 0 <= l < |s.threads| ==> LockOk(s, g, l))
    && (forall th {:trigger OwnerHolds(s, g, th)} :: 0 <= th < |s.threads| ==> OwnerHolds(s, g, th))
  }

  /** Between two releases each thread decrements at most once, so the word stays between 1 - N and 1. */
  lemma WordInRange(s: State, g: Log, l: nat)
    requires Inv(s, g) && l < |s.threads|
    ensures |g.since[l]| <= |s.threads|
    ensures Signed(s.slock[l]) == 1 - |g.since[l]|
    ensures 1 - |s.threads| <= Signed(s.slock[l]) <= 1
  {
    assert LockOk(s, g, l);
    Subset(g.since[l], UpTo(|s.threads|));
  }

  /** The decrement takes the lock exactly if it is free, and the comparison ends the spin exactly if it is free. */
  lemma SignTestIsExact(s: State, g: Log, l: nat)
    requires Inv(s, g) && l < |s.threads| && g.since[l] < UpTo(|s.threads|)
    ensures Signed(Decremented(s.slock[l])) == -|g.since[l]|
    ensures Signed(Decremented(s.slock[l])) >= 0 <==> |g.grants[l]| == |g.releases[l]|
    ensures Signed(s.slock[l]) > 0 <==> |g.grants[l]| == |g.releases[l]|
  {
    assert LockOk(s, g, l);
    WordInRange(s, g, l);
    ProperSubset(g.since[l], UpTo(|s.threads|));
  }

  /** A thread about to decrement has not done so since the last release, and gets the lock exactly if it is free. */
  lemma DecrementIsExact(s: State, g: Log, th: nat)
    requires Inv(s, g) && th < |s.threads| && s.threads[th].pc.Acquire?
    ensures var k := s.threads[th].k;
            && th !in g.since[k] && Signed(Decremented(s.slock[k])) == -|g.since[k]|
            && (Signed(Decremented(s.slock[k])) >= 0 <==> |g.grants[k]| == |g.releases[k]|)
            && (|g.grants[k]| == |g.releases[k]| <==> g.since[k] == {})
  {
    var k := s.threads[th].k;
    assert LockOk(s, g, k);
    assert th !in g.since[k] && th in UpTo(|s.threads|);
    SignTestIsExact(s, g, k);
  }

  lemma DecrementedMember(s: State, g: Log, th: nat, u: nat)
    requires Inv(s, g) && th < |s.threads| && s.threads[th].pc.Acquire?
    requires u == th || u in g.since[s.threads[th].k]
    ensures var k, s', g' := s.threads[th].k, Step(s, th), Observe(s, g, th);
            && u < |s.threads| && s'.threads[u].k == k
            && if Holder(g', k, u) then Owns(s'.threads[u], k) else s'.threads[u].pc.Wait?
  {
    assert LockOk(s, g, s.threads[th].k);
    DecrementIsExact(s, g, th);
  }

  lemma DecrementedLockOk(s: State, g: Log, th: nat)
    requires Inv(s, g) && th < |s.threads| && s.threads[th].pc.Acquire?
    ensures LockOk(Step(s, th), Observe(s, g, th), s.threads[th].k)
  {
    var k, g' := s.threads[th].k, Observe(s, g, th);
    assert LockOk(s, g, k);
    DecrementIsExact(s, g, th);
    assert g'.since[k] == g.since[k] + {th};
    forall u | u in g'.since[k]
      ensures u < |s.threads| && Step(s, th).threads[u].k == k
      ensures if Holder(g', k, u) then Owns(Step(s, th).threads[u], k) else Step(s, th).threads[u].pc.Wait?
    {
      DecrementedMember(s, g, th, u);
    }
  }

  lemma DecrementLeavesOthers(s: State, g: Log, th: nat, l: nat)
    requires Inv(s, g) && th < |s.threads| && s.threads[th].pc.Acquire? && l < |s.threads| && l != s.threads[th].k
    ensures LockOk(Step(s, th), Observe(s, g, th), l)
  {
    assert LockOk(s, g, l);
  }

  lemma DecrementedOwner(s: State, g: Log, th: nat, u: nat)
    requires Inv(s, g) && th < |s.threads| && s.threads[th].pc.Acquire? && u < |s.threads|
    ensures OwnerHolds(Step(s, th), Observe(s, g, th), u)
  {
    DecrementIsExact(s, g, th);
    assert OwnerHolds(s, g, u) && LockOk(s, g, s.threads[u].k);
  }

  lemma DecrementKeepsInv(s: State, g: Log, th: nat)
    requires Inv(s, g) && th < |s.threads| && s.threads[th].pc.Acquire?
    ensures Inv(Step(s, th), Observe(s, g, th))
  {
    var s', g' := Step(s, th), Observe(s, g, th);
    forall l {:trigger LockOk(s', g', l)} | 0 <= l < |s.threads| ensures LockOk(s', g', l) {
      if l == s.threads[th].k { DecrementedLockOk(s, g, th); } else { DecrementLeavesOthers(s, g, th, l); }
    }
    forall u {:trigger OwnerHolds(s', g', u)} | 0 <= u < |s.threads| ensures OwnerHolds(s', g', u) {
      DecrementedOwner(s, g, th, u);
    }
  }

  lemma ReleaseKeepsInv(s: State, g: Log, th: nat)
    requires Inv(s, g) && th < |s.threads| && (s.threads[th].pc.Release? || s.threads[th].pc.Last?)
    ensures Inv(Step(s, th), Observe(s, g, th))
  {
    var s', g' := Step(s, th), Observe(s, g, th);
    var k := s.threads[th].k;
    assert OwnerHolds(s, g, th) && LockOk(s, g, k);
    forall l {:trigger LockOk(s', g', l)} | 0 <= l < |s.threads| ensures LockOk(s', g', l) {
      assert LockOk(s, g, l);
    }
    forall u {:trigger OwnerHolds(s', g', u)} | 0 <= u < |s.threads| ensures OwnerHolds(s', g', u) {
      assert OwnerHolds(s, g, u) && LockOk(s, g, s.threads[u].k);
    }
  }

  lemma OtherKeepsInv(s: State, g: Log, th: nat)
    requires Inv(s, g) && th < |s.threads|
    requires var t := s.threads[th]; t.pc.Wait? || t.pc.Go? || t.pc.Advance? || t.pc.Done?
    ensures Inv(Step(s, th), Observe(s, g, th))
  {
    var s', g' := Step(s, th), Observe(s, g, th);
    var k := s.threads[th].k;
    assert LockOk(s, g, k);
    WordInRange(s, g, k);
    forall l {:trigger LockOk(s', g', l)} | 0 <= l < |s.threads| ensures LockOk(s', g', l) {
      assert LockOk(s, g, l);
    }
    forall u {:trigger OwnerHolds(s', g', u)} | 0 <= u < |s.threads| ensures OwnerHolds(s', g', u) {
      assert OwnerHolds(s, g, u) && LockOk(s, g, s.threads[u].k);
    }
  }

  lemma StepKeepsInv(s: State, g: Log, th: nat)
    requires Inv(s, g) && th < |s.threads|
    ensures Inv(Step(s, th), Observe(s, g, th))
  {
    var t := s.threads[th];
    if t.pc.Acquire? { DecrementKeepsInv(s, g, th); }
    else if t.pc.Release? || t.pc.Last? { ReleaseKeepsInv(s, g, th); }
    else { OtherKeepsInv(s, g, th); }
  }

  lemma InitKeepsInv(n: nat)
    requires n <= TWO_TO_THE_31
    ensures Inv(Init(n), EmptyLog(n))
  {
    var s0, g0 := Init(n), EmptyLog(n);
    forall l {:trigger LockOk(s0, g0, l)} | 0 <= l < n ensures LockOk(s0, g0, l) {}
    forall u {:trigger OwnerHolds(s0, g0, u)} | 0 <= u < n ensures OwnerHolds(s0, g0, u) {}
  }

  // ---------------------------------------------------------------- whole runs

  /** A state with its log. */
  type Config = c: (State, Log) | Sized(c.0) && LogSized(c.1, |c.0.threads|) ghost witness (Init(0), EmptyLog(0))

  /** What a scheduling choice does; the choice of a thread that does not exist does nothing. */
  function Next(c: Config, a: Action): Config {
    match a
    case SetGo => (c.0.(go := true), c.1)
    case Run(th) => if th < |c.0.threads| then (Step(c.0, th), Observe(c.0, c.1, th)) else c
  }

  /** State and log of `n` threads after a schedule. */
  ghost function After(n: nat, sched: seq<Action>): (c: Config)
    ensures |c.0.threads| == n
  {
    ExecKeeps<Config, Action>(Next, (c: Config) => |c.0.threads| == n, (Init(n), EmptyLog(n)), sched);
    Exec<Config, Action>(Next, (Init(n), EmptyLog(n)), sched)
  }

  lemma StepContinues(s: State, th: nat)
    requires Sized(s) && th < |s.threads|
    ensures var t' := Step(s, th).threads[th];
            Step(s, th).threads == s.threads[th := t'] && Continues(s.threads[th], t', |s.threads|)
  {
  }

  lemma NextKeepsInv(c: Config, a: Action)
    requires Inv(c.0, c.1)
    ensures Inv(Next(c, a).0, Next(c, a).1)
  {
    var (s, g) := c;
    match a
    case SetGo =>
      var s' := s.(go := true);
      forall l {:trigger LockOk(s', g, l)} | 0 <= l < |s.threads| ensures LockOk(s', g, l) { assert LockOk(s, g, l); }
      forall u {:trigger OwnerHolds(s', g, u)} | 0 <= u < |s.threads| ensures OwnerHolds(s', g, u) {
        assert OwnerHolds(s, g, u);
      }
    case Run(th) =>
      if th < |s.threads| { StepKeepsInv(s, g, th); }
  }

  /** Every run keeps the invariant. */
  lemma EveryRunKeepsInv(n: nat, sched: seq<Action>)
    requires n <= TWO_TO_THE_31
    ensures Inv(After(n, sched).0, After(n, sched).1)
  {
    InitKeepsInv(n);
    forall c: Config, a | Inv(c.0, c.1) ensures Inv(Next(c, a).0, Next(c, a).1) { NextKeepsInv(c, a); }
    ExecKeeps<Config, Action>(Next, (c: Config) => Inv(c.0, c.1), (Init(n), EmptyLog(n)), sched);
  }

  /** A thread is at a program point where it owns a lock exactly if the log says so. */
  lemma OwnerIsHolder(s: State, g: Log, l: nat, th: nat)
    requires Inv(s, g) && l < |s.threads| && th < |s.threads|
    ensures Owns(s.threads[th], l) <==> Holder(g, l, th)
  {
    assert LockOk(s, g, l) && OwnerHolds(s, g, th);
  }

  /** For up to 2^31 threads and every schedule: grants and releases of each lock alternate, every lock word stays
      between 1 - N and 1, the owner by program counter is the one the log names, no two threads own the same lock, and
      no thread holds two. */
  lemma EveryRunIsExclusiveAndInRange(n: nat, sched: seq<Action>)
    requires n <= 0x8000_0000
    ensures var (s, g) := After(n, sched);
            && (forall l :: 0 <= l < n ==> Alternate(g, l) && 1 - n <= Signed(s.slock[l]) <= 1)
            && (forall l, th {:trigger Owns(s.threads[th], l)} :: 0 <= l < n && 0 <= th < n ==>
                  (Owns(s.threads[th], l) <==> Holder(g, l, th)))
            && (forall l, th, u {:trigger Owns(s.threads[th], l), Owns(s.threads[u], l)} ::
                  0 <= th < n && 0 <= u < n && Owns(s.threads[th], l) && Owns(s.threads[u], l) ==> th == u)
            && (forall l, m, th {:trigger Holder(g, l, th), Holder(g, m, th)} ::
                  0 <= l < n && 0 <= m < n && Holder(g, l, th) && Holder(g, m, th) ==> l == m)
  {
    EveryRunKeepsInv(n, sched);
    var (s, g) := After(n, sched);
    forall l | 0 <= l < n ensures Alternate(g, l) && 1 - n <= Signed(s.slock[l]) <= 1 {
      assert LockOk(s, g, l);
      WordInRange(s, g, l);
    }
    forall l, th | 0 <= l < n && 0 <= th < n ensures Owns(s.threads[th], l) <==> Holder(g, l, th) {
      OwnerIsHolder(s, g, l, th);
    }
    forall l, m, th | 0 <= l < n && 0 <= m < n && Holder(g, l, th) && Holder(g, m, th) ensures l == m {
      assert LockOk(s, g, l) && LockOk(s, g, m);
    }
  }

  /** A step that only spins: a decrement that fails or a comparison that loops. */
  ghost predicate Spins(s: State, th: nat)
    requires Sized(s) && th < |s.threads|
  {
    var t := s.threads[th];
    || (t.pc.Acquire? && Signed(Decremented(s.slock[t.k])) < 0)
    || (t.pc.Wait? && Signed(s.slock[t.k]) <= 0)
  }

  /** Once `go` is set, as long as some thread is unfinished, some thread can do more than spin. */
  lemma SomeThreadMoves(s: State, g: Log, u: nat) returns (th: nat)
    requires Inv(s, g) && s.go && u < |s.threads| && !s.threads[u].pc.Done?
    ensures th < |s.threads| && Step(s, th) != s && !Spins(s, th)
  {
    var t := s.threads[u];
    th := u;
    if t.pc.Acquire? || t.pc.Wait? {
      assert LockOk(s, g, t.k);
      if |g.grants[t.k]| > |g.releases[t.k]| {
        th := g.grants[t.k][|g.releases[t.k]|];
      } else {
        assert u in UpTo(|s.threads|);
        SignTestIsExact(s, g, t.k);
      }
    }
  }

  /** In every run, once `go` is set and as long as some thread `u` is unfinished, some thread can do more than spin. */
  lemma EveryRunCanGoOn(n: nat, sched: seq<Action>, u: nat)
    requires n <= TWO_TO_THE_31 && u < n
    requires var s := After(n, sched).0; s.go && !s.threads[u].pc.Done?
    ensures var s := After(n, sched).0; exists th: nat :: th < n && Step(s, th) != s && !Spins(s, th)
  {
    EveryRunKeepsInv(n, sched);
    var (s, g) := After(n, sched);
    var th := SomeThreadMoves(s, g, u);
  }

  /** Instructions a thread still has to execute if no decrement fails, and one more while it waits to retry. */
  function Work(t: Thread): int {
    var rounds := (MAX_SAMPLES - t.j) * NR_ITERS - t.i;
    match t.pc
    case Acquire => if t.first then 3 * rounds + 3 else 3 * rounds - 1
    case Wait => if t.first then 3 * rounds + 4 else 3 * rounds
    case Go => 3 * rounds + 2
    case Release => 3 * rounds + 1
    case Advance => 3 * rounds
    case Last => 1
    case Done => 0
  }

  function TotalWork(ts: seq<Thread>): int {
    Total(Work, ts)
  }

  lemma StateWorkLeft(s: State)
    requires Sized(s)
    ensures TotalWork(s.threads) >= 0
    ensures TotalWork(s.threads) == 0 <==> forall t :: t in s.threads ==> t.pc.Done?
  {
    forall t | t in s.threads ensures Work(t) >= 0 && (Work(t) == 0 <==> t.pc.Done?) {
      assert ThreadOk(t, |s.threads|);
    }
    WorkLeft(Work, s.threads);
  }

  /** Every instruction that does more than spin uses up work. */
  lemma StepUsesWork(s: State, th: nat)
    requires Sized(s) && th < |s.threads| && Step(s, th) != s && !Spins(s, th)
    ensures TotalWork(Step(s, th).threads) < TotalWork(s.threads)
  {
    var t' := Step(s, th).threads[th];
    assert Work(t') < Work(s.threads[th]);
    assert Step(s, th).threads == s.threads[th := t'];
    TotalAfterUpdate(Work, s.threads, th, t');
  }

  lemma {:induction false} Finish(c: Config) returns (more: seq<Action>)
    requires Inv(c.0, c.1) && c.0.go
    ensures |more| <= TotalWork(c.0.threads)
    ensures forall t :: t in Exec<Config, Action>(Next, c, more).0.threads ==> t.pc.Done?
    decreases TotalWork(c.0.threads)
  {
    StateWorkLeft(c.0);
    more := [];
    if u :| 0 <= u < |c.0.threads| && !c.0.threads[u].pc.Done? {
      var th := SomeThreadMoves(c.0, c.1, u);
      StepUsesWork(c.0, th);
      NextKeepsInv(c, Run(th));
      more := Finish(Next(c, Run(th)));
      assert ([Run(th)] + more)[1..] == more;
      more := [Run(th)] + more;
    }
  }

  /** No run is stuck: whatever was scheduled, setting `go` and scheduling threads that do more than spin, at most as
      often as there is work left, ends with all threads done. */
  lemma EveryRunCanFinish(n: nat, sched: seq<Action>) returns (more: seq<Action>)
    requires n <= TWO_TO_THE_31
    ensures |more| <= TotalWork(After(n, sched).0.threads) + 1
    ensures forall t :: t in After(n, sched + more).0.threads ==> t.pc.Done?
  {
    EveryRunKeepsInv(n, sched);
    var c := After(n, sched);
    NextKeepsInv(c, SetGo);
    var rest := Finish(Next(c, SetGo));
    more := [SetGo] + rest;
    assert more[1..] == rest;
    ExecConcat<Config, Action>(Next, (Init(n), EmptyLog(n)), sched, more);
  }

  // ---------------------------------------------------------------- the start signal

  /** Until `go` is set every thread is at its start, and no lock has been released. */
  ghost predicate Barred(c: Config) {
    !c.0.go ==> AllAtStart(c.0.threads) && forall l :: 0 <= l < |c.1.releases| ==> c.1.releases[l] == []
  }

  lemma NextKeepsBarred(c: Config, a: Action)
    requires Barred(c)
    ensures Barred(Next(c, a))
  {
    if a.Run? && a.th < |c.0.threads| && !c.0.go {
      assert AtStart(c.0.threads[a.th], a.th);
    }
  }

  /** In every run, until main sets `go`, each thread is taking or holding its own lock and has not gone on to any
      other, and no lock has been released. */
  lemma NobodyStartsBeforeGo(n: nat, sched: seq<Action>)
    ensures var (s, g) := After(n, sched);
            !s.go ==>
              && (forall th :: 0 <= th < n ==> s.threads[th].k == th && Hops(s.threads[th]) == 0)
              && (forall th :: 0 <= th < n ==>
                    s.threads[th].pc.Acquire? || s.threads[th].pc.Wait? || s.threads[th].pc.Go?)
              && (forall l :: 0 <= l < n ==> g.releases[l] == [])
  {
    forall c, a | Barred(c) ensures Barred(Next(c, a)) { NextKeepsBarred(c, a); }
    ExecKeeps<Config, Action>(Next, Barred, (Init(n), EmptyLog(n)), sched);
    var (s, g) := After(n, sched);
    assert !s.go ==> forall th :: 0 <= th < n ==> AtStart(s.threads[th], th);
  }

  // ---------------------------------------------------------------- the walk

  /** In every run each thread is at the lock its hops lead to from its own; a finished thread has made all
      32 * 100 of them. */
  lemma EveryThreadWalksTheRing(n: nat, sched: seq<Action>, th: nat)
    requires th < n
    ensures var t := After(n, sched).0.threads[th];
            t.k == (th + Hops(t)) % n && Hops(t) <= 32 * 100 && (t.pc.Last? || t.pc.Done? ==> Hops(t) == 32 * 100)
  {
    var onTrack := (c: Config) => AllOnTrack(c.0.threads);
    forall c, a | onTrack(c) ensures onTrack(Next(c, a)) {
      if a.Run? && a.th < |c.0.threads| {
        StepContinues(c.0, a.th);
        ContinuesOnTrack(c.0.threads, a.th, Step(c.0, a.th).threads[a.th]);
      }
    }
    StartIsOnTrack(Init(n).threads);
    ExecKeeps<Config, Action>(Next, onTrack, (Init(n), EmptyLog(n)), sched);
    var t := After(n, sched).0.threads[th];
    assert OnTrack(t, th, n) && ThreadOk(t, n);
  }
}
