/** The program of one benchmark thread of qspins.c, up to how a lock is acquired: take lock `cpu`, wait for `go`,
    then MAX_SAMPLES times NR_ITERS rounds of releasing the lock held and taking the next one on the ring. */
module RingWalk {
  const MAX_SAMPLES := 32
  const NR_ITERS := 100

  /** Where a thread is.  Acquire and Wait are inside the lock operation; at Go, Release and Last it owns lock `k`. */
  datatype Pc = Acquire | Wait | Go | Release | Advance | Last | Done

  /** `k` is the lock index, `i` and `j` the loop counters, `pos` the local variable of the lock operation. */
  datatype Thread = Thread(pc: Pc, k: nat, i: nat, j: nat, first: bool, pos: nat)

  /** A scheduling choice: thread `th` executes its next instruction, or main sets `go`. */
  datatype Action = Run(th: nat) | SetGo

  predicate InLoop(t: Thread) {
    t.j < MAX_SAMPLES && t.i < NR_ITERS
  }

  predicate Owns(t: Thread, l: nat) {
    t.k == l && (t.pc.Go? || t.pc.Release? || t.pc.Last?)
  }

  function Start(cpu: nat): Thread {
    Thread(Acquire, cpu, 0, 0, true, 0)
  }

  /** What follows a successful acquisition: the wait for `go`, the next round, or the last release. */
  function Acquired(t: Thread): Thread {
    if t.first then t.(pc := Go, first := false)
    else if t.i + 1 < NR_ITERS then t.(pc := Release, i := t.i + 1)
    else if t.j + 1 < MAX_SAMPLES then t.(pc := Release, i := 0, j := t.j + 1)
    else t.(pc := Last, i := 0, j := t.j + 1)
  }

  /** The index increment between unlock and lock: `if (++k >= num_threads) k = 0`. */
  function Advanced(t: Thread, n: nat): Thread {
    t.(pc := Acquire, k := if t.k + 1 >= n then 0 else t.k + 1)
  }

  /** What the loops keep true of a thread. */
  ghost predicate ThreadOk(t: Thread, n: nat) {
    && t.k < n
    && (t.first ==> (t.pc.Acquire? || t.pc.Wait?) && t.i == t.j == 0)
    && (if t.pc.Last? || t.pc.Done? then t.i == 0 && t.j == MAX_SAMPLES else InLoop(t))
  }

  /** How many times the thread has gone on to the next lock. */
  function Hops(t: Thread): nat {
    t.j * NR_ITERS + t.i + if !t.first && (t.pc.Acquire? || t.pc.Wait?) then 1 else 0
  }

  /** The lock index is where that many hops round the ring of `n` locks lead from lock `cpu`. */
  ghost predicate OnTrack(t: Thread, cpu: nat, n: nat)
    requires n > 0
  {
    t.k == (cpu + Hops(t)) % n
  }

  /** What one instruction can make of a thread. */
  ghost predicate Continues(t: Thread, t': Thread, n: nat) {
    || t' == t
    || (t.pc.Acquire? && t' == t.(pc := Wait, pos := t'.pos))
    || (t.pc.Wait? && t' == t.(pc := Acquire))
    || ((t.pc.Acquire? || t.pc.Wait?) && t' == Acquired(t))
    || (t.pc.Go? && t' == t.(pc := Release))
    || (t.pc.Release? && t' == t.(pc := Advance))
    || (t.pc.Advance? && t' == Advanced(t, n))
    || (t.pc.Last? && t' == t.(pc := Done))
  }

  ghost predicate AllOnTrack(ts: seq<Thread>) {
    forall th :: 0 <= th < |ts| ==> OnTrack(ts[th], th, |ts|)
  }

  /** A thread that has not passed the wait for `go`: it is taking its own lock, or holds it. */
  ghost predicate AtStart(t: Thread, cpu: nat) {
    t.k == cpu && t.i == t.j == 0 && if t.first then t.pc.Acquire? || t.pc.Wait? else t.pc.Go?
  }

  ghost predicate AllAtStart(ts: seq<Thread>) {
    forall th :: 0 <= th < |ts| ==> AtStart(ts[th], th)
  }

  lemma TimesApart(n: nat, d: int)
    ensures d >= 1 ==> n * d >= n
    ensures d <= -1 ==> n * d <= -(n as int)
  {
  }

  lemma Quotient(x: nat, q: nat, r: nat, n: nat)
    requires r < n && x == n * q + r
    ensures x % n == r
  {
    var d := x / n - q;
    assert n * d == r - x % n;
    TimesApart(n, d);
  }

  lemma HopIsModular(x: nat, n: nat)
    requires n > 0
    ensures (x + 1) % n == if x % n + 1 >= n then 0 else x % n + 1
  {
    if x % n + 1 >= n {
      assert x + 1 == n * (x / n + 1) + 0;
      Quotient(x + 1, x / n + 1, 0, n);
    } else {
      assert x + 1 == n * (x / n) + (x % n + 1);
      Quotient(x + 1, x / n, x % n + 1, n);
    }
  }

  lemma AdvancedIsOnTrack(t: Thread, cpu: nat, n: nat)
    requires ThreadOk(t, n) && t.pc.Advance? && OnTrack(t, cpu, n)
    ensures OnTrack(Advanced(t, n), cpu, n)
  {
    HopIsModular(cpu + Hops(t), n);
  }

  lemma AcquiredIsOnTrack(t: Thread, cpu: nat, n: nat)
    requires ThreadOk(t, n) && (t.pc.Acquire? || t.pc.Wait?) && OnTrack(t, cpu, n)
    ensures OnTrack(Acquired(t), cpu, n)
  {
    assert Hops(Acquired(t)) == Hops(t);
  }

  /** One instruction of one thread keeps all threads where their hops lead. */
  lemma ContinuesOnTrack(ts: seq<Thread>, th: nat, t': Thread)
    requires th < |ts| && AllOnTrack(ts) && ThreadOk(ts[th], |ts|) && Continues(ts[th], t', |ts|)
    ensures AllOnTrack(ts[th := t'])
  {
    var t := ts[th];
    if t.pc.Advance? && t' == Advanced(t, |ts|) {
      AdvancedIsOnTrack(t, th, |ts|);
    } else if (t.pc.Acquire? || t.pc.Wait?) && t' == Acquired(t) {
      AcquiredIsOnTrack(t, th, |ts|);
    }
  }

  lemma StartIsOnTrack(ts: seq<Thread>)
    requires forall th :: 0 <= th < |ts| ==> ts[th] == Start(th)
    ensures AllOnTrack(ts)
  {
    forall th | 0 <= th < |ts| ensures OnTrack(ts[th], th, |ts|) {
      Quotient(th, 0, th, |ts|);
    }
  }

  // ---------------------------------------------------------------- work left

  function Total(work: Thread -> int, ts: seq<Thread>): int {
    if ts == [] then 0 else work(ts[0]) + Total(work, ts[1..])
  }

  lemma {:induction false} TotalAfterUpdate(work: Thread -> int, ts: seq<Thread>, i: nat, t: Thread)
    requires i < |ts|
    ensures Total(work, ts[i := t]) == Total(work, ts) - work(ts[i]) + work(t)
  {
    if i == 0 {
      assert ts[i := t][1..] == ts[1..];
    } else {
      assert ts[i := t][1..] == ts[1..][i - 1 := t];
      TotalAfterUpdate(work, ts[1..], i - 1, t);
    }
  }

  /** No work is left exactly if all threads are done. */
  lemma {:induction false} WorkLeft(work: Thread -> int, ts: seq<Thread>)
    requires forall t :: t in ts ==> work(t) >= 0 && (work(t) == 0 <==> t.pc.Done?)
    ensures Total(work, ts) >= 0
    ensures Total(work, ts) == 0 <==> forall t :: t in ts ==> t.pc.Done?
  {
    if ts != [] {
      WorkLeft(work, ts[1..]);
      assert ts == [ts[0]] + ts[1..];
    }
  }
}

/** Counting arguments for sets of thread numbers. */
module Counting {
  function UpTo(n: nat): (all: set<nat>)
    ensures |all| == n && forall i: nat :: i in all <==> i < n
  {
    if n == 0 then {} else UpTo(n - 1) + {n - 1}
  }

  lemma Pigeonhole(xs: seq<nat>, n: nat)
    requires forall i :: 0 <= i < |xs| ==> xs[i] < n
    requires forall i, j :: 0 <= i < j < |xs| ==> xs[i] != xs[j]
    ensures |xs| <= n
  {
    var used := set i | 0 <= i < |xs| :: xs[i];
    Distinct(xs);
    assert used <= UpTo(n);
    Subset(used, UpTo(n));
  }

  lemma {:induction false} Distinct(xs: seq<nat>)
    requires forall i, j :: 0 <= i < j < |xs| ==> xs[i] != xs[j]
    ensures |set i | 0 <= i < |xs| :: xs[i]| == |xs|
  {
    if xs != [] {
      var ys := xs[..|xs| - 1];
      Distinct(ys);
      assert (set i | 0 <= i < |xs| :: xs[i]) == (set i | 0 <= i < |ys| :: ys[i]) + {xs[|xs| - 1]};
    }
  }

  lemma {:induction false} Subset<T>(a: set<T>, b: set<T>)
    requires a <= b
    ensures |a| <= |b|
  {
    if a != {} {
      var x :| x in a;
      Subset(a - {x}, b - {x});
    }
  }

  lemma ProperSubset<T>(a: set<T>, b: set<T>)
    requires a < b
    ensures |a| < |b|
  {
    var x :| x in b && x !in a;
    Subset(a, b - {x});
  }
}
