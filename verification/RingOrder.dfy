/** In what order the timed ring returns tasks: a priority queue up to one slot, first in first out among equal times,
    and which conditions that takes. */
module RingOrder {
  import opened Common
  import opened RingSpec

  // ---------------------------------------------------------------- times

  /** Tasks are at or after the start of their slot, and near ones before its end. */
  ghost predicate InTime<T>(r: Ring<T>, s: nat, x: Item<T>) {
    && r.tbase + Dist(r.ibase, s) * NS_SLOT <= x.t
    && (x.near ==> x.t < r.tbase + (Dist(r.ibase, s) + 1) * NS_SLOT)
  }

  ghost predicate Timed<T>(r: Ring<T>) {
    Wf(r) && forall s, i :: 0 <= s < MAX_RQ && 0 <= i < |r.slots[s]| ==> InTime(r, s, r.slots[s][i])
  }

  /** The slot chosen for a time not before the base starts at or before it, and ends after it exactly if the time is
      less than 256 slots of 5 milliseconds ahead; up to 2^32 slots ahead, all later times share the last slot. */
  lemma QueuedInTime(tbase: nat, t: nat)
    requires tbase <= t < TWO_TO_THE_64
    ensures tbase + Ahead(tbase, t) * 5_000_000 <= t
    ensures t < tbase + (Ahead(tbase, t) + 1) * 5_000_000 <==> t < tbase + 256 * 5_000_000
    ensures tbase + 255 * 5_000_000 <= t < tbase + 0x1_0000_0000 * 5_000_000 ==> Ahead(tbase, t) == 255
  {
    var q := (t - tbase) / NS_SLOT;
    assert (t - tbase) % TWO_TO_THE_64 == t - tbase;
    assert q * NS_SLOT <= t - tbase < (q + 1) * NS_SLOT;
  }

  lemma QueuedSlot<T>(r: Ring<T>, task: T, oldT: nat, t: nat, z: nat, i: nat)
    requires r.ibase < MAX_RQ && |r.slots| == MAX_RQ && z < MAX_RQ && i < |Queue(r, task, oldT, t).slots[z]|
    ensures var r' := Queue(r, task, oldT, t);
            if i < |r.slots[z]| then r'.slots[z][i] == r.slots[z][i]
            else r'.slots[z][i] == Noted(r, task, oldT, t) && Dist(r.ibase, z) == Ahead(r'.tbase, t)
  {
  }

  /** Queueing keeps the times exactly if the task is not before the base and an unset base is not seeded so that a
      waiting task falls out of its slot. */
  lemma QueueKeepsTimed<T>(r: Ring<T>, task: T, oldT: nat, t: nat)
    requires Timed(r) && t < TWO_TO_THE_64
    ensures Timed(Queue(r, task, oldT, t)) <==> Seeded(r, oldT) <= t && Timed(r.(tbase := Seeded(r, oldT)))
  {
    var rs, r' := r.(tbase := Seeded(r, oldT)), Queue(r, task, oldT, t);
    if Seeded(r, oldT) <= t && Timed(rs) {
      QueuedInTime(rs.tbase, t);
      forall z, i | 0 <= z < MAX_RQ && 0 <= i < |r'.slots[z]|
        ensures r'.slots[z][i].t < TWO_TO_THE_64 && InTime(r', z, r'.slots[z][i])
      {
        QueuedSlot(r, task, oldT, t, z, i);
        assert i < |r.slots[z]| ==> InTime(rs, z, r.slots[z][i]);
      }
    }
    if Timed(r') {
      NewIsInTime(r, task, oldT, t);
      forall z, i | 0 <= z < MAX_RQ && 0 <= i < |r.slots[z]| ensures InTime(rs, z, r.slots[z][i]) {
        QueuedSlot(r, task, oldT, t, z, i);
        assert InTime(r', z, r'.slots[z][i]);
      }
    }
  }

  lemma NewIsInTime<T>(r: Ring<T>, task: T, oldT: nat, t: nat)
    requires Timed(r) && Timed(Queue(r, task, oldT, t))
    ensures Seeded(r, oldT) <= t
  {
    var s, r' := SlotFor(r.ibase, Seeded(r, oldT), t), Queue(r, task, oldT, t);
    assert InTime(r', s, r'.slots[s][|r.slots[s]|]);
  }

  lemma Rebase(ibase: nat, s: nat, z: nat)
    requires ibase < MAX_RQ && s < MAX_RQ && z < MAX_RQ && Dist(ibase, s) <= Dist(ibase, z)
    ensures Dist(s, z) == Dist(ibase, z) - Dist(ibase, s)
  {
  }

  lemma LeftBehind<T>(r: Ring<T>, z: nat, i: nat)
    requires r.ibase < MAX_RQ && |r.slots| == MAX_RQ && Dequeue(r).1.Some?
    requires z < MAX_RQ && i < |Dequeue(r).0.slots[z]|
    ensures var s := Scan(r, 0);
            && 0 < |r.slots[z]| && Dist(r.ibase, s) <= Dist(r.ibase, z)
            && Dist(s, z) == Dist(r.ibase, z) - Dist(r.ibase, s)
            && (if z == s then i + 1 else i) < |r.slots[z]|
            && Dequeue(r).0.slots[z][i] == r.slots[z][if z == s then i + 1 else i]
  {
    Rebase(r.ibase, Scan(r, 0), z);
  }

  /** A dequeue that returns a task keeps the times, and a near task is less than a slot later than any left behind. */
  lemma DequeueKeepsTimed<T>(r: Ring<T>)
    requires Timed(r) && (Empty(r) || Dequeue(r).1.Some?)
    ensures var (r', out) := Dequeue(r);
            && Timed(r')
            && (out.None? <==> Empty(r))
            && (out.Some? ==> r.tbase <= r'.tbase <= out.value.t)
            && (out.Some? && out.value.near ==> out.value.t < r'.tbase + NS_SLOT)
            && (out.Some? && out.value.near ==> forall s, i :: 0 <= s < MAX_RQ && 0 <= i < |r'.slots[s]| ==>
                  out.value.t < r'.slots[s][i].t + NS_SLOT)
  {
    var (r', out) := Dequeue(r);
    if out.Some? {
      var s := Scan(r, 0);
      var d := Dist(r.ibase, s);
      assert InTime(r, s, r.slots[s][0]);
      assert r'.tbase == r.tbase + d * NS_SLOT;
      forall z, i | 0 <= z < MAX_RQ && 0 <= i < |r'.slots[z]|
        ensures r'.slots[z][i].t < TWO_TO_THE_64 && InTime(r', z, r'.slots[z][i])
      {
        LeftBehind(r, z, i);
        assert InTime(r, z, r'.slots[z][i]);
      }
    }
  }

  // ---------------------------------------------------------------- steady runs

  /** What `tr_queue` needs of a task for the order to hold: its time is not before the base, and an unset base is
      not seeded under waiting tasks. */
  ghost predicate Punctual<T>(r: Ring<T>, oldT: nat, t: nat) {
    Seeded(r, oldT) <= t < TWO_TO_THE_64 && (r.tbase == 0 && !Empty(r) ==> oldT == 0)
  }

  /** The condition for one operation of a steady run: punctual tasks, and no dequeue that misses all waiting tasks. */
  ghost predicate Ready<T>(r: Ring<T>, op: Op<T>)
    requires r.ibase < MAX_RQ && |r.slots| == MAX_RQ
  {
    match op
    case Put(task, oldT, t) => Punctual(r, oldT, t)
    case Take => Empty(r) || exists s :: 0 <= s < MAX_RQ && r.slots[s] != [] && Dist(r.ibase, s) < Horizon(r.ibase)
  }

  ghost predicate Steady<T>(r: Ring<T>, ops: seq<Op<T>>)
    requires r.ibase < MAX_RQ && |r.slots| == MAX_RQ
    decreases |ops|
  {
    ops != [] ==> Ready(r, ops[0]) && Steady(Step(r, ops[0]).0, ops[1..])
  }

  lemma StepKeepsTimed<T>(r: Ring<T>, op: Op<T>)
    requires Timed(r) && Ready(r, op)
    ensures var (r', out) := Step(r, op);
            && Timed(r') && (op.Put? || out.Some? ==> r.tbase <= r'.tbase)
            && (out.Some? ==> r'.tbase <= out.value.t && (out.value.near ==> out.value.t < r'.tbase + NS_SLOT))
  {
    match op
    case Put(task, oldT, t) =>
      assert r.tbase != 0 || oldT == 0 ==> r.(tbase := Seeded(r, oldT)) == r;
      QueueKeepsTimed(r, task, oldT, t);
    case Take => DequeueKeepsTimed(r);
  }

  /** Over any steady run, also one that polls an empty ring, every task stays in time. */
  lemma {:induction false} RunKeepsTimed<T>(r: Ring<T>, ops: seq<Op<T>>)
    requires Timed(r) && Steady(r, ops)
    ensures Timed(Final(r, ops))
    decreases |ops|
  {
    if ops != [] {
      StepKeepsTimed(r, ops[0]);
      RunKeepsTimed(Step(r, ops[0]).0, ops[1..]);
    }
  }

  /** Every dequeue from the `i`-th to the `j`-th returns a task. */
  ghost predicate NoNull<T>(outs: seq<Option<Item<T>>>, i: nat, j: nat) {
    j < |outs| && forall k :: i <= k <= j ==> outs[k].Some?
  }

  lemma NoNullTail<T>(out: Option<Item<T>>, outs: seq<Option<Item<T>>>, i: nat, j: nat)
    requires 0 < j && NoNull([out] + outs, i, j)
    ensures NoNull(outs, if i == 0 then 0 else i - 1, j - 1)
  {
    assert forall k :: 0 <= k < |outs| ==> outs[k] == ([out] + outs)[k + 1];
  }

  /** Up to the first NULL no task is before `tbase`. */
  ghost predicate NotBefore<T>(outs: seq<Option<Item<T>>>, tbase: nat) {
    forall j: nat {:trigger NoNull(outs, 0, j)} :: NoNull(outs, 0, j) ==> tbase <= outs[j].value.t
  }

  lemma NotBeforeCons<T>(out: Option<Item<T>>, outs: seq<Option<Item<T>>>, tbase: nat, tbase': nat)
    requires NotBefore(outs, tbase') && (out.Some? ==> tbase <= tbase' <= out.value.t)
    ensures NotBefore([out] + outs, tbase)
  {
    forall j: nat | NoNull([out] + outs, 0, j) ensures tbase <= ([out] + outs)[j].value.t {
      assert ([out] + outs)[0] == out;
      if j > 0 { NoNullTail(out, outs, 0, j); }
    }
  }

  lemma {:induction false} OutsAreNotBeforeBase<T>(r: Ring<T>, ops: seq<Op<T>>)
    requires Timed(r) && Steady(r, ops)
    ensures NotBefore(Outs(r, ops), r.tbase)
    decreases |ops|
  {
    if ops != [] {
      var r' := Step(r, ops[0]).0;
      StepKeepsTimed(r, ops[0]);
      OutsAreNotBeforeBase(r', ops[1..]);
      if ops[0].Put? {
        OutsAfterPut(r, ops);
      } else {
        OutsAfterTake(r, ops);
        NotBeforeCons(Dequeue(r).1, Outs(r', ops[1..]), r.tbase, r'.tbase);
      }
    }
  }

  /** A near task is returned less than a slot too early with respect to any task returned after it, up to the next
      NULL. */
  ghost predicate NearlySorted<T>(outs: seq<Option<Item<T>>>) {
    forall i: nat, j: nat {:trigger NoNull(outs, i, j)} :: i < j && NoNull(outs, i, j) && outs[i].value.near ==>
      outs[i].value.t < outs[j].value.t + NS_SLOT
  }

  lemma NearlySortedPair<T>(out: Option<Item<T>>, outs: seq<Option<Item<T>>>, tbase: nat, i: nat, j: nat)
    requires NearlySorted(outs) && NotBefore(outs, tbase) && i < j && NoNull([out] + outs, i, j)
    requires out.Some? && out.value.near ==> out.value.t < tbase + NS_SLOT
    ensures var x, y := if i == 0 then out else outs[i - 1], outs[j - 1];
            x.Some? && y.Some? && (x.value.near ==> x.value.t < y.value.t + NS_SLOT)
  {
    NoNullTail(out, outs, i, j);
    if i == 0 { assert ([out] + outs)[0] == out; }
  }

  lemma NearlySortedCons<T>(out: Option<Item<T>>, outs: seq<Option<Item<T>>>, tbase: nat)
    requires NearlySorted(outs) && NotBefore(outs, tbase)
    requires out.Some? && out.value.near ==> out.value.t < tbase + NS_SLOT
    ensures NearlySorted([out] + outs)
  {
    var all := [out] + outs;
    forall i: nat, j: nat | i < j && NoNull(all, i, j) && all[i].value.near
      ensures all[i].value.t < all[j].value.t + NS_SLOT
    {
      NearlySortedPair(out, outs, tbase, i, j);
      assert all[j] == outs[j - 1] && all[i] == if i == 0 then out else outs[i - 1];
    }
  }

  /** The ring is a priority queue up to one slot: over any steady run, however queues and dequeues interleave,
      a near task is returned less than NS_SLOT too early with respect to any task returned after it, up to the next
      NULL, at which the base time starts afresh. */
  lemma {:induction false} OutsAreNearlySorted<T>(r: Ring<T>, ops: seq<Op<T>>)
    requires Timed(r) && Steady(r, ops)
    ensures NearlySorted(Outs(r, ops))
    decreases |ops|
  {
    if ops != [] {
      var r' := Step(r, ops[0]).0;
      StepKeepsTimed(r, ops[0]);
      OutsAreNearlySorted(r', ops[1..]);
      if ops[0].Put? {
        OutsAfterPut(r, ops);
      } else {
        OutsAfterTake(r, ops);
        OutsAreNotBeforeBase(r', ops[1..]);
        NearlySortedCons(Dequeue(r).1, Outs(r', ops[1..]), r'.tbase);
      }
    }
  }

  // ---------------------------------------------------------------- by the clock

  ghost predicate AllSome<T>(outs: seq<Option<Item<T>>>) {
    forall j :: 0 <= j < |outs| ==> outs[j].Some?
  }

  lemma EpochStays(ibase: nat, tbase: nat, ibase': nat, tbase': nat)
    requires ibase < 256 && ibase' < 256 && tbase' == tbase + 5_000_000 * ((ibase' - ibase) % 256)
    ensures (tbase' - 5_000_000 * ibase') % (256 * 5_000_000) == (tbase - 5_000_000 * ibase) % (256 * 5_000_000)
  {
    var a, m := tbase - 5_000_000 * ibase, 256 * 5_000_000;
    assert tbase' - 5_000_000 * ibase' == a || tbase' - 5_000_000 * ibase' == a + m;
    assert (a + m) % m == a % m;
  }

  lemma StepKeepsEpoch<T>(r: Ring<T>, op: Op<T>)
    requires Timed(r) && Ready(r, op) && r.tbase > 0 && (op.Take? ==> Dequeue(r).1.Some?)
    ensures Epoch(Step(r, op).0) == Epoch(r) && Step(r, op).0.tbase > 0
  {
    BaseMoves(r, op);
    StepKeepsTimed(r, op);
    var r' := Step(r, op).0;
    if op.Take? {
      assert r'.tbase == r.tbase + NS_SLOT * Dist(r.ibase, r'.ibase) by { NoWrap(r); }
      EpochStays(r.ibase, r.tbase, r'.ibase, r'.tbase);
    }
  }

  lemma NoWrap<T>(r: Ring<T>)
    requires Timed(r) && Dequeue(r).1.Some?
    ensures var r' := Dequeue(r).0; r'.tbase == r.tbase + NS_SLOT * Dist(r.ibase, r'.ibase)
  {
    var s := Scan(r, 0);
    assert InTime(r, s, r.slots[s][0]);
  }

  /** Over a steady run on a set base the slots keep their times: all base slots and base times up to the next NULL lie
      on one grid, which only NULL and the next seeding move. */
  lemma {:induction false} RunKeepsEpoch<T>(r: Ring<T>, ops: seq<Op<T>>)
    requires Timed(r) && Steady(r, ops) && r.tbase > 0 && AllSome(Outs(r, ops))
    ensures Epoch(Final(r, ops)) == Epoch(r) && Final(r, ops).tbase > 0
    decreases |ops|
  {
    if ops != [] {
      var r' := Step(r, ops[0]).0;
      if ops[0].Put? { OutsAfterPut(r, ops); } else { SomeTail(r, ops); }
      StepKeepsTimed(r, ops[0]);
      StepKeepsEpoch(r, ops[0]);
      RunKeepsEpoch(r', ops[1..]);
    }
  }

  lemma {:induction false} SomeTail<T>(r: Ring<T>, ops: seq<Op<T>>)
    requires r.ibase < MAX_RQ && |r.slots| == MAX_RQ && ops != [] && ops[0].Take? && AllSome(Outs(r, ops))
    ensures Dequeue(r).1.Some? && AllSome(Outs(Dequeue(r).0, ops[1..]))
  {
    OutsAfterTake(r, ops);
    var rest := Outs(Dequeue(r).0, ops[1..]);
    assert Outs(r, ops)[0] == Dequeue(r).1;
    assert forall j :: 0 <= j < |rest| ==> rest[j] == Outs(r, ops)[j + 1];
  }

  /** On that grid a near task is in the slot that its time alone names. */
  lemma NearTasksByTheClock<T>(r: Ring<T>, s: nat, i: nat)
    requires Timed(r) && s < 256 && i < |r.slots[s]| && r.slots[s][i].near
    ensures (r.slots[s][i].t - Epoch(r)) / 5_000_000 % 256 == s
  {
    var t := r.slots[s][i].t;
    assert InTime(r, s, r.slots[s][i]);
    var a := r.tbase - 5_000_000 * r.ibase;
    var n := a / (256 * 5_000_000);
    assert a == n * (256 * 5_000_000) + Epoch(r);
    var k := Dist(r.ibase, s) + r.ibase + 256 * n;
    assert 5_000_000 * k <= t - Epoch(r) < 5_000_000 * (k + 1);
    assert (t - Epoch(r)) / 5_000_000 == k;
  }

  // ---------------------------------------------------------------- first in, first out

  /** The tasks of a slot stand in the order in which they were queued. */
  ghost predicate InQueueOrder<T>(l: seq<Item<T>>, puts: nat) {
    && (forall i :: 0 <= i < |l| ==> l[i].stamp < puts)
    && (forall i, j :: 0 <= i < j < |l| ==> l[i].stamp < l[j].stamp)
  }

  ghost predicate Fifo<T>(r: Ring<T>) {
    |r.slots| == MAX_RQ && forall s :: 0 <= s < MAX_RQ ==> InQueueOrder(r.slots[s], r.puts)
  }

  lemma AppendKeepsOrder<T>(l: seq<Item<T>>, x: Item<T>, puts: nat)
    requires InQueueOrder(l, puts) && x.stamp == puts
    ensures InQueueOrder(l + [x], puts + 1)
  {
  }

  lemma StepKeepsFifo<T>(r: Ring<T>, op: Op<T>)
    requires r.ibase < MAX_RQ && Fifo(r)
    ensures Fifo(Step(r, op).0)
  {
    var r' := Step(r, op).0;
    forall s | 0 <= s < MAX_RQ ensures InQueueOrder(r'.slots[s], r'.puts) {
      assert InQueueOrder(r.slots[s], r.puts);
      if op.Put? { AppendKeepsOrder(r.slots[s], Noted(r, op.task, op.oldT, op.t), r.puts); }
    }
  }

  /** All waiting near tasks of time `t` were queued after stamp `n`. */
  ghost predicate Behind<T>(r: Ring<T>, t: nat, n: nat) {
    && n < r.puts && |r.slots| == MAX_RQ
    && forall s, i :: 0 <= s < MAX_RQ && 0 <= i < |r.slots[s]| && r.slots[s][i].near && r.slots[s][i].t == t ==>
         n < r.slots[s][i].stamp
  }

  /** Near tasks of the same time are in the same slot, so the one dequeued was queued before those left behind. */
  lemma DequeuedFirst<T>(r: Ring<T>)
    requires Timed(r) && Fifo(r) && Dequeue(r).1.Some? && Dequeue(r).1.value.near
    ensures Behind(Dequeue(r).0, Dequeue(r).1.value.t, Dequeue(r).1.value.stamp)
  {
    var (r', out) := Dequeue(r);
    var s := Scan(r, 0);
    assert InTime(r, s, r.slots[s][0]);
    forall z, i | 0 <= z < MAX_RQ && 0 <= i < |r'.slots[z]| && r'.slots[z][i].near && r'.slots[z][i].t == out.value.t
      ensures out.value.stamp < r'.slots[z][i].stamp
    {
      LeftBehind(r, z, i);
      assert InTime(r, z, r'.slots[z][i]) && InQueueOrder(r.slots[s], r.puts);
      SameDist(r.ibase, s, z);
    }
  }

  lemma StepKeepsBehind<T>(r: Ring<T>, op: Op<T>, t: nat, n: nat)
    requires r.ibase < MAX_RQ && Behind(r, t, n)
    ensures var (r', out) := Step(r, op);
            && Behind(r', t, n)
            && (out.Some? && out.value.near && out.value.t == t ==> n < out.value.stamp)
  {
  }

  /** Near tasks of time `t` among the results were queued after stamp `n`. */
  ghost predicate AllBehind<T>(outs: seq<Option<Item<T>>>, t: nat, n: nat) {
    forall j :: 0 <= j < |outs| && outs[j].Some? && outs[j].value.near && outs[j].value.t == t ==>
      n < outs[j].value.stamp
  }

  lemma {:induction false} OutsAreBehind<T>(r: Ring<T>, ops: seq<Op<T>>, t: nat, n: nat)
    requires r.ibase < MAX_RQ && Behind(r, t, n)
    ensures AllBehind(Outs(r, ops), t, n)
    decreases |ops|
  {
    if ops != [] {
      StepKeepsBehind(r, ops[0], t, n);
      OutsAreBehind(Step(r, ops[0]).0, ops[1..], t, n);
      if ops[0].Put? { OutsAfterPut(r, ops); } else { OutsAfterTake(r, ops); }
    }
  }

  /** Near tasks of equal time are returned in the order in which they were queued. */
  ghost predicate EqualTimesInOrder<T>(outs: seq<Option<Item<T>>>) {
    forall i, j :: 0 <= i < j < |outs| && Peers(outs[i], outs[j]) ==> outs[i].value.stamp < outs[j].value.stamp
  }

  /** Two near tasks of equal time. */
  ghost predicate Peers<T>(x: Option<Item<T>>, y: Option<Item<T>>) {
    x.Some? && y.Some? && x.value.near && y.value.near && x.value.t == y.value.t
  }

  lemma InOrderCons<T>(out: Option<Item<T>>, outs: seq<Option<Item<T>>>)
    requires EqualTimesInOrder(outs)
    requires out.Some? && out.value.near ==> AllBehind(outs, out.value.t, out.value.stamp)
    ensures EqualTimesInOrder([out] + outs)
  {
    var all := [out] + outs;
    forall i, j | 0 <= i < j < |all| && Peers(all[i], all[j]) ensures all[i].value.stamp < all[j].value.stamp {
      assert all[j] == outs[j - 1] && all[i] == if i == 0 then out else outs[i - 1];
    }
  }

  /** Over any steady run, also across NULLs, near tasks of equal time are returned first in, first out. */
  lemma {:induction false} EqualTimesAreFifo<T>(r: Ring<T>, ops: seq<Op<T>>)
    requires Timed(r) && Fifo(r) && Steady(r, ops)
    ensures EqualTimesInOrder(Outs(r, ops))
    decreases |ops|
  {
    if ops != [] {
      var r' := Step(r, ops[0]).0;
      StepKeepsTimed(r, ops[0]);
      StepKeepsFifo(r, ops[0]);
      EqualTimesAreFifo(r', ops[1..]);
      if ops[0].Put? {
        OutsAfterPut(r, ops);
      } else {
        OutsAfterTake(r, ops);
        FirstIsFirst(r, ops[1..]);
        InOrderCons(Dequeue(r).1, Outs(r', ops[1..]));
      }
    }
  }

  lemma {:induction false} FirstIsFirst<T>(r: Ring<T>, ops: seq<Op<T>>)
    requires Timed(r) && Fifo(r)
    ensures var (r', out) := Dequeue(r);
            out.Some? && out.value.near ==> AllBehind(Outs(r', ops), out.value.t, out.value.stamp)
  {
    var (r', out) := Dequeue(r);
    if out.Some? && out.value.near {
      DequeuedFirst(r);
      OutsAreBehind(r', ops, out.value.t, out.value.stamp);
    }
  }

  // ---------------------------------------------------------------- runs that miss nothing

  /** Every waiting task is near and within the reach of the scan. */
  ghost predicate InReach<T>(r: Ring<T>) {
    && r.ibase < MAX_RQ && |r.slots| == MAX_RQ
    && (forall s :: 0 <= s < MAX_RQ && r.slots[s] != [] ==> Dist(r.ibase, s) < Horizon(r.ibase))
    && (forall s, i :: 0 <= s < MAX_RQ && 0 <= i < |r.slots[s]| ==> r.slots[s][i].near)
  }

  /** Such a ring returns NULL exactly if it is empty. */
  lemma NullOnlyWhenEmpty<T>(r: Ring<T>)
    requires InReach(r)
    ensures Dequeue(r).1.None? <==> Empty(r)
  {
    NullExactlyBeyondHorizon(r);
  }

  /** The reach in terms of times, for times not before the base and less than 2^32 slots ahead. */
  lemma ReachInTime(ibase: nat, tbase: nat, t: nat)
    requires ibase < MAX_RQ && tbase <= t < TWO_TO_THE_64 && t < tbase + TWO_TO_THE_32 * NS_SLOT
    ensures t < tbase + Horizon(ibase) * NS_SLOT ==> Ahead(tbase, t) < Horizon(ibase)
    ensures t >= tbase + Horizon(ibase) * NS_SLOT && ibase % BITS_X_LONG > 0 ==> Ahead(tbase, t) >= Horizon(ibase)
  {
    var q := (t - tbase) / NS_SLOT;
    assert (t - tbase) % TWO_TO_THE_64 == t - tbase && q < TWO_TO_THE_32;
    assert q * NS_SLOT <= t - tbase < (q + 1) * NS_SLOT;
  }

  /** A task keeps the ring in reach exactly if its time is before the end of the reach, counted from the base. */
  lemma QueueKeepsReach<T>(r: Ring<T>, task: T, oldT: nat, t: nat)
    requires InReach(r) && Seeded(r, oldT) <= t < TWO_TO_THE_64
    ensures InReach(Queue(r, task, oldT, t)) <==> t < Seeded(r, oldT) + Horizon(r.ibase) * NS_SLOT
  {
    var tb, r' := Seeded(r, oldT), Queue(r, task, oldT, t);
    var s := SlotFor(r.ibase, tb, t);
    assert r'.slots[s][|r.slots[s]|] == Noted(r, task, oldT, t) && Dist(r.ibase, s) == Ahead(tb, t);
    if t < tb + MAX_RQ * NS_SLOT {
      ReachInTime(r.ibase, tb, t);
    }
    if t < tb + Horizon(r.ibase) * NS_SLOT {
      forall z, i | 0 <= z < MAX_RQ && 0 <= i < |r'.slots[z]|
        ensures r'.slots[z][i].near && Dist(r.ibase, z) < Horizon(r.ibase)
      {
        QueuedSlot(r, task, oldT, t, z, i);
      }
    }
  }

  /** Moving the base to a slot in reach brings every slot that was in reach closer than the new horizon. */
  lemma HorizonMoves(ibase: nat, s: nat, z: nat)
    requires ibase < MAX_RQ && s < MAX_RQ && z < MAX_RQ
    requires Dist(ibase, s) <= Dist(ibase, z) < Horizon(ibase)
    ensures Dist(s, z) < Horizon(s)
  {
    Rebase(ibase, s, z);
  }

  lemma DequeueKeepsReach<T>(r: Ring<T>)
    requires InReach(r)
    ensures InReach(Dequeue(r).0)
  {
    var (r', out) := Dequeue(r);
    if out.Some? {
      forall z, i | 0 <= z < MAX_RQ && 0 <= i < |r'.slots[z]|
        ensures r'.slots[z][i].near && Dist(r'.ibase, z) < Horizon(r'.ibase)
      {
        LeftBehind(r, z, i);
        HorizonMoves(r.ibase, r'.ibase, z);
      }
      assert forall z :: 0 <= z < MAX_RQ && r'.slots[z] != [] ==> r'.slots[z][0].near;
    }
  }

  /** What a caller can check before each call: a task is punctual and its time is before the end of the reach.  There
      is nothing to check before a dequeue. */
  ghost predicate Careful<T>(r: Ring<T>, ops: seq<Op<T>>)
    requires r.ibase < MAX_RQ && |r.slots| == MAX_RQ
    decreases |ops|
  {
    ops != [] ==>
      && (ops[0].Put? ==>
            && Punctual(r, ops[0].oldT, ops[0].t)
            && ops[0].t < Seeded(r, ops[0].oldT) + Horizon(r.ibase) * NS_SLOT)
      && Careful(Step(r, ops[0]).0, ops[1..])
  }

  ghost predicate AllNear<T>(outs: seq<Option<Item<T>>>) {
    forall j :: 0 <= j < |outs| && outs[j].Some? ==> outs[j].value.near
  }

  /** A careful run is steady, all its tasks are near, and at its end NULL is returned exactly if the ring is empty. */
  lemma {:induction false} CarefulRuns<T>(r: Ring<T>, ops: seq<Op<T>>)
    requires InReach(r) && Careful(r, ops)
    ensures Steady(r, ops) && InReach(Final(r, ops)) && AllNear(Outs(r, ops))
    ensures Dequeue(Final(r, ops)).1.None? <==> Empty(Final(r, ops))
    decreases |ops|
  {
    NullOnlyWhenEmpty(r);
    if ops != [] {
      match ops[0] {
        case Put(task, oldT, t) =>
          QueueKeepsReach(r, task, oldT, t);
          OutsAfterPut(r, ops);
        case Take =>
          DequeueKeepsReach(r);
          NullExactlyBeyondHorizon(r);
          OutsAfterTake(r, ops);
      }
      CarefulRuns(Step(r, ops[0]).0, ops[1..]);
    }
  }

  lemma InitIsFine<T>()
    ensures Timed(Init<T>()) && Fifo(Init<T>()) && InReach(Init<T>()) && Empty(Init<T>())
  {
  }

  /** In a careful run a task is less than a slot later than any returned after it before the next NULL, and tasks of
      equal time are returned in the order of queueing.  `InitIsFine` says that such a run may start from the initial
      ring. */
  lemma CarefulRunsAreNearlySorted<T>(r: Ring<T>, ops: seq<Op<T>>)
    requires Timed(r) && Fifo(r) && InReach(r) && Careful(r, ops)
    ensures var outs := Outs(r, ops); AllNear(outs) && NearlySorted(outs) && EqualTimesInOrder(outs)
  {
    CarefulRuns(r, ops);
    OutsAreNearlySorted(r, ops);
    EqualTimesAreFifo(r, ops);
  }

  /** Whatever the base slot, tasks up to 193 slots ahead are in reach, and no constant more is. */
  lemma SafeWindow(ibase: nat)
    requires ibase < MAX_RQ
    ensures Horizon(ibase) >= 193 == Horizon(63)
  {
  }
}
