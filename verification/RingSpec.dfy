/** The timed ring as a value: what `tr_queue` and `tr_dequeue` do to base slot, base time and the slot lists. */
module RingSpec {
  import opened Common

  const MAX_RQ := 256
  const BITS_X_LONG := 64
  const MAP_LONGS := 4
  const NS_SLOT := 5_000_000

  /** A queued task with its time.  What an observer notes beside it: `near`, that it was queued less than MAX_RQ slots
      ahead of the base, and `stamp`, how many tasks were queued before it. */
  datatype Item<T> = Item(task: T, t: nat, near: bool, stamp: nat)

  /** `puts` counts the tasks queued so far; nothing depends on it. */
  datatype Ring<T> = Ring(ibase: nat, tbase: nat, slots: seq<seq<Item<T>>>, puts: nat)

  ghost predicate Wf<T>(r: Ring<T>) {
    && r.ibase < MAX_RQ && r.tbase < TWO_TO_THE_64 && |r.slots| == MAX_RQ
    && forall s, i :: 0 <= s < MAX_RQ && 0 <= i < |r.slots[s]| ==> r.slots[s][i].t < TWO_TO_THE_64
  }

  /** Circular distance of slot `s` from the base slot: `(s - ibase) & RQ_MASK`. */
  function Dist(ibase: nat, s: nat): nat {
    (s - ibase) % MAX_RQ
  }

  /** How many slots `rel_ffs` looks at: it never returns to the masked low bits of its first word. */
  function Horizon(ibase: nat): nat
    requires ibase < MAX_RQ
  {
    MAX_RQ - ibase % BITS_X_LONG
  }

  /** The one slot at distance `d`. */
  function SlotAt(ibase: nat, d: nat): (s: nat)
    requires ibase < MAX_RQ && d < MAX_RQ
    ensures s < MAX_RQ && Dist(ibase, s) == d
  {
    (ibase + d) % MAX_RQ
  }

  lemma SameDist(ibase: nat, s: nat, z: nat)
    requires ibase < MAX_RQ && s < MAX_RQ && z < MAX_RQ && Dist(ibase, s) == Dist(ibase, z)
    ensures s == z
  {
  }

  lemma OnlySlotAt(ibase: nat, d: nat)
    requires ibase < MAX_RQ && d < MAX_RQ
    ensures forall z: nat {:trigger Dist(ibase, z)} :: z < MAX_RQ && Dist(ibase, z) == d ==> z == SlotAt(ibase, d)
  {
    forall z: nat {:trigger Dist(ibase, z)} | z < MAX_RQ && Dist(ibase, z) == d ensures z == SlotAt(ibase, d) {
      SameDist(ibase, z, SlotAt(ibase, d));
    }
  }

  /** First non-empty slot from distance `d` on, within the horizon; MAX_RQ if there is none. */
  function Scan<T>(r: Ring<T>, d: nat): (s: nat)
    requires r.ibase < MAX_RQ && |r.slots| == MAX_RQ && d <= Horizon(r.ibase)
    ensures s == MAX_RQ || (s < MAX_RQ && r.slots[s] != [] && d <= Dist(r.ibase, s) < Horizon(r.ibase))
    ensures forall z: nat {:trigger r.slots[z]} ::
              z < MAX_RQ && r.slots[z] != [] && d <= Dist(r.ibase, z) < Horizon(r.ibase) ==>
              s < MAX_RQ && Dist(r.ibase, s) <= Dist(r.ibase, z)
    decreases Horizon(r.ibase) - d
  {
    if d == Horizon(r.ibase) then MAX_RQ
    else
      OnlySlotAt(r.ibase, d);
      if r.slots[SlotAt(r.ibase, d)] != [] then SlotAt(r.ibase, d) else Scan(r, d + 1)
  }

  /** The scan finds a slot that is not empty, within the horizon and nearest to the base. */
  lemma ScanFinds<T>(r: Ring<T>, s: nat)
    requires r.ibase < MAX_RQ && |r.slots| == MAX_RQ && s < MAX_RQ
    requires r.slots[s] != [] && Dist(r.ibase, s) < Horizon(r.ibase)
    requires forall z :: 0 <= z < MAX_RQ && r.slots[z] != [] ==> Dist(r.ibase, s) <= Dist(r.ibase, z)
    ensures Scan(r, 0) == s
  {
    SameDist(r.ibase, Scan(r, 0), s);
  }

  /** The base time a queue operation works with: an unset base is seeded from the task. */
  function Seeded<T>(r: Ring<T>, oldT: nat): nat {
    if r.tbase == 0 then oldT else r.tbase
  }

  /** Slots between base time and `t`, in 64-bit arithmetic, cut to 32 bits and to the last slot. */
  function Ahead(tbase: nat, t: nat): (d: nat)
    ensures d < MAX_RQ
  {
    var idx := ((t - tbase) % TWO_TO_THE_64) / NS_SLOT % TWO_TO_THE_32;
    if idx >= MAX_RQ then MAX_RQ - 1 else idx
  }

  function SlotFor(ibase: nat, tbase: nat, t: nat): (s: nat)
    ensures s < MAX_RQ
  {
    (Ahead(tbase, t) + ibase) % MAX_RQ
  }

  /** A task as the ring holds it. */
  function Noted<T>(r: Ring<T>, task: T, oldT: nat, t: nat): Item<T> {
    Item(task, t, Seeded(r, oldT) <= t < Seeded(r, oldT) + MAX_RQ * NS_SLOT, r.puts)
  }

  function Queue<T>(r: Ring<T>, task: T, oldT: nat, t: nat): Ring<T>
    requires |r.slots| == MAX_RQ
  {
    var tb := Seeded(r, oldT);
    var s := SlotFor(r.ibase, tb, t);
    Ring(r.ibase, tb, r.slots[s := r.slots[s] + [Noted(r, task, oldT, t)]], r.puts + 1)
  }

  function Dequeue<T>(r: Ring<T>): (p: (Ring<T>, Option<Item<T>>))
    requires r.ibase < MAX_RQ && |r.slots| == MAX_RQ
    ensures p.0.ibase < MAX_RQ && |p.0.slots| == MAX_RQ
  {
    var s := Scan(r, 0);
    if s == MAX_RQ then (r.(tbase := 0), None)
    else
      var tbase := (r.tbase + NS_SLOT * Dist(r.ibase, s)) % TWO_TO_THE_64;
      (Ring(s, tbase, r.slots[s := r.slots[s][1..]], r.puts), Some(r.slots[s][0]))
  }

  /** NULL is returned exactly when every non-empty slot is beyond the horizon. */
  lemma NullExactlyBeyondHorizon<T>(r: Ring<T>)
    requires r.ibase < MAX_RQ && |r.slots| == MAX_RQ
    ensures Dequeue(r).1 == None <==>
            forall s :: 0 <= s < 256 && r.slots[s] != [] ==> (s - r.ibase) % 256 >= 256 - r.ibase % 64
  {
    var s := Scan(r, 0);
    if s < MAX_RQ { assert r.slots[s] != []; }
  }

  // ---------------------------------------------------------------- whole runs

  /** The ring that `tr_rqinit` leaves. */
  function Init<T>(): Ring<T> {
    Ring(0, 0, seq(MAX_RQ, _ => []), 0)
  }

  ghost predicate Empty<T>(r: Ring<T>) {
    forall s :: 0 <= s < |r.slots| ==> r.slots[s] == []
  }

  datatype Op<T> = Put(task: T, oldT: nat, t: nat) | Take

  function Step<T>(r: Ring<T>, op: Op<T>): (p: (Ring<T>, Option<Item<T>>))
    requires r.ibase < MAX_RQ && |r.slots| == MAX_RQ
    ensures p.0.ibase < MAX_RQ && |p.0.slots| == MAX_RQ
  {
    match op
    case Put(task, oldT, t) => (Queue(r, task, oldT, t), None)
    case Take => Dequeue(r)
  }

  /** Only a dequeue has a result. */
  function Results<T>(op: Op<T>, out: Option<Item<T>>): seq<Option<Item<T>>> {
    if op.Take? then [out] else []
  }

  /** What the dequeues of a run return, in order; None is NULL. */
  function Outs<T>(r: Ring<T>, ops: seq<Op<T>>): seq<Option<Item<T>>>
    requires r.ibase < MAX_RQ && |r.slots| == MAX_RQ
    decreases |ops|
  {
    if ops == [] then [] else
    var (r', out) := Step(r, ops[0]);
    Results(ops[0], out) + Outs(r', ops[1..])
  }

  function Final<T>(r: Ring<T>, ops: seq<Op<T>>): (r': Ring<T>)
    requires r.ibase < MAX_RQ && |r.slots| == MAX_RQ
    ensures r'.ibase < MAX_RQ && |r'.slots| == MAX_RQ
    decreases |ops|
  {
    if ops == [] then r else Final(Step(r, ops[0]).0, ops[1..])
  }

  lemma RunUnfold<T>(r: Ring<T>, op: Op<T>, ops: seq<Op<T>>)
    requires r.ibase < MAX_RQ && |r.slots| == MAX_RQ
    ensures Final(r, [op] + ops) == Final(Step(r, op).0, ops)
    ensures Outs(r, [op] + ops) == Results(op, Step(r, op).1) + Outs(Step(r, op).0, ops)
  {
    assert ([op] + ops)[1..] == ops;
  }

  lemma {:induction false} OutsAfterPut<T>(r: Ring<T>, ops: seq<Op<T>>)
    requires r.ibase < MAX_RQ && |r.slots| == MAX_RQ && ops != [] && ops[0].Put?
    ensures Outs(r, ops) == Outs(Step(r, ops[0]).0, ops[1..])
  {
  }

  lemma {:induction false} OutsAfterTake<T>(r: Ring<T>, ops: seq<Op<T>>)
    requires r.ibase < MAX_RQ && |r.slots| == MAX_RQ && ops != [] && ops[0].Take?
    ensures Outs(r, ops) == [Dequeue(r).1] + Outs(Dequeue(r).0, ops[1..])
  {
  }

  // ---------------------------------------------------------------- the base

  /** What one operation makes of base slot, base time and slots, from any ring.  A queue operation leaves the base
      slot, and sets the base time only if it is 0.  A dequeue that returns a task makes the task's slot the base slot,
      and moves the base time on by the slots in between; the task is the first of that slot, and no other slot changes.
      A dequeue that returns NULL resets the base time and changes nothing else. */
  lemma BaseMoves<T>(r: Ring<T>, op: Op<T>)
    requires r.ibase < 256 && |r.slots| == 256
    ensures var (r', out) := Step(r, op);
            match op
            case Put(task, oldT, t) =>
              && out == None && r'.ibase == r.ibase && (r.tbase == 0 ==> r'.tbase == oldT)
              && (r.tbase != 0 ==> r'.tbase == r.tbase)
            case Take =>
              if out.None? then r'.tbase == 0 && r'.ibase == r.ibase && r'.slots == r.slots
              else
                && r'.ibase < 256 && r.slots[r'.ibase] != [] && out.value == r.slots[r'.ibase][0]
                && r'.slots == r.slots[r'.ibase := r.slots[r'.ibase][1..]]
                && r'.tbase == (r.tbase + 5_000_000 * ((r'.ibase - r.ibase) % 256)) % 0x1_0000_0000_0000_0000
  {
  }

  /** When a revolution begins: slot 0 starts at this time, and every 256 slots after and before it. */
  function Epoch<T>(r: Ring<T>): (e: nat)
    ensures e < 256 * 5_000_000
  {
    (r.tbase - 5_000_000 * r.ibase) % (256 * 5_000_000)
  }

  // ---------------------------------------------------------------- conservation

  ghost function Items<T>(slots: seq<seq<Item<T>>>): multiset<Item<T>> {
    if slots == [] then multiset{} else multiset(slots[0]) + Items(slots[1..])
  }

  lemma {:induction false} ItemsAfterUpdate<T>(slots: seq<seq<Item<T>>>, s: nat, l: seq<Item<T>>)
    requires s < |slots|
    ensures Items(slots[s := l]) + multiset(slots[s]) == Items(slots) + multiset(l)
  {
    var a, b := multiset(slots[0]), Items(slots[1..]);
    if s == 0 {
      assert slots[s := l][1..] == slots[1..];
    } else {
      var b' := Items(slots[1..][s - 1 := l]);
      assert slots[s := l][1..] == slots[1..][s - 1 := l];
      ItemsAfterUpdate(slots[1..], s - 1, l);
      assert (a + b') + multiset(slots[s]) == a + (b' + multiset(slots[s]));
      assert (a + b) + multiset(l) == a + (b + multiset(l));
    }
  }

  lemma Cancel<X>(a: multiset<X>, b: multiset<X>, c: multiset<X>)
    requires a + c == b + c
    ensures a == b
  {
    forall x ensures a[x] == b[x] { assert (a + c)[x] == (b + c)[x]; }
  }

  /** The task an operation queues. */
  function Put1<T>(r: Ring<T>, op: Op<T>): seq<Item<T>> {
    match op
    case Put(task, oldT, t) => [Noted(r, task, oldT, t)]
    case Take => []
  }

  /** The tasks among the results of dequeues. */
  function Returned<T>(outs: seq<Option<Item<T>>>): seq<Item<T>> {
    if outs == [] then [] else (if outs[0].Some? then [outs[0].value] else []) + Returned(outs[1..])
  }

  lemma ReturnedOne<T>(out: Option<Item<T>>)
    ensures Returned([out]) == if out.Some? then [out.value] else []
  {
    assert [out][1..] == [];
  }

  /** The tasks a run queues. */
  function Ins<T>(r: Ring<T>, ops: seq<Op<T>>): seq<Item<T>>
    requires r.ibase < MAX_RQ && |r.slots| == MAX_RQ
    decreases |ops|
  {
    if ops == [] then [] else Put1(r, ops[0]) + Ins(Step(r, ops[0]).0, ops[1..])
  }

  lemma QueueConserves<T>(r: Ring<T>, task: T, oldT: nat, t: nat)
    requires r.ibase < MAX_RQ && |r.slots| == MAX_RQ
    ensures Items(Queue(r, task, oldT, t).slots) == Items(r.slots) + multiset([Noted(r, task, oldT, t)])
  {
    var s, x := SlotFor(r.ibase, Seeded(r, oldT), t), [Noted(r, task, oldT, t)];
    var l, all := multiset(r.slots[s]), Items(r.slots);
    ItemsAfterUpdate(r.slots, s, r.slots[s] + x);
    assert all + (l + multiset(x)) == (all + multiset(x)) + l;
    Cancel(Items(Queue(r, task, oldT, t).slots), all + multiset(x), l);
  }

  lemma DequeueConserves<T>(r: Ring<T>)
    requires r.ibase < MAX_RQ && |r.slots| == MAX_RQ && Dequeue(r).1.Some?
    ensures Items(r.slots) == multiset([Dequeue(r).1.value]) + Items(Dequeue(r).0.slots)
  {
    var s := Scan(r, 0);
    var x, l, all := r.slots[s][0], r.slots[s][1..], Items(Dequeue(r).0.slots);
    assert r.slots[s] == [x] + l;
    ItemsAfterUpdate(r.slots, s, l);
    assert all + (multiset([x]) + multiset(l)) == (multiset([x]) + all) + multiset(l);
    Cancel(multiset([x]) + all, Items(r.slots), multiset(l));
  }

  lemma StepConserves<T>(r: Ring<T>, op: Op<T>)
    requires r.ibase < MAX_RQ && |r.slots| == MAX_RQ
    ensures var (r', out) := Step(r, op);
            Items(r.slots) + multiset(Put1(r, op)) == multiset(Returned(Results(op, out))) + Items(r'.slots)
  {
    match op
    case Put(task, oldT, t) => QueueConserves(r, task, oldT, t);
    case Take =>
      var (r', out) := Dequeue(r);
      ReturnedOne(out);
      if out.Some? {
        DequeueConserves(r);
      }
  }

  lemma Chain<X>(a: multiset<X>, i: multiset<X>, o: multiset<X>, b: multiset<X>,
                 i': multiset<X>, o': multiset<X>, c: multiset<X>)
    requires a + i == o + b && b + i' == o' + c
    ensures a + (i + i') == (o + o') + c
  {
    calc {
      a + (i + i');
      (a + i) + i';
      (o + b) + i';
      o + (b + i');
      o + (o' + c);
      (o + o') + c;
    }
  }

  lemma {:induction false} ReturnedCons<T>(out: Option<Item<T>>, outs: seq<Option<Item<T>>>)
    ensures Returned([out] + outs) == Returned([out]) + Returned(outs)
  {
    ReturnedOne(out);
    assert ([out] + outs)[1..] == outs;
  }

  lemma {:induction false} ReturnedUnfold<T>(r: Ring<T>, ops: seq<Op<T>>)
    requires r.ibase < MAX_RQ && |r.slots| == MAX_RQ && ops != []
    ensures var (r', out) := Step(r, ops[0]);
            Returned(Outs(r, ops)) == Returned(Results(ops[0], out)) + Returned(Outs(r', ops[1..]))
  {
    var (r', out) := Step(r, ops[0]);
    if ops[0].Take? {
      OutsAfterTake(r, ops);
      ReturnedCons(out, Outs(r', ops[1..]));
    } else {
      OutsAfterPut(r, ops);
    }
  }

  /** No task is lost or duplicated: what was there and what was queued is what was returned and what is left. */
  lemma {:induction false} RunConserves<T>(r: Ring<T>, ops: seq<Op<T>>)
    requires r.ibase < MAX_RQ && |r.slots| == MAX_RQ
    ensures Items(r.slots) + multiset(Ins(r, ops)) == multiset(Returned(Outs(r, ops))) + Items(Final(r, ops).slots)
    decreases |ops|
  {
    if ops != [] {
      var (r', out) := Step(r, ops[0]);
      StepConserves(r, ops[0]);
      RunConserves(r', ops[1..]);
      ReturnedUnfold(r, ops);
      Chain(Items(r.slots), multiset(Put1(r, ops[0])), multiset(Returned(Results(ops[0], out))), Items(r'.slots),
            multiset(Ins(r', ops[1..])), multiset(Returned(Outs(r', ops[1..]))), Items(Final(r', ops[1..]).slots));
    }
  }
}
