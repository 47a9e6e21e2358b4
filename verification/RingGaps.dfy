/** Runs of the timed ring outside the conditions of its order: a task that the scan misses, and tasks returned out of
    order. */
module RingGaps {
  import opened Common
  import opened RingSpec
  import opened RingOrder

  // ---------------------------------------------------------------- a task the scan misses

  /** A ring whose only task is in slot `s`. */
  ghost predicate Only<T>(r: Ring<T>, s: nat, x: Item<T>) {
    && r.ibase < MAX_RQ && |r.slots| == MAX_RQ && s < MAX_RQ && r.slots[s] == [x]
    && forall z :: 0 <= z < MAX_RQ && z != s ==> r.slots[z] == []
  }

  lemma DequeueOnly<T>(r: Ring<T>, s: nat, x: Item<T>)
    requires Only(r, s, x)
    ensures Dist(r.ibase, s) < Horizon(r.ibase) ==>
              Dequeue(r).1 == Some(x) && Empty(Dequeue(r).0) && Dequeue(r).0.ibase == s
    ensures Dist(r.ibase, s) >= Horizon(r.ibase) ==> Dequeue(r) == (r.(tbase := 0), None)
  {
    if Dist(r.ibase, s) < Horizon(r.ibase) {
      ScanFinds(r, s);
    }
  }

  lemma QueueOnly<T>(r: Ring<T>, x: T, oldT: nat, t: nat)
    requires Empty(r) && r.ibase < MAX_RQ && |r.slots| == MAX_RQ
    ensures var tb := Seeded(r, oldT);
            && Only(Queue(r, x, oldT, t), SlotFor(r.ibase, tb, t), Noted(r, x, oldT, t))
            && Dist(r.ibase, SlotFor(r.ibase, tb, t)) == Ahead(tb, t)
  {
  }

  /** A task queued alone is missed by the next dequeue exactly if its slot is beyond the horizon. */
  lemma MissedExactlyBeyondHorizon<T>(r: Ring<T>, x: T, oldT: nat, t: nat)
    requires Empty(r) && r.ibase < MAX_RQ && |r.slots| == MAX_RQ
    ensures Dequeue(Queue(r, x, oldT, t)).1.None? <==> Ahead(Seeded(r, oldT), t) >= MAX_RQ - r.ibase % BITS_X_LONG
  {
    QueueOnly(r, x, oldT, t);
    DequeueOnly(Queue(r, x, oldT, t), SlotFor(r.ibase, Seeded(r, oldT), t), Noted(r, x, oldT, t));
  }

  lemma QueuedAndTaken<T>(x: T)
    ensures var r := Dequeue(Queue(Init(), x, 1, 1 + NS_SLOT)).0; Empty(r) && r.ibase == 1 && r.tbase == 1 + NS_SLOT
  {
    QueueOnly(Init(), x, 1, 1 + NS_SLOT);
    assert Ahead(1, 1 + NS_SLOT) == 1;
    DequeueOnly(Queue(Init(), x, 1, 1 + NS_SLOT), 1, Noted(Init(), x, 1, 1 + NS_SLOT));
  }

  lemma FinalOfThree<T>(r: Ring<T>, a: Op<T>, b: Op<T>, c: Op<T>)
    requires r.ibase < MAX_RQ && |r.slots| == MAX_RQ
    ensures Final(r, [a] + ([b] + ([c] + []))) == Step(Step(Step(r, a).0, b).0, c).0
  {
    RunUnfold(Step(Step(r, a).0, b).0, c, []);
    RunUnfold(Step(r, a).0, b, [c] + []);
    RunUnfold(r, a, [b] + ([c] + []));
  }

  /** `tr_dequeue` can return NULL while a task is waiting: with the base at slot 1, slot 0 is 255 slots ahead but
      its bit is masked out of the first word and that word is not looked at again. */
  lemma NullWithATaskWaiting<T>(x: T, y: T)
    ensures var r := Final(Init(), [Put(x, 1, 1 + NS_SLOT), Take, Put(y, 0, 1 + 256 * NS_SLOT)]);
            !Empty(r) && Dequeue(r).1 == None && Dequeue(r).0.tbase == 0
  {
    var a, b, c := Put(x, 1, 1 + NS_SLOT), Op<T>.Take, Put(y, 0, 1 + 256 * NS_SLOT);
    FinalOfThree(Init(), a, b, c);
    assert [a] + ([b] + ([c] + [])) == [a, b, c];
    var r := Dequeue(Queue(Init(), x, 1, 1 + NS_SLOT)).0;
    QueuedAndTaken(x);
    assert Ahead(1 + NS_SLOT, 1 + 256 * NS_SLOT) == 255;
    QueueOnly(r, y, 0, 1 + 256 * NS_SLOT);
    MissedExactlyBeyondHorizon(r, y, 0, 1 + 256 * NS_SLOT);
  }

  // ---------------------------------------------------------------- why the ordering theorem has its conditions

  /** Two tasks, in different slots or, queued in this order, in the same one. */
  ghost predicate Pair<T>(r: Ring<T>, a: nat, x: Item<T>, b: nat, y: Item<T>) {
    && r.ibase == 0 && |r.slots| == MAX_RQ && a < MAX_RQ && b < MAX_RQ
    && (if a == b then r.slots[a] == [x, y] else r.slots[a] == [x] && r.slots[b] == [y])
    && forall z :: 0 <= z < MAX_RQ && z != a && z != b ==> r.slots[z] == []
  }

  lemma DequeuePair<T>(r: Ring<T>, a: nat, x: Item<T>, b: nat, y: Item<T>)
    requires Pair(r, a, x, b, y)
    ensures var (r', out) := Dequeue(r);
            if a <= b then out == Some(x) && Only(r', b, y) && r'.ibase == a
            else out == Some(y) && Only(r', a, x) && r'.ibase == b
  {
    ScanFinds(r, if a <= b then a else b);
  }

  lemma QueuePair<T>(r: Ring<T>, a: nat, x: Item<T>, y: T, oldT: nat, t: nat)
    requires Only(r, a, x) && r.ibase == 0
    ensures var b := Ahead(Seeded(r, oldT), t);
            Pair(Queue(r, y, oldT, t), a, x, b, Noted(r, y, oldT, t))
  {
    assert [x] + [Noted(r, y, oldT, t)] == [x, Noted(r, y, oldT, t)];
  }

  /** What the observer notes of a task queued as number `n` under base time `tb`. */
  function Entry<T>(x: T, tb: nat, t: nat, n: nat): Item<T> {
    Item(x, t, tb <= t < tb + MAX_RQ * NS_SLOT, n)
  }

  /** Two tasks queued into an empty ring are returned in the order of the slots chosen for them. */
  lemma TwoTasks<T>(r: Ring<T>, x: T, ox: nat, tx: nat, y: T, oy: nat, ty: nat)
    requires Empty(r) && r.ibase == 0 && |r.slots| == MAX_RQ && r.tbase == 0
    ensures var tb := if ox == 0 then oy else ox;
            var outx, outy := Some(Entry(x, ox, tx, r.puts)), Some(Entry(y, tb, ty, r.puts + 1));
            Outs(r, [Put(x, ox, tx), Put(y, oy, ty)] + [Take, Take]) ==
            if Ahead(ox, tx) <= Ahead(tb, ty) then [outx, outy] else [outy, outx]
  {
    var tb := if ox == 0 then oy else ox;
    var r1, ix, iy := Queue(r, x, ox, tx), Entry(x, ox, tx, r.puts), Entry(y, tb, ty, r.puts + 1);
    QueueOnly(r, x, ox, tx);
    QueuePair(r1, Ahead(ox, tx), ix, y, oy, ty);
    OutsOfPair(Queue(r1, y, oy, ty), Ahead(ox, tx), ix, Ahead(tb, ty), iy);
    AfterPuts(r, Put(x, ox, tx), Put(y, oy, ty), [Take, Take]);
  }

  lemma AfterPut<T>(r: Ring<T>, put: Op<T>, ops: seq<Op<T>>)
    requires r.ibase < MAX_RQ && |r.slots| == MAX_RQ && put.Put?
    ensures Outs(r, [put] + ops) == Outs(Step(r, put).0, ops)
  {
    assert ([put] + ops)[1..] == ops;
  }

  lemma AfterPuts<T>(r: Ring<T>, put: Op<T>, put': Op<T>, ops: seq<Op<T>>)
    requires r.ibase < MAX_RQ && |r.slots| == MAX_RQ && put.Put? && put'.Put?
    ensures Outs(r, [put, put'] + ops) == Outs(Step(Step(r, put).0, put').0, ops)
  {
    AfterPut(Step(r, put).0, put', ops);
    AfterPut(r, put, [put'] + ops);
    assert [put, put'] + ops == [put] + ([put'] + ops);
  }

  lemma OutsOfPair<T>(r: Ring<T>, a: nat, x: Item<T>, b: nat, y: Item<T>)
    requires Pair(r, a, x, b, y)
    ensures Outs(r, [Take, Take]) == if a <= b then [Some(x), Some(y)] else [Some(y), Some(x)]
  {
    OutsOfTwo(r);
    DequeuePair(r, a, x, b, y);
    var r' := Dequeue(r).0;
    if a <= b { DequeueAhead(r', b, y); } else { DequeueAhead(r', a, x); }
  }

  /** A slot that does not lie round the end of the ring is in reach. */
  lemma DequeueAhead<T>(r: Ring<T>, s: nat, x: Item<T>)
    requires Only(r, s, x) && r.ibase <= s
    ensures Dequeue(r).1 == Some(x)
  {
    DequeueOnly(r, s, x);
  }

  lemma OutsOfTwo<T>(r: Ring<T>)
    requires r.ibase < MAX_RQ && |r.slots| == MAX_RQ
    ensures Outs(r, [Take, Take]) == [Dequeue(r).1, Dequeue(Dequeue(r).0).1]
  {
    var r' := Dequeue(r).0;
    RunUnfold(r', Take, []);
    RunUnfold(r, Take, [Take]);
    assert [Op<T>.Take] + [] == [Take] && [Op<T>.Take] + [Take] == [Take, Take];
    assert Outs(Step(r', Take).0, []) == [];
  }

  /** A task before the base time, by up to 2^31 slots, goes to the farthest slot. */
  lemma LateTaskGoesLast(tbase: nat, t: nat)
    requires t < tbase <= t + TWO_TO_THE_31 * NS_SLOT && tbase < TWO_TO_THE_64
    ensures Ahead(tbase, t) == MAX_RQ - 1
  {
    assert (t - tbase) % TWO_TO_THE_64 == TWO_TO_THE_64 - (tbase - t);
  }

  /** The slot of a time before the base is that of a time nearly 2^64 ahead, and slots repeat every 2^32. */
  lemma AheadWraps(tbase: nat, t: nat)
    requires tbase < TWO_TO_THE_64 && t < TWO_TO_THE_64
    ensures t < tbase ==> Ahead(tbase, t) == Ahead(0, t + 0x1_0000_0000_0000_0000 - tbase)
    ensures tbase <= t && t + 0x1_0000_0000 * 5_000_000 < TWO_TO_THE_64 ==>
              Ahead(tbase, t + 0x1_0000_0000 * 5_000_000) == Ahead(tbase, t)
  {
    if t < tbase {
      assert (t - tbase) % TWO_TO_THE_64 == t + TWO_TO_THE_64 - tbase;
    } else if t + TWO_TO_THE_32 * NS_SLOT < TWO_TO_THE_64 {
      var q := (t - tbase) / NS_SLOT;
      assert (t + TWO_TO_THE_32 * NS_SLOT - tbase) / NS_SLOT == q + TWO_TO_THE_32;
    }
  }

  /** So it is returned after a task that is due later, however much later: by more than a slot if the two are more
      than a slot apart. */
  lemma LateTaskIsServedLast<T>(x: T, tx: nat, y: T, oy: nat, ty: nat, tb: nat)
    requires ty < tb <= ty + TWO_TO_THE_31 * NS_SLOT && tb <= tx < TWO_TO_THE_64
    ensures Outs(Init(), [Put(x, tb, tx), Put(y, oy, ty)] + [Take, Take]) ==
            [Some(Entry(x, tb, tx, 0)), Some(Entry(y, tb, ty, 1))]
  {
    TwoTasks(Init(), x, tb, tx, y, oy, ty);
    LateTaskGoesLast(tb, ty);
  }

  /** A base time of 0 counts as unset: a task that seeds it while another one waits is returned first, although it is
      due later by a slot or more. */
  lemma ReseedServesLaterFirst<T>(x: T, tx: nat, y: T, ty: nat)
    requires NS_SLOT <= tx < MAX_RQ * NS_SLOT && tx + NS_SLOT <= ty < TWO_TO_THE_64
    ensures Outs(Init(), [Put(x, 0, tx), Put(y, ty, ty)] + [Take, Take]) ==
            [Some(Entry(y, ty, ty, 1)), Some(Entry(x, 0, tx, 0))]
    ensures Entry(y, ty, ty, 1).near
  {
    TwoTasks(Init(), x, 0, tx, y, ty, ty);
    QueuedInTime(0, tx);
    QueuedInTime(ty, ty);
  }

  lemma SteadyCons<T>(r: Ring<T>, op: Op<T>, ops: seq<Op<T>>)
    requires r.ibase < MAX_RQ && |r.slots| == MAX_RQ && Ready(r, op) && Steady(Step(r, op).0, ops)
    ensures Steady(r, [op] + ops)
  {
    assert ([op] + ops)[1..] == ops;
  }

  lemma ReadyAhead<T>(r: Ring<T>, s: nat)
    requires r.ibase <= s < MAX_RQ && |r.slots| == MAX_RQ && r.slots[s] != []
    ensures Ready(r, Take)
  {
    assert Dist(r.ibase, s) < Horizon(r.ibase);
  }

  lemma SteadyTakes<T>(r: Ring<T>, a: nat, x: Item<T>, b: nat, y: Item<T>)
    requires Pair(r, a, x, b, y)
    ensures Steady(r, [Take] + ([Take] + []))
  {
    DequeuePair(r, a, x, b, y);
    ReadyAhead(r, a);
    ReadyAhead(Dequeue(r).0, if a <= b then b else a);
    SteadyCons(Dequeue(r).0, Take, []);
    SteadyCons(r, Take, [Take] + []);
  }

  /** Two punctual tasks and two dequeues are a steady run. */
  lemma TwoTasksSteady<T>(r: Ring<T>, x: T, ox: nat, tx: nat, y: T, oy: nat, ty: nat)
    requires Empty(r) && r.ibase == 0 && |r.slots| == MAX_RQ && r.tbase == 0
    requires Punctual(r, ox, tx) && Punctual(Queue(r, x, ox, tx), oy, ty)
    ensures Steady(r, [Put(x, ox, tx)] + ([Put(y, oy, ty)] + ([Take] + ([Take] + []))))
  {
    var r1, ix := Queue(r, x, ox, tx), Entry(x, ox, tx, r.puts);
    var tb := if ox == 0 then oy else ox;
    QueueOnly(r, x, ox, tx);
    QueuePair(r1, Ahead(ox, tx), ix, y, oy, ty);
    SteadyTakes(Queue(r1, y, oy, ty), Ahead(ox, tx), ix, Ahead(tb, ty), Entry(y, tb, ty, r.puts + 1));
    var takes: seq<Op<T>> := [Take] + ([Take] + []);
    SteadyCons(r1, Put(y, oy, ty), takes);
    SteadyCons(r, Put(x, ox, tx), [Put(y, oy, ty)] + takes);
  }

  /** A task 2^32 slots ahead goes to the base slot, since the slot number is cut to 32 bits: in a steady run it is
      served before a task that is due now and was queued after it, so a task that is not near can be returned far too
      early. */
  lemma FarTaskCanBeServedFirst<T>(x: T, y: T)
    ensures var far := 1 + TWO_TO_THE_32 * NS_SLOT;
            var ops := [Put(x, 1, far), Put(y, 1, 1)] + [Take, Take];
            && Steady(Init(), ops)
            && Outs(Init(), ops) == [Some(Entry(x, 1, far, 0)), Some(Entry(y, 1, 1, 1))]
  {
    var far := 1 + TWO_TO_THE_32 * NS_SLOT;
    assert Ahead(1, far) == 0;
    TwoTasks(Init(), x, 1, far, y, 1, 1);
    TwoTasksSteady(Init(), x, 1, far, y, 1, 1);
    assert [Put(x, 1, far)] + ([Put(y, 1, 1)] + ([Take] + ([Take] + [])))
        == [Put(x, 1, far), Put(y, 1, 1)] + [Take, Take];
  }
}
