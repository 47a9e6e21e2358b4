/** The timed ring of smart-queue.c: 256 doubly linked lists, an occupancy bitmap and the moving base. */
module TimedRing {
  import opened Common
  import opened Bits
  import opened RingSpec
  import opened RingOrder

  /** `nstime_t` */
  type nstime = t: nat | t < TWO_TO_THE_64

  /** `struct list_head`, with the `t` of the task around it.  Ghost: which list it is on, and where (0 is the head). */
  class Link {
    var next: Link?
    var prev: Link?
    var t: nstime
    ghost var slot: int
    ghost var idx: int

    constructor ()
      ensures next == null && prev == null && t == 0
    {
      next, prev, t := null, null, 0;
    }
  }

  /** Slot `64 * i + j`, reached in the m-th word after the one of the base slot. */
  lemma DistOfBit(ibase: nat, m: nat, j: nat)
    requires ibase < MAX_RQ && m < MAP_LONGS && j < BITS_X_LONG
    ensures var i, b := (ibase / BITS_X_LONG + m) % MAP_LONGS, ibase % BITS_X_LONG;
            var z := i * BITS_X_LONG + j;
            z < MAX_RQ && Dist(ibase, z) == if m == 0 && j < b then MAX_RQ - b + j else m * BITS_X_LONG + j - b
  {
    var i, b := (ibase / BITS_X_LONG + m) % MAP_LONGS, ibase % BITS_X_LONG;
    assert ibase == ibase / BITS_X_LONG * BITS_X_LONG + b;
  }

  /** Every slot is some bit of some word of the scan. */
  lemma BitOfDist(ibase: nat, z: nat) returns (m: nat, j: nat)
    requires ibase < MAX_RQ && z < MAX_RQ
    ensures m < MAP_LONGS && j < BITS_X_LONG && z == (ibase / BITS_X_LONG + m) % MAP_LONGS * BITS_X_LONG + j
  {
    m, j := (z / BITS_X_LONG - ibase / BITS_X_LONG) % MAP_LONGS, z % BITS_X_LONG;
    assert z == z / BITS_X_LONG * BITS_X_LONG + j;
  }

  class TrRq {
    var ibase: nat
    var tbase: nat
    const tsks: seq<Link>
    const words: array<nat>
    ghost var slots: seq<seq<Item<Link>>>
    ghost var cells: set<Link>
    ghost var puts: nat

    /** The j-th cell of a slot's circular list; cell 0 is the list head. */
    ghost function Cell(s: nat, j: nat): Link
      requires s < |tsks| && s < |slots| && j <= |slots[s]|
      reads this`slots
    {
      if j == 0 then tsks[s] else slots[s][j - 1].task
    }

    ghost predicate Shaped()
      reads this`slots
    {
      |tsks| == MAX_RQ && |slots| == MAX_RQ && words.Length == MAP_LONGS
    }

    ghost predicate Sized()
      reads this
    {
      Shaped() && ibase < MAX_RQ && tbase < TWO_TO_THE_64
    }

    ghost predicate LinkOk(s: nat, j: nat)
      requires s < |tsks| && s < |slots| && j <= |slots[s]|
      reads this`slots, this`cells, cells
    {
      var c := Cell(s, j);
      && c in cells && c.slot == s && c.idx == j
      && c.next == Cell(s, if j == |slots[s]| then 0 else j + 1)
      && c.prev == Cell(s, if j == 0 then |slots[s]| else j - 1)
      && (j > 0 ==> slots[s][j - 1].t == c.t)
    }

    /** A cell is where its ghost fields say. */
    ghost predicate Placed(c: Link)
      requires Shaped()
      reads this`slots, c
    {
      0 <= c.slot < MAX_RQ && 0 <= c.idx <= |slots[c.slot]| && c == Cell(c.slot, c.idx)
    }

    /** Each slot is a well-formed circular list of exactly its tasks, and there are no other cells. */
    ghost predicate Lists()
      requires Shaped()
      reads this`slots, this`cells, cells
    {
      && (forall s: nat, j: nat {:trigger LinkOk(s, j)} :: s < MAX_RQ && j <= |slots[s]| ==> LinkOk(s, j))
      && (forall c :: c in cells ==> Placed(c))
    }

    /** A bit is set exactly when its slot is not empty. */
    ghost predicate Mapped()
      requires Shaped()
      reads this`slots, words
    {
      forall i: nat, j: nat {:trigger Bit(words[i], j)} :: i < MAP_LONGS ==>
        (Bit(words[i], j) <==> j < BITS_X_LONG && slots[i * BITS_X_LONG + j] != [])
    }

    ghost predicate Valid()
      reads this, cells, words
    {
      Sized() && Lists() && Mapped()
    }

    ghost function Value(): Ring<Link>
      reads this
    {
      Ring(ibase, tbase, slots, puts)
    }

    method SetBit(nr: nat)
      requires nr < words.Length * BITS_X_LONG
      modifies words
      ensures forall i: nat, j: nat {:trigger Bit(words[i], j)} :: i < words.Length ==>
                (Bit(words[i], j) <==> old(Bit(words[i], j)) || (i == nr / BITS_X_LONG && j == nr % BITS_X_LONG))
    {
      var k := nr / BITS_X_LONG;
      ghost var w := words[k];
      words[k] := Or(words[k], One(nr % BITS_X_LONG));
      forall j: nat ensures Bit(words[k], j) <==> Bit(w, j) || j == nr % BITS_X_LONG {
        BitOfOr(w, One(nr % BITS_X_LONG), j);
        BitOfOne(nr % BITS_X_LONG, j);
      }
    }

    method ClearBit(nr: nat)
      requires nr < words.Length * BITS_X_LONG
      modifies words
      ensures forall i: nat, j: nat {:trigger Bit(words[i], j)} :: i < words.Length ==>
                (Bit(words[i], j) <==> old(Bit(words[i], j)) && !(i == nr / BITS_X_LONG && j == nr % BITS_X_LONG))
    {
      var k := nr / BITS_X_LONG;
      ghost var w := words[k];
      words[k] := AndNot(words[k], One(nr % BITS_X_LONG));
      forall j: nat ensures Bit(words[k], j) <==> Bit(w, j) && j != nr % BITS_X_LONG {
        BitOfAndNot(w, One(nr % BITS_X_LONG), j);
        BitOfOne(nr % BITS_X_LONG, j);
      }
    }

    /** The m-th word the scan looks at, and the bits it masks out there. */
    function WordAt(m: nat): (i: nat)
      reads this`ibase
      ensures i < MAP_LONGS
    {
      (ibase / BITS_X_LONG + m) % MAP_LONGS
    }

    function MaskAt(m: nat): nat
      reads this`ibase
    {
      if m == 0 then One(ibase % BITS_X_LONG) - 1 else 0
    }

    /** No slot of the first `m` words of the scan holds a task, up to the bits masked out. */
    ghost predicate EmptySoFar(m: nat)
      requires Sized()
      reads this
    {
      forall z :: 0 <= z < MAX_RQ && slots[z] != [] ==>
        Dist(ibase, z) >= if m == 0 then 0 else m * BITS_X_LONG - ibase % BITS_X_LONG
    }

    /** `rel_ffs`: the non-empty slot nearest to the base, as far as the scan reaches.  `low` is the complement of
        the source's `mask`. */
    method RelFfs() returns (idx: nat)
      requires Sized() && Mapped()
      ensures idx == Scan(Value(), 0)
    {
      var i, b := ibase / BITS_X_LONG, ibase % BITS_X_LONG;
      var low := One(b) - 1;
      var n := MAP_LONGS;
      while n > 0
        invariant 0 <= n <= MAP_LONGS && i == WordAt(MAP_LONGS - n) && low == MaskAt(MAP_LONGS - n)
        invariant EmptySoFar(MAP_LONGS - n)
      {
        var v := AndNot(words[i], low);
        if v != 0 {
          var k := Ffs(v);
          ScanWord(MAP_LONGS - n, k);
          return i * BITS_X_LONG + k;
        }
        EmptyWord(MAP_LONGS - n);
        NextWord(MAP_LONGS - n);
        i := (i + 1) % MAP_LONGS;
        low := 0;
        n := n - 1;
      }
      EmptyScan();
      return MAX_RQ;
    }

    lemma NextWord(m: nat)
      ensures WordAt(m + 1) == (WordAt(m) + 1) % MAP_LONGS && MaskAt(m + 1) == 0
    {
    }

    lemma EmptyScan()
      requires Sized() && EmptySoFar(MAP_LONGS)
      ensures Scan(Value(), 0) == MAX_RQ
    {
    }

    /** A bit of a masked word stands for a slot that is not empty. */
    lemma BitOfSlot(m: nat, k: nat)
      requires Sized() && Mapped() && m < MAP_LONGS
      ensures Bit(AndNot(words[WordAt(m)], MaskAt(m)), k) <==>
              k < BITS_X_LONG && slots[WordAt(m) * BITS_X_LONG + k] != [] && !(m == 0 && k < ibase % BITS_X_LONG)
    {
      BitOfAndNot(words[WordAt(m)], MaskAt(m), k);
      BitOfLow(ibase % BITS_X_LONG, k);
      NoBits(k);
      assert Bit(words[WordAt(m)], k) <==> k < BITS_X_LONG && slots[WordAt(m) * BITS_X_LONG + k] != [];
    }

    lemma NoneNearer(m: nat, k: nat, z: nat)
      requires Sized() && Mapped() && m < MAP_LONGS && k <= BITS_X_LONG && z < MAX_RQ && slots[z] != []
      requires forall j: nat :: j < k ==> !Bit(AndNot(words[WordAt(m)], MaskAt(m)), j)
      requires EmptySoFar(m)
      ensures Dist(ibase, z) >= m * BITS_X_LONG + k - ibase % BITS_X_LONG
    {
      var m', j := BitOfDist(ibase, z);
      DistOfBit(ibase, m', j);
      if m' == m && j < k {
        BitOfSlot(m, j);
      }
    }

    /** The lowest bit of the first masked word that is not zero is that of the nearest slot. */
    lemma ScanWord(m: nat, k: nat)
      requires Sized() && Mapped() && m < MAP_LONGS && EmptySoFar(m)
      requires var v := AndNot(words[WordAt(m)], MaskAt(m)); Bit(v, k) && forall j: nat :: j < k ==> !Bit(v, j)
      ensures Scan(Value(), 0) == WordAt(m) * BITS_X_LONG + k
    {
      BitOfSlot(m, k);
      DistOfBit(ibase, m, k);
      forall z | 0 <= z < MAX_RQ && slots[z] != []
        ensures Dist(ibase, z) >= m * BITS_X_LONG + k - ibase % BITS_X_LONG
      {
        NoneNearer(m, k, z);
      }
      ScanFinds(Value(), WordAt(m) * BITS_X_LONG + k);
    }

    lemma EmptyWord(m: nat)
      requires Sized() && Mapped() && m < MAP_LONGS && EmptySoFar(m)
      requires AndNot(words[WordAt(m)], MaskAt(m)) == 0
      ensures EmptySoFar(m + 1)
    {
      forall j: nat ensures !Bit(0, j) { NoBits(j); }
      forall z | 0 <= z < MAX_RQ && slots[z] != []
        ensures Dist(ibase, z) >= (m + 1) * BITS_X_LONG - ibase % BITS_X_LONG
      {
        NoneNearer(m, BITS_X_LONG, z);
      }
    }

    static method ListAddTail(lnk: Link, head: Link)
      requires head.prev != null && lnk != head && lnk != head.prev
      modifies lnk`next, lnk`prev, head`prev, head.prev`next
      ensures head.prev == lnk && lnk.next == head && lnk.prev == old(head.prev) && old(head.prev).next == lnk
    {
      var prev := head.prev;
      head.prev := lnk;
      lnk.next := head;
      lnk.prev := prev;
      prev.next := lnk;
    }

    static method ListDel(entry: Link)
      requires entry.prev != null && entry.next != null && entry.prev != entry && entry.next != entry
      modifies entry`next, entry`prev, entry.prev`next, entry.next`prev
      ensures entry.next == null && entry.prev == null
      ensures old(entry.prev).next == old(entry.next) && old(entry.next).prev == old(entry.prev)
    {
      entry.next.prev := entry.prev;
      entry.prev.next := entry.next;
      entry.next := null;
      entry.prev := null;
    }

    /** `list_add_tail` of a task to a slot, and what that changes of each other cell. */
    method LinkLast(tsk: Link, s: nat, ghost x: Item<Link>)
      requires Sized() && Lists() && tsk !in cells && s < MAX_RQ && x.task == tsk && x.t == tsk.t
      modifies this`slots, this`cells, cells`next, cells`prev, tsk`next, tsk`prev, tsk`slot, tsk`idx
      ensures Added(s, x)
    {
      ghost var n := |slots[s]|;
      assert LinkOk(s, 0) && LinkOk(s, n);
      ListAddTail(tsk, tsks[s]);
      tsk.slot, tsk.idx := s, n + 1;
      slots := slots[s := slots[s] + [x]];
      cells := cells + {tsk};
    }

    /** The change `LinkLast` makes: the task stands between the cell that was last and the head. */
    twostate predicate Added(s: nat, new x: Item<Link>)
      requires old(Sized()) && s < MAX_RQ
      reads this`slots, this`cells, cells
    {
      var n := |old(slots)[s]|;
      && slots == old(slots)[s := old(slots)[s] + [x]] && cells == old(cells) + {x.task}
      && x.task !in old(cells) && x.task.t == x.t
      && x.task.slot == s && x.task.idx == n + 1 && x.task.next == tsks[s] && x.task.prev == old(Cell(s, n))
      && forall c {:trigger c in old(cells)} :: c in old(cells) ==>
           && c.slot == old(c.slot) && c.idx == old(c.idx) && c.t == old(c.t)
           && c.next == (if c == old(Cell(s, n)) then x.task else old(c.next))
           && c.prev == (if c == tsks[s] then x.task else old(c.prev))
    }

    twostate lemma AddedLinkOk(s: nat, new x: Item<Link>, new z: nat, new j: nat)
      requires old(Sized() && Lists()) && s < MAX_RQ && Added(s, x) && z < MAX_RQ && j <= |slots[z]|
      ensures LinkOk(z, j)
    {
      assert old(LinkOk(s, 0)) && old(LinkOk(s, |slots[s]|));
      if z != s || j <= |old(slots)[s]| {
        assert old(LinkOk(z, j)) && Cell(z, j) == old(Cell(z, j));
      }
    }

    /** Puts a task at the end of a slot's list. */
    method Append(tsk: Link, s: nat, ghost x: Item<Link>)
      requires Sized() && Lists() && tsk !in cells && s < MAX_RQ && x.task == tsk && x.t == tsk.t
      modifies this`slots, this`cells, cells`next, cells`prev, tsk`next, tsk`prev, tsk`slot, tsk`idx
      ensures Sized() && Lists() && cells == old(cells) + {tsk}
      ensures slots == old(slots)[s := old(slots)[s] + [x]]
    {
      LinkLast(tsk, s, x);
      forall z: nat, j: nat {:trigger LinkOk(z, j)} | z < MAX_RQ && j <= |slots[z]| ensures LinkOk(z, j) {
        AddedLinkOk(s, x, z, j);
      }
      assert forall c :: c in old(cells) ==> old(Placed(c));
    }

    /** `list_del` of the first task of a slot, and what that changes of each other cell. */
    method Unlink(s: nat) returns (tsk: Link)
      requires Sized() && Lists() && s < MAX_RQ && slots[s] != []
      modifies this`slots, this`cells, cells`next, cells`prev, cells`idx
      ensures tsk == old(slots)[s][0].task && Taken(s)
    {
      ghost var n := |slots[s]|;
      assert LinkOk(s, 0) && LinkOk(s, 1) && LinkOk(s, n);
      assert n > 1 ==> LinkOk(s, 2);
      tsk := tsks[s].next;
      ListDel(tsk);
      slots := slots[s := slots[s][1..]];
      cells := cells - {tsk};
      Shift(s);
    }

    /** The change `Unlink` makes: head and second cell are joined, and the cells behind move up. */
    twostate predicate Taken(s: nat)
      requires old(Sized()) && s < MAX_RQ && old(slots)[s] != []
      reads this`slots, this`cells, cells
    {
      && slots == old(slots)[s := old(slots)[s][1..]] && cells == old(cells) - {old(slots)[s][0].task}
      && forall c {:trigger c in cells} :: c in cells ==>
           && c.slot == old(c.slot) && c.t == old(c.t)
           && c.idx == (if c.slot == s && old(c.idx) > 0 then old(c.idx) - 1 else old(c.idx))
           && c.next == (if c == tsks[s] then old(slots[s][0].task.next) else old(c.next))
           && c.prev == (if c == old(slots[s][0].task.next) then tsks[s] else old(c.prev))
    }

    twostate lemma TakenLinkOk(s: nat, new z: nat, new j: nat)
      requires old(Sized() && Lists()) && s < MAX_RQ && old(slots)[s] != [] && Taken(s)
      requires z < MAX_RQ && j <= |slots[z]|
      ensures LinkOk(z, j)
    {
      assert old(LinkOk(s, 0) && LinkOk(s, 1));
      assert |old(slots)[s]| > 1 ==> old(LinkOk(s, 2));
      if z == s {
        assert old(LinkOk(s, if j == 0 then 0 else j + 1));
        assert j > 0 ==> slots[s][j - 1] == old(slots)[s][j];
      } else {
        assert old(LinkOk(z, j)) && Cell(z, j) == old(Cell(z, j));
      }
    }

    twostate lemma TakenPlaced(s: nat, new c: Link)
      requires old(Sized() && Lists()) && s < MAX_RQ && old(slots)[s] != [] && Taken(s) && c in cells
      ensures Placed(c)
    {
      assert old(LinkOk(s, 1)) && old(Placed(c));
      assert c.slot == s ==> old(c.idx) != 1;
    }

    /** Takes the first task off a slot's list. */
    method TakeFirst(s: nat) returns (tsk: Link)
      requires Sized() && Lists() && s < MAX_RQ && slots[s] != []
      modifies this`slots, this`cells, cells`next, cells`prev, cells`idx
      ensures Sized() && Lists() && cells == old(cells) - {tsk}
      ensures tsk == old(slots)[s][0].task && slots == old(slots)[s := old(slots)[s][1..]]
    {
      tsk := Unlink(s);
      forall z: nat, j: nat {:trigger LinkOk(z, j)} | z < MAX_RQ && j <= |slots[z]| ensures LinkOk(z, j) {
        TakenLinkOk(s, z, j);
      }
      forall c | c in cells ensures Placed(c) { TakenPlaced(s, c); }
    }

    ghost method Shift(s: nat)
      modifies cells`idx
      ensures forall c :: c in cells ==> c.idx == if c.slot == s && old(c.idx) > 0 then old(c.idx) - 1 else old(c.idx)
    {
      forall c | c in cells { c.idx := if c.slot == s && c.idx > 0 then c.idx - 1 else c.idx; }
    }

    constructor ()
      ensures Valid() && Value() == Init() && fresh(words) && fresh(cells) && forall h :: h in tsks ==> fresh(h)
    {
      var heads: seq<Link> := [];
      while |heads| < MAX_RQ
        invariant |heads| <= MAX_RQ
        invariant forall s :: 0 <= s < |heads| ==> fresh(heads[s])
        invariant forall s :: 0 <= s < |heads| ==> heads[s].next == heads[s].prev == heads[s]
        invariant forall s :: 0 <= s < |heads| ==> heads[s].slot == s && heads[s].idx == 0
      {
        var h := new Link();
        h.next, h.prev := h, h;
        h.slot, h.idx := |heads|, 0;
        heads := heads + [h];
      }
      ibase, tbase, tsks := 0, 0, heads;
      words := new nat[MAP_LONGS](_ => 0);
      slots, puts := seq(MAX_RQ, _ => []), 0;
      cells := set s | 0 <= s < MAX_RQ :: heads[s];
      new;
      forall s: nat, j: nat {:trigger LinkOk(s, j)} | s < MAX_RQ && j <= |slots[s]| ensures LinkOk(s, j) {
        assert Cell(s, j) == heads[s];
      }
      assert forall c :: c in cells ==> Placed(c);
      forall i: nat, j: nat {:trigger Bit(words[i], j)} | i < MAP_LONGS ensures !Bit(words[i], j) {
        NoBits(j);
      }
    }

    /** `tr_queue` */
    method Queue(tsk: Link, t: nstime)
      requires Valid() && tsk !in cells
      modifies this, words, cells`next, cells`prev, tsk
      ensures Valid() && cells == old(cells) + {tsk} && tsk.t == t
      ensures Value() == RingSpec.Queue(old(Value()), tsk, old(tsk.t), t)
    {
      ghost var x := Noted(Value(), tsk, tsk.t, t);
      if tbase == 0 {
        tbase := tsk.t;
      }
      tsk.t := t;
      var idx := ((t - tbase) % TWO_TO_THE_64) / NS_SLOT % TWO_TO_THE_32;
      if idx >= MAX_RQ {
        idx := MAX_RQ - 1;
      }
      idx := (idx + ibase) % MAX_RQ;
      QueueIn(tsk, idx, x);
      puts := puts + 1;
    }

    method QueueIn(tsk: Link, s: nat, ghost x: Item<Link>)
      requires Valid() && tsk !in cells && s < MAX_RQ && x.task == tsk && x.t == tsk.t
      modifies this`slots, this`cells, words, cells`next, cells`prev, tsk`next, tsk`prev, tsk`slot, tsk`idx
      ensures Valid() && cells == old(cells) + {tsk}
      ensures slots == old(slots)[s := old(slots)[s] + [x]]
    {
      Append(tsk, s, x);
      SetBit(s);
      forall i: nat, j: nat {:trigger Bit(words[i], j)} | i < MAP_LONGS
        ensures Bit(words[i], j) <==> j < BITS_X_LONG && slots[i * BITS_X_LONG + j] != []
      {
        assert old(Bit(words[i], j)) <==> j < BITS_X_LONG && old(slots[i * BITS_X_LONG + j]) != [];
      }
    }

    method DequeueFrom(s: nat) returns (tsk: Link)
      requires Valid() && s < MAX_RQ && slots[s] != []
      modifies this`slots, this`cells, words, cells`next, cells`prev, cells`idx
      ensures Valid() && cells == old(cells) - {tsk}
      ensures tsk == old(slots)[s][0].task && slots == old(slots)[s := old(slots)[s][1..]]
    {
      tsk := TakeFirst(s);
      assert LinkOk(s, 0);
      assert |slots[s]| > 0 ==> LinkOk(s, 1);
      if tsks[s].next == tsks[s] {
        ClearBit(s);
      }
      forall i: nat, j: nat {:trigger Bit(words[i], j)} | i < MAP_LONGS
        ensures Bit(words[i], j) <==> j < BITS_X_LONG && slots[i * BITS_X_LONG + j] != []
      {
        assert old(Bit(words[i], j)) <==> j < BITS_X_LONG && old(slots[i * BITS_X_LONG + j]) != [];
      }
    }

    /** `tr_dequeue` */
    method Dequeue() returns (tsk: Link?)
      requires Valid()
      modifies this, words, cells`next, cells`prev, cells`idx
      ensures Valid() && Value() == RingSpec.Dequeue(old(Value())).0
      ensures match RingSpec.Dequeue(old(Value())).1
              case None => tsk == null && cells == old(cells)
              case Some(x) => tsk == x.task && tsk.t == x.t && cells == old(cells) - {x.task}
    {
      var idx := RelFfs();
      if idx == MAX_RQ {
        tbase := 0;
        return null;
      }
      assert LinkOk(idx, 1);
      tsk := DequeueFrom(idx);
      var d := (idx - ibase) % MAX_RQ;
      ibase := idx;
      tbase := (tbase + NS_SLOT * d) % TWO_TO_THE_64;
    }
  }

  // ---------------------------------------------------------------- whole runs

  datatype Call = TrQueue(task: Link, t: nstime) | TrDequeue

  ghost function TasksOf(calls: seq<Call>): set<Link> {
    set c | c in calls && c.TrQueue? :: c.task
  }

  /** The operations of the specification that the calls amount to: the old time of a task is the one it was queued
      with last, and that in `ts` before. */
  ghost function OpsOf(calls: seq<Call>, ts: map<Link, nstime>): seq<Op<Link>>
    requires TasksOf(calls) <= ts.Keys
  {
    if calls == [] then [] else
    assert TasksOf(calls[1..]) <= TasksOf(calls);
    match calls[0]
    case TrQueue(task, t) => [Put(task, ts[task], t)] + OpsOf(calls[1..], ts[task := t])
    case TrDequeue => [Take] + OpsOf(calls[1..], ts)
  }

  ghost predicate Waits(r: Ring<Link>, task: Link) {
    exists s, i :: 0 <= s < |r.slots| && 0 <= i < |r.slots[s]| && r.slots[s][i].task == task
  }

  /** What a run may ask: no task is queued while it is waiting. */
  ghost predicate Feasible(r: Ring<Link>, ops: seq<Op<Link>>)
    requires r.ibase < MAX_RQ && |r.slots| == MAX_RQ
    decreases |ops|
  {
    ops != [] ==> (ops[0].Put? ==> !Waits(r, ops[0].task)) && Feasible(Step(r, ops[0]).0, ops[1..])
  }

  /** What a dequeue returns and the time its caller then reads from the task. */
  ghost predicate Shows(tsk: Link?, t: nat, out: Option<Item<Link>>) {
    match out
    case None => tsk == null
    case Some(x) => tsk == x.task && t == x.t
  }

  ghost predicate ShowAll(tsks: seq<Link?>, times: seq<nat>, outs: seq<Option<Item<Link>>>) {
    |tsks| == |times| == |outs| && forall i :: 0 <= i < |outs| ==> Shows(tsks[i], times[i], outs[i])
  }

  lemma ShowMore(tsk: Link?, t: nat, out: Option<Item<Link>>,
                 tsks: seq<Link?>, times: seq<nat>, outs: seq<Option<Item<Link>>>)
    requires Shows(tsk, t, out) && ShowAll(tsks, times, outs)
    ensures ShowAll([tsk] + tsks, [t] + times, [out] + outs)
  {
  }

  /** A task on a list is a list head or waiting. */
  lemma CellWaits(rq: TrRq, c: Link)
    requires rq.Valid() && c in rq.cells && c !in rq.tsks
    ensures Waits(rq.Value(), c)
  {
    assert rq.Placed(c);
    assert rq.slots[c.slot][c.idx - 1].task == c;
  }

  lemma FeasibleUnfold(r: Ring<Link>, op: Op<Link>, ops: seq<Op<Link>>)
    requires r.ibase < MAX_RQ && |r.slots| == MAX_RQ && Feasible(r, [op] + ops)
    ensures (op.Put? ==> !Waits(r, op.task)) && Feasible(Step(r, op).0, ops)
  {
    assert ([op] + ops)[1..] == ops;
  }

  method StepQueue(rq: TrRq, task: Link, t: nstime, ghost ops: seq<Op<Link>>)
    requires rq.Valid() && task !in rq.tsks && Feasible(rq.Value(), [Put(task, task.t, t)] + ops)
    modifies rq, rq.words, rq.cells`next, rq.cells`prev, task
    ensures rq.Valid() && rq.cells == old(rq.cells) + {task} && task.t == t
    ensures rq.Value() == Step(old(rq.Value()), Put(task, old(task.t), t)).0 && Feasible(rq.Value(), ops)
  {
    FeasibleUnfold(rq.Value(), Put(task, task.t, t), ops);
    if task in rq.cells { CellWaits(rq, task); }
    rq.Queue(task, t);
  }

  method StepDequeue(rq: TrRq, ghost ops: seq<Op<Link>>) returns (tsk: Link?, t: nat)
    requires rq.Valid() && Feasible(rq.Value(), [Take] + ops)
    modifies rq, rq.words, rq.cells`next, rq.cells`prev, rq.cells`idx
    ensures rq.Valid() && rq.cells <= old(rq.cells)
    ensures rq.Value() == Step(old(rq.Value()), Take).0 && Feasible(rq.Value(), ops)
    ensures Shows(tsk, t, Step(old(rq.Value()), Take).1)
  {
    FeasibleUnfold(rq.Value(), Take, ops);
    tsk := rq.Dequeue();
    t := if tsk == null then 0 else tsk.t;
  }

  /** Every run of `tr_queue` and `tr_dequeue` on the linked lists and the bitmap returns the tasks, with the times,
      that the specification returns, and leaves the ring that the specification leaves. */
  method Run(rq: TrRq, calls: seq<Call>, ghost ts: map<Link, nstime>) returns (tsks: seq<Link?>, times: seq<nat>)
    requires rq.Valid() && TasksOf(calls) <= ts.Keys
    requires forall l :: l in TasksOf(calls) ==> ts[l] == l.t && l !in rq.tsks
    requires Feasible(rq.Value(), OpsOf(calls, ts))
    modifies rq, rq.words, rq.cells, TasksOf(calls)
    ensures rq.Valid() && rq.Value() == Final(old(rq.Value()), OpsOf(calls, ts))
    ensures ShowAll(tsks, times, Outs(old(rq.Value()), OpsOf(calls, ts)))
    decreases |calls|
  {
    if calls == [] {
      return [], [];
    }
    ghost var r := rq.Value();
    assert TasksOf(calls[1..]) <= TasksOf(calls);
    match calls[0] {
      case TrQueue(task, t) =>
        assert task in TasksOf(calls);
        ghost var ops := OpsOf(calls[1..], ts[task := t]);
        RunUnfold(r, Put(task, task.t, t), ops);
        StepQueue(rq, task, t, ops);
        tsks, times := Run(rq, calls[1..], ts[task := t]);
      case TrDequeue =>
        ghost var ops := OpsOf(calls[1..], ts);
        RunUnfold(r, Take, ops);
        var tsk, t := StepDequeue(rq, ops);
        tsks, times := Run(rq, calls[1..], ts);
        ShowMore(tsk, t, Step(r, Take).1, tsks, times, Outs(Step(r, Take).0, ops));
        tsks, times := [tsk] + tsks, [t] + times;
    }
  }

  /** What the ordering theorem says of the pointers and the times read from them. */
  lemma ShownNearlySorted(r: Ring<Link>, ops: seq<Op<Link>>, tsks: seq<Link?>, times: seq<nat>, i: nat, j: nat)
    requires Timed(r) && Fifo(r) && InReach(r) && Careful(r, ops) && ShowAll(tsks, times, Outs(r, ops))
    requires i < j < |tsks| && forall k :: i <= k <= j ==> tsks[k] != null
    ensures times[i] < times[j] + NS_SLOT
  {
    var outs := Outs(r, ops);
    forall k | i <= k <= j ensures outs[k].Some? { assert Shows(tsks[k], times[k], outs[k]); }
    assert NoNull(outs, i, j);
    CarefulRunsAreNearlySorted(r, ops);
    assert outs[i].value.near;
  }

  /** From `tr_rqinit` on: the run does what the specification does, so if each call is careful, a task is returned less
      than a slot too early with respect to those returned after it before the next NULL. */
  method RunFromInit(calls: seq<Call>, ghost ts: map<Link, nstime>) returns (tsks: seq<Link?>, times: seq<nat>)
    requires TasksOf(calls) <= ts.Keys && forall l :: l in TasksOf(calls) ==> ts[l] == l.t
    requires Feasible(Init(), OpsOf(calls, ts))
    modifies TasksOf(calls)
    ensures ShowAll(tsks, times, Outs(Init(), OpsOf(calls, ts)))
    ensures Careful(Init(), OpsOf(calls, ts)) ==>
              forall i, j :: 0 <= i < j < |tsks| && (forall k :: i <= k <= j ==> tsks[k] != null) ==>
                times[i] < times[j] + NS_SLOT
  {
    var rq := new TrRq();
    ghost var r, ops := rq.Value(), OpsOf(calls, ts);
    tsks, times := Run(rq, calls, ts);
    if Careful(r, ops) {
      InitIsFine<Link>();
      forall i, j | 0 <= i < j < |tsks| && (forall k :: i <= k <= j ==> tsks[k] != null)
        ensures times[i] < times[j] + NS_SLOT
      {
        ShownNearlySorted(r, ops, tsks, times, i, j);
      }
    }
  }
}
