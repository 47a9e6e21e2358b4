/** The CFS run queue of smart-queue.c: a red-black tree keyed by `t`, with a cached leftmost task, and the
    proof that every run of it serves tasks by least `t`, first come first served among equals. */
module CfsQueue {
  import opened RbTree

  ghost predicate InKeyOrder(order: seq<Node>)
    reads order
  {
    forall i, j :: 0 <= i < j < |order| ==> order[i].t <= order[j].t
  }

  lemma InsertKeepsKeyOrder(order: seq<Node>, k: nat, tsk: Node)
    requires InKeyOrder(order) && k <= |order|
    requires forall i :: 0 <= i < k ==> order[i].t <= tsk.t
    requires forall i :: k <= i < |order| ==> tsk.t <= order[i].t
    ensures InKeyOrder(order[..k] + [tsk] + order[k..])
  {
    var r := order[..k] + [tsk] + order[k..];
    assert forall i :: 0 <= i < |r| ==> r[i] == if i < k then order[i] else if i == k then tsk else order[i - 1];
  }

  twostate lemma SameKeysSameOrder(new order: seq<Node>)
    requires old(allocated(order)) && old(InKeyOrder(order))
    requires forall n :: n in order ==> n.t == old(n.t)
    ensures InKeyOrder(order)
  {
  }

  lemma RemoveKeepsKeyOrder(order: seq<Node>, k: nat)
    requires InKeyOrder(order) && k < |order|
    ensures InKeyOrder(order[..k] + order[k + 1..])
  {
    var r := order[..k] + order[k + 1..];
    assert forall i :: 0 <= i < |r| ==> r[i] == order[if i < k then i else i + 1];
  }

  twostate lemma RemovedIsInKeyOrder(new order: seq<Node>, new k: nat, new rest: seq<Node>)
    requires old(allocated(order)) && old(InKeyOrder(order)) && k < |order| && rest == order[..k] + order[k + 1..]
    requires forall n :: n in order ==> n.t == old(n.t)
    ensures InKeyOrder(rest) && (k > 0 ==> rest != [] && rest[0] == order[0])
  {
    SameKeysSameOrder(order);
    RemoveKeepsKeyOrder(order, k);
  }

  class CfsRq {
    const timeline: Tree
    var leftmost: Node?

    /** A red-black tree in key order, whose cached leftmost task is absent or really the first. */
    ghost predicate Valid()
      reads this, timeline, timeline.nodes, timeline.order
    {
      && timeline.Valid()
      && InKeyOrder(timeline.order)
      && (leftmost != null ==> timeline.order != [] && leftmost == timeline.order[0])
    }

    constructor ()
      ensures Valid() && fresh(timeline) && timeline.order == []
    {
      leftmost := null;
      timeline := new Tree();
    }

    /** The descent loop of `cfs_queue`: the free link for key `t`, at position `k` of the in-order sequence. */
    method FindLink(t: nat) returns (parent: Node?, l: bool, leftmost: bool, ghost k: nat)
      requires Valid()
      ensures timeline.FreeLink(parent, l, k) && k <= |timeline.order|
      ensures forall i :: 0 <= i < k ==> timeline.order[i].t <= t
      ensures forall i :: k <= i < |timeline.order| ==> t < timeline.order[i].t
      ensures leftmost <==> k == 0
    {
      var link := timeline.root;
      ghost var lo, hi := 0, |timeline.order|;
      parent, l, leftmost := null, true, true;
      if link != null { assert timeline.UpOk(link) && timeline.LeftOk(link) && timeline.RightOk(link); }
      while link != null
        invariant 0 <= lo <= hi <= |timeline.order|
        invariant link == null <==> lo == hi
        invariant link != null ==> link in timeline.nodes && link.lo == lo && link.hi == hi
        invariant link != null ==> timeline.LeftOk(link) && timeline.RightOk(link)
        invariant link == null ==> timeline.FreeLink(parent, l, lo)
        invariant forall i :: 0 <= i < lo ==> timeline.order[i].t <= t
        invariant forall i :: hi <= i < |timeline.order| ==> t < timeline.order[i].t
        invariant leftmost <==> lo == 0
        decreases hi - lo
      {
        parent := link;
        if t < parent.t {
          link, l, hi := parent.left, true, parent.pos;
        } else {
          link, l, leftmost, lo := parent.right, false, false, parent.pos + 1;
        }
        if link != null { assert timeline.LeftOk(link) && timeline.RightOk(link); }
      }
      k := lo;
    }

    method QueueAt(tsk: Node, t: nat, parent: Node?, l: bool, isLeftmost: bool, ghost k: nat)
      requires Valid() && tsk !in timeline.nodes && timeline.FreeLink(parent, l, k) && k <= |timeline.order|
      requires forall i :: 0 <= i < k ==> timeline.order[i].t <= t
      requires forall i :: k <= i < |timeline.order| ==> t < timeline.order[i].t
      requires isLeftmost <==> k == 0
      modifies this, timeline, tsk, timeline.nodes`left, timeline.nodes`right, timeline.nodes`parent
      modifies timeline.nodes`lo, timeline.nodes`pos, timeline.nodes`hi, timeline.nodes`red, timeline.nodes`bh
      ensures Valid() && timeline.nodes == old(timeline.nodes) + {tsk} && tsk.t == t
      ensures timeline.order == old(timeline.order)[..k] + [tsk] + old(timeline.order)[k..]
      ensures forall i :: 0 <= i < |old(timeline.order)| ==> old(timeline.order)[i].t == old(timeline.order[i].t)
    {
      tsk.t := t;
      leftmost := if isLeftmost then tsk else leftmost;
      timeline.Insert(tsk, parent, l, k);
      SameKeysSameOrder(old(timeline.order));
      InsertKeepsKeyOrder(old(timeline.order), k, tsk);
    }

    /** `cfs_queue`: the task goes behind all tasks of key at most `t` and before all others. */
    method Queue(tsk: Node, t: nat) returns (ghost k: nat)
      requires Valid() && tsk !in timeline.nodes
      modifies this, timeline, tsk, timeline.nodes`left, timeline.nodes`right, timeline.nodes`parent
      modifies timeline.nodes`lo, timeline.nodes`pos, timeline.nodes`hi, timeline.nodes`red, timeline.nodes`bh
      ensures Valid() && timeline.nodes == old(timeline.nodes) + {tsk} && tsk.t == t
      ensures k <= |old(timeline.order)|
      ensures timeline.order == old(timeline.order)[..k] + [tsk] + old(timeline.order)[k..]
      ensures forall i :: 0 <= i < k ==> old(timeline.order)[i].t <= t
      ensures forall i :: k <= i < |old(timeline.order)| ==> t < old(timeline.order)[i].t
    {
      var parent, l, isLeftmost;
      parent, l, isLeftmost, k := FindLink(t);
      QueueAt(tsk, t, parent, l, isLeftmost, k);
    }

    method FirstFair() returns (first: Node?)
      requires Valid()
      ensures first == if timeline.order == [] then null else timeline.order[0]
    {
      if leftmost != null {
        return leftmost;
      }
      first := timeline.First();
    }

    /** `__dequeue_task_fair`: any queued task leaves, and the others keep their order. */
    method DequeueTask(p: Node) returns (ghost k: nat)
      requires Valid() && p in timeline.nodes
      modifies this, timeline, timeline.nodes`left, timeline.nodes`right, timeline.nodes`parent
      modifies timeline.nodes`lo, timeline.nodes`pos, timeline.nodes`hi, timeline.nodes`red, timeline.nodes`bh
      ensures Valid() && timeline.nodes == old(timeline.nodes) - {p}
      ensures k < |old(timeline.order)| && old(timeline.order)[k] == p
      ensures timeline.order == old(timeline.order)[..k] + old(timeline.order)[k + 1..]
    {
      k := Position(p);
      ghost var order := timeline.order;
      leftmost := if leftmost == p then null else leftmost;
      timeline.Erase(p);
      RemovedIsInKeyOrder(order, k, timeline.order);
    }

    lemma Position(p: Node) returns (k: nat)
      requires Valid() && p in timeline.nodes
      ensures k < |timeline.order| && timeline.order[k] == p && k == p.pos
      ensures leftmost != null && leftmost != p ==> k > 0
    {
      k := p.pos;
    }

    /** `cfs_dequeue`: the first task in key order leaves, or NULL is returned from an empty queue. */
    method Dequeue() returns (next: Node?)
      requires Valid()
      modifies this, timeline, timeline.nodes`left, timeline.nodes`right, timeline.nodes`parent
      modifies timeline.nodes`lo, timeline.nodes`pos, timeline.nodes`hi, timeline.nodes`red, timeline.nodes`bh
      ensures Valid()
      ensures next == if old(timeline.order) == [] then null else old(timeline.order)[0]
      ensures timeline.order == if old(timeline.order) == [] then [] else old(timeline.order)[1..]
      ensures timeline.nodes == old(timeline.nodes) - Opt(next)
    {
      next := FirstFair();
      if next != null {
        ghost var k := DequeueTask(next);
      }
    }
  }

  // ---------------------------------------------------------------- whole runs

  datatype Op = Enqueue(task: Node, t: nat) | Dequeue

  /** A task waiting with key `t`, queued as the `stamp`-th operation. */
  datatype Entry = Entry(task: Node, t: nat, stamp: nat)

  ghost predicate Earlier(a: Entry, b: Entry) {
    a.t < b.t || (a.t == b.t && a.stamp < b.stamp)
  }

  /** The entry of least key, and of least stamp among those. */
  ghost predicate IsFirst(e: Entry, waiting: set<Entry>) {
    e in waiting && forall f :: f in waiting && f != e ==> Earlier(e, f)
  }

  /** What a run may ask: no task is queued while it is already waiting. */
  ghost predicate Feasible(waiting: set<Entry>, clock: nat, ops: seq<Op>)
    decreases |ops|
  {
    if ops == [] then true
    else match ops[0]
      case Enqueue(task, t) =>
        && (forall e :: e in waiting ==> e.task != task)
        && Feasible(waiting + {Entry(task, t, clock)}, clock + 1, ops[1..])
      case Dequeue =>
        && (waiting == {} ==> Feasible(waiting, clock + 1, ops[1..]))
        && (forall e :: e in waiting && IsFirst(e, waiting) ==> Feasible(waiting - {e}, clock + 1, ops[1..]))
  }

  /** The specification of a run: `outs` are what the dequeues among `ops` return when every dequeue takes the
      first of the set of waiting tasks, and NULL if there is none. */
  ghost predicate Serves(waiting: set<Entry>, clock: nat, ops: seq<Op>, outs: seq<Node?>)
    decreases |ops|
  {
    if ops == [] then outs == []
    else match ops[0]
      case Enqueue(task, t) => Serves(waiting + {Entry(task, t, clock)}, clock + 1, ops[1..], outs)
      case Dequeue =>
        && outs != []
        && if waiting == {} then outs[0] == null && Serves(waiting, clock + 1, ops[1..], outs[1..])
           else exists e :: e in waiting && IsFirst(e, waiting) && outs[0] == e.task
                            && Serves(waiting - {e}, clock + 1, ops[1..], outs[1..])
  }

  ghost function TasksOf(ops: seq<Op>): set<Node> {
    set op | op in ops && op.Enqueue? :: op.task
  }

  ghost function Waiting(entries: seq<Entry>): set<Entry> {
    set e | e in entries
  }

  /** `entries` lists the waiting tasks in the order in which they are due. */
  ghost predicate Due(entries: seq<Entry>, order: seq<Node>, clock: nat)
    reads order
  {
    && |entries| == |order|
    && (forall i :: 0 <= i < |order| ==>
          entries[i].task == order[i] && entries[i].t == order[i].t && entries[i].stamp < clock)
    && (forall i, j :: 0 <= i < j < |entries| ==> Earlier(entries[i], entries[j]))
  }

  lemma EnqueueKeepsDue(entries: seq<Entry>, order: seq<Node>, clock: nat, k: nat, tsk: Node)
    requires Due(entries, order, clock) && k <= |order|
    requires forall i :: 0 <= i < k ==> order[i].t <= tsk.t
    requires forall i :: k <= i < |order| ==> tsk.t < order[i].t
    ensures var e := Entry(tsk, tsk.t, clock);
            && Due(entries[..k] + [e] + entries[k..], order[..k] + [tsk] + order[k..], clock + 1)
            && Waiting(entries[..k] + [e] + entries[k..]) == Waiting(entries) + {e}
  {
    var e := Entry(tsk, tsk.t, clock);
    var r, o := entries[..k] + [e] + entries[k..], order[..k] + [tsk] + order[k..];
    forall i | 0 <= i < |r|
      ensures r[i] == (if i < k then entries[i] else if i == k then e else entries[i - 1])
      ensures o[i] == if i < k then order[i] else if i == k then tsk else order[i - 1]
    {}
    forall x | x in entries ensures x in r {
      var i :| 0 <= i < |entries| && entries[i] == x;
      assert r[if i < k then i else i + 1] == x;
    }
    assert r[k] == e;
  }

  lemma DequeueKeepsDue(entries: seq<Entry>, order: seq<Node>, clock: nat)
    requires Due(entries, order, clock) && entries != []
    ensures IsFirst(entries[0], Waiting(entries))
    ensures Due(entries[1..], order[1..], clock + 1) && Waiting(entries[1..]) == Waiting(entries) - {entries[0]}
  {
    forall x | x in entries && x != entries[0] ensures x in entries[1..] {
      var i :| 0 <= i < |entries| && entries[i] == x;
      assert entries[1..][i - 1] == x;
    }
  }

  twostate lemma SameKeysStillDue(new entries: seq<Entry>, new order: seq<Node>, new clock: nat)
    requires old(allocated(order)) && old(allocated(entries)) && old(Due(entries, order, clock))
    requires forall n :: n in order ==> n.t == old(n.t)
    ensures Due(entries, order, clock) && Due(entries, order, clock + 1)
  {
  }

  method StepEnqueue(rq: CfsRq, task: Node, t: nat, ghost entries: seq<Entry>, ghost clock: nat)
    returns (ghost after: seq<Entry>)
    requires rq.Valid() && Due(entries, rq.timeline.order, clock)
    requires forall e :: e in Waiting(entries) ==> e.task != task
    modifies rq, rq.timeline, rq.timeline.nodes, task
    ensures rq.Valid() && Due(after, rq.timeline.order, clock + 1)
    ensures Waiting(after) == Waiting(entries) + {Entry(task, t, clock)}
    ensures rq.timeline.nodes == old(rq.timeline.nodes) + {task}
  {
    assert task in rq.timeline.nodes ==> entries[task.pos] in Waiting(entries);
    ghost var k := rq.Queue(task, t);
    SameKeysStillDue(entries, old(rq.timeline.order), clock);
    EnqueueKeepsDue(entries, old(rq.timeline.order), clock, k, task);
    after := entries[..k] + [Entry(task, t, clock)] + entries[k..];
  }

  method StepDequeue(rq: CfsRq, ghost entries: seq<Entry>, ghost clock: nat)
    returns (next: Node?, ghost after: seq<Entry>)
    requires rq.Valid() && Due(entries, rq.timeline.order, clock)
    modifies rq, rq.timeline, rq.timeline.nodes
    ensures rq.Valid() && Due(after, rq.timeline.order, clock + 1) && rq.timeline.nodes <= old(rq.timeline.nodes)
    ensures entries == [] ==> next == null && after == []
    ensures entries != [] ==> IsFirst(entries[0], Waiting(entries)) && next == entries[0].task
                              && Waiting(after) == Waiting(entries) - {entries[0]}
  {
    next := rq.Dequeue();
    SameKeysStillDue(entries, old(rq.timeline.order), clock);
    after := entries;
    if next != null {
      DequeueKeepsDue(entries, old(rq.timeline.order), clock);
      after := entries[1..];
    }
  }

  /** Every run on the red-black tree returns what the specification returns. */
  method Run(rq: CfsRq, ops: seq<Op>, ghost entries: seq<Entry>, ghost clock: nat) returns (outs: seq<Node?>)
    requires rq.Valid() && Due(entries, rq.timeline.order, clock) && Feasible(Waiting(entries), clock, ops)
    modifies rq, rq.timeline, rq.timeline.nodes, TasksOf(ops)
    ensures Serves(Waiting(entries), clock, ops, outs)
    decreases |ops|
  {
    if ops == [] {
      return [];
    }
    match ops[0]
    case Enqueue(task, t) =>
      ghost var after := StepEnqueue(rq, task, t, entries, clock);
      outs := Run(rq, ops[1..], after, clock + 1);
    case Dequeue =>
      ghost var after;
      var next;
      next, after := StepDequeue(rq, entries, clock);
      assert entries != [] ==> entries[0] in Waiting(entries);
      outs := Run(rq, ops[1..], after, clock + 1);
      outs := [next] + outs;
  }

  /** From `cfs_rqinit` on. */
  method RunFromInit(ops: seq<Op>) returns (outs: seq<Node?>)
    requires Feasible({}, 0, ops)
    modifies TasksOf(ops)
    ensures Serves({}, 0, ops, outs)
  {
    var rq := new CfsRq();
    assert Waiting([]) == {};
    outs := Run(rq, ops, [], 0);
  }
}
