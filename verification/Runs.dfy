/** Runs of a step system: where a schedule leads, and that what every step keeps holds at its end. */
module Runs {

  function Exec<S, A>(next: (S, A) -> S, s: S, sched: seq<A>): S
    decreases |sched|
  {
    if sched == [] then s else Exec(next, next(s, sched[0]), sched[1..])
  }

  lemma {:induction false} ExecKeeps<S(!new), A(!new)>(next: (S, A) -> S, inv: S -> bool, s: S, sched: seq<A>)
    requires inv(s) && forall x, a :: inv(x) ==> inv(next(x, a))
    ensures inv(Exec(next, s, sched))
    decreases |sched|
  {
    if sched != [] { ExecKeeps(next, inv, next(s, sched[0]), sched[1..]); }
  }

  lemma {:induction false} ExecConcat<S, A>(next: (S, A) -> S, s: S, a: seq<A>, b: seq<A>)
    ensures Exec(next, s, a + b) == Exec(next, Exec(next, s, a), b)
    decreases |a|
  {
    if a == [] {
      assert a + b == b;
    } else {
      ExecConcat(next, next(s, a[0]), a[1..], b);
      assert (a + b)[1..] == a[1..] + b;
    }
  }
}
