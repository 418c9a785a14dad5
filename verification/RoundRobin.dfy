/** The task list as a value: tasks in order and the position of the current one. */
module RoundRobin {
  import opened HeapRuns

  datatype Ring<T> = Ring(tasks: seq<T>, cur: nat)

  predicate Ok<T(==)>(r: Ring<T>) {
    Distinct(r.tasks) && (r.cur < |r.tasks| || (r.tasks == [] && r.cur == 0))
  }

  function Current<T>(r: Ring<T>): T
    requires r.cur < |r.tasks|
  {
    r.tasks[r.cur]
  }

  function NextPos(cur: nat, n: nat): nat {
    if cur + 1 == n then 0 else cur + 1
  }

  /** The task after the current one, the first again after the last. */
  function Successor<T>(r: Ring<T>): T
    requires r.cur < |r.tasks|
  {
    r.tasks[NextPos(r.cur, |r.tasks|)]
  }

  function Added<T>(r: Ring<T>, t: T): Ring<T> {
    r.(tasks := r.tasks + [t])
  }

  function Without<T>(s: seq<T>, i: nat): seq<T>
    requires i < |s|
  {
    s[..i] + s[i + 1..]
  }

  function Removed<T>(r: Ring<T>, i: nat): Ring<T>
    requires i < |r.tasks| && r.cur < |r.tasks|
  {
    Ring(Without(r.tasks, i),
         if i < r.cur then r.cur - 1
         else if i == r.cur && i == |r.tasks| - 1 then 0
         else r.cur)
  }

  function Advanced<T>(r: Ring<T>): Ring<T>
    requires r.cur < |r.tasks|
  {
    r.(cur := NextPos(r.cur, |r.tasks|))
  }

  // ---- Removal ----

  /** Removing a task keeps the current one, or hands over to its cyclic successor. */
  lemma RemovedCurrent<T>(r: Ring<T>, i: nat)
    requires Ok(r) && i < |r.tasks|
    ensures Ok(Removed(r, i)) && r.tasks[i] !in Removed(r, i).tasks
    ensures |r.tasks| >= 2 ==>
      Current(Removed(r, i)) == if i == r.cur then Successor(r) else Current(r)
    ensures multiset(r.tasks) == multiset(Removed(r, i).tasks) + multiset{r.tasks[i]}
  {
    var s := r.tasks;
    assert s == s[..i] + [s[i]] + s[i + 1..];
  }

  /** The list after a removal: the others in order, its ends, and who is current. */
  lemma RemovalFacts<T>(r: Ring<T>, i: nat)
    requires Ok(r) && i < |r.tasks|
    ensures r.cur < |r.tasks| && Distinct(r.tasks)
    ensures var s := r.tasks;
      && (s[i] == s[0] <==> i == 0) && (s[i] == s[|s| - 1] <==> i == |s| - 1)
      && (s[i] == s[r.cur] <==> i == r.cur)
    ensures var s, q := r.tasks, Removed(r, i);
      && Ok(q) && s[i] !in q.tasks
      && q.tasks == Without(s, i) == s[..i] + s[i + 1..] && |q.tasks| == |s| - 1
      && (|s| >= 2 ==>
            && q.cur < |q.tasks|
            && q.tasks[0] == (if i == 0 then s[1] else s[0])
            && q.tasks[|s| - 2] == (if i == |s| - 1 then s[|s| - 2] else s[|s| - 1])
            && q.tasks[q.cur] == if i != r.cur then s[r.cur] else if i + 1 == |s| then s[0] else s[i + 1])
  {
    RemovedCurrent(r, i);
  }

  // ---- Runs ----

  datatype TaskOp<T> = Add(task: T) | Remove(task: T) | Switch

  ghost predicate RingStep<T>(r: Ring<T>, op: TaskOp<T>, r': Ring<T>) {
    match op
    case Add(t) => t !in r.tasks && r' == Added(r, t)
    case Remove(t) =>
      r.cur < |r.tasks| && exists i: nat :: i < |r.tasks| && r.tasks[i] == t && r' == Removed(r, i)
    case Switch => r.cur < |r.tasks| && r' == Advanced(r)
  }

  ghost predicate RingRun<T>(rs: seq<Ring<T>>, ops: seq<TaskOp<T>>) {
    && |rs| == |ops| + 1 && rs[0] == Ring([], 0)
    && forall i | 0 <= i < |ops| :: RingStep(rs[i], ops[i], rs[i + 1])
  }

  lemma {:induction false} EveryRingOk<T>(rs: seq<Ring<T>>, ops: seq<TaskOp<T>>, k: nat)
    requires RingRun(rs, ops) && k < |rs|
    ensures Ok(rs[k])
  {
    if k > 0 {
      EveryRingOk(rs, ops, k - 1);
      var r := rs[k - 1];
      assert RingStep(r, ops[k - 1], rs[k]);
      if ops[k - 1].Remove? {
        var i: nat :| i < |r.tasks| && r.tasks[i] == ops[k - 1].task && rs[k] == Removed(r, i);
        RemovedCurrent(r, i);
      }
    }
  }

  // ---- Fairness ----

  function Steps<T>(r: Ring<T>, k: nat): (q: Ring<T>)
    requires r.cur < |r.tasks|
    ensures q.tasks == r.tasks && q.cur < |q.tasks|
  {
    if k == 0 then r else Advanced(Steps(r, k - 1))
  }

  lemma {:induction false} StepsPosition<T>(r: Ring<T>, k: nat)
    requires r.cur < |r.tasks| && k <= |r.tasks|
    ensures Steps(r, k).cur == if r.cur + k < |r.tasks| then r.cur + k else r.cur + k - |r.tasks|
  {
    if k > 0 {
      StepsPosition(r, k - 1);
    }
  }

  /** The tasks made current by n consecutive switches. */
  function Visited<T>(r: Ring<T>, n: nat): seq<T>
    requires r.cur < |r.tasks|
  {
    seq(n, k requires 0 <= k < n => Current(Steps(r, k + 1)))
  }

  lemma VisitedAt<T>(r: Ring<T>, k: nat)
    requires r.cur < |r.tasks| && k < |r.tasks|
    ensures Visited(r, |r.tasks|)[k]
            == r.tasks[if r.cur + k + 1 < |r.tasks| then r.cur + k + 1 else r.cur + k + 1 - |r.tasks|]
  {
    StepsPosition(r, k + 1);
  }

  /** Fairness: as many switches as there are tasks make every task current exactly once,
      the starting task last. */
  lemma Fairness<T>(r: Ring<T>)
    requires Ok(r) && r.tasks != []
    ensures var n := |r.tasks|;
      && Steps(r, n) == r
      && (forall t | t in r.tasks :: t in Visited(r, n))
      && Distinct(Visited(r, n))
      && Visited(r, n)[n - 1] == Current(r)
  {
    hide Steps, Visited;
    var ts, n, v := r.tasks, |r.tasks|, Visited(r, |r.tasks|);
    assert |v| == n by { VisitedLength(r, n); }
    StepsPosition(r, n);
    forall k: nat | k < n
      ensures v[k] == ts[if r.cur + k + 1 < n then r.cur + k + 1 else r.cur + k + 1 - n]
    {
      VisitedAt(r, k);
    }
    forall t | t in ts
      ensures t in v
    {
      var i :| 0 <= i < n && ts[i] == t;
      var k: nat := if i > r.cur then i - r.cur - 1 else i - r.cur - 1 + n;
      assert v[k] == t;
    }
  }

  lemma VisitedLength<T>(r: Ring<T>, n: nat)
    requires r.cur < |r.tasks|
    ensures |Visited(r, n)| == n
  {
  }

  /** Tasks created one after another stand in that order, the first of them current. */
  lemma {:induction false} AddsInOrder<T>(rs: seq<Ring<T>>, ops: seq<TaskOp<T>>, n: nat)
    requires RingRun(rs, ops) && n < |rs| && forall i | 0 <= i < n :: ops[i].Add?
    ensures |rs[n].tasks| == n && rs[n].cur == 0
    ensures forall i | 0 <= i < n :: rs[n].tasks[i] == ops[i].task
  {
    if n > 0 {
      AddsInOrder(rs, ops, n - 1);
      assert RingStep(rs[n - 1], ops[n - 1], rs[n]);
    }
  }

  /** Switching then visits them in creation order: the second first, the first last. */
  lemma CreationOrder<T>(rs: seq<Ring<T>>, ops: seq<TaskOp<T>>, n: nat, k: nat)
    requires RingRun(rs, ops) && k < n < |rs| && forall i | 0 <= i < n :: ops[i].Add?
    ensures rs[n].cur < |rs[n].tasks|
    ensures Current(Steps(rs[n], k + 1)) == ops[if k + 1 == n then 0 else k + 1].task
  {
    AddsInOrder(rs, ops, n);
    StepsPosition(rs[n], k + 1);
  }

  /** Fairness from every reachable state. */
  lemma EveryRunFair<T>(rs: seq<Ring<T>>, ops: seq<TaskOp<T>>, k: nat)
    requires RingRun(rs, ops) && k < |rs| && rs[k].tasks != []
    ensures var r, n := rs[k], |rs[k].tasks|;
      && r.cur < n && Steps(r, n) == r && Distinct(Visited(r, n))
      && forall t | t in r.tasks :: t in Visited(r, n)
  {
    EveryRingOk(rs, ops, k);
    Fairness(rs[k]);
  }
}
