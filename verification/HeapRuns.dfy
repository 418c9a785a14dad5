/** Whole runs of the allocator: every table reachable by allocating and freeing
    stands for one set of disjoint runs, and no block is ever lost. */
module HeapRuns {
  import opened Bits
  import opened HeapTable

  // ---- Request sizes ----

  /** Round up to a multiple of the block size, in 32-bit arithmetic. */
  function RoundUp(val: Word): Word {
    if val % PAGE == 0 then val else (val - val % PAGE + PAGE) % TWO32
  }

  function BlocksFor(size: Word): nat {
    RoundUp(size) / PAGE
  }

  /** A request is rounded to the blocks it needs exactly when the sum does not wrap;
      beyond that it is served with no block at all. */
  lemma BlocksForIff(size: Word)
    ensures BlocksFor(size) == (size + PAGE - 1) / PAGE <==> size <= TWO32 - PAGE
    ensures size > TWO32 - PAGE ==> BlocksFor(size) == 0
    ensures BlocksFor(size) <= 0xf_ffff
  {
  }

  /** A granted request ends with a live run at the answered block that holds its bytes
      exactly when it asks for at least one byte and its size does not wrap. */
  lemma GrantHoldsIff(t: Table, live: Runs, size: Word, b: nat)
    requires Represents(t, live) && MallocSafe(t, BlocksFor(size)) && FirstFit(t, BlocksFor(size), b)
    ensures var n := BlocksFor(size);
      var live' := if n == 0 then live else live[b := n];
      (b in live' && size <= PAGE * live'[b]) <==> 1 <= size <= TWO32 - PAGE
  {
    BlocksForIff(size);
    FreeByteIsZero(t, live, b);
    FirstByteIsStart(t, live, b);
  }

  // ---- Counting blocks ----

  function FreeCount(t: Table): nat {
    if t == [] then 0
    else FreeCount(t[..|t| - 1]) + if IsFree(t[|t| - 1]) then 1 else 0
  }

  /** The total length of the runs that start below n. */
  function LiveSum(live: Runs, n: nat): nat {
    if n == 0 then 0 else LiveSum(live, n - 1) + if n - 1 in live then live[n - 1] else 0
  }

  ghost predicate Boundary(live: Runs, n: nat) {
    forall s | s in live && s < n :: s + live[s] <= n
  }

  lemma {:induction false} NoFreeBetween(t: Table, s: nat, n: nat)
    requires s <= n <= |t| && forall i | s <= i < n :: !IsFree(t[i])
    ensures FreeCount(t[..n]) == FreeCount(t[..s])
  {
    if s < n {
      assert t[..n][..n - 1] == t[..n - 1];
      NoFreeBetween(t, s, n - 1);
    }
  }

  lemma {:induction false} NoStartBetween(live: Runs, s: nat, n: nat)
    requires s <= n && forall i | s <= i < n :: i !in live
    ensures LiveSum(live, n) == LiveSum(live, s)
  {
    if s < n {
      NoStartBetween(live, s, n - 1);
    }
  }

  lemma CountFreeEntry(t: Table, live: Runs, n: nat)
    requires Represents(t, live) && 0 < n <= |t| && Boundary(live, n) && t[n - 1] == FREE
    ensures Boundary(live, n - 1)
    ensures FreeCount(t[..n]) == FreeCount(t[..n - 1]) + 1 && LiveSum(live, n) == LiveSum(live, n - 1)
  {
    assert t[..n][..n - 1] == t[..n - 1];
    forall s | s in live && s < n
      ensures s + live[s] <= n - 1
    {
      assert Covers(live, s, s + live[s] - 1);
    }
  }

  lemma RunEndsAtBoundary(t: Table, live: Runs, n: nat, s: nat)
    requires Represents(t, live) && 0 < n <= |t| && Boundary(live, n) && Covers(live, s, n - 1)
    ensures s + live[s] == n && Boundary(live, s)
    ensures forall i | s <= i < n :: !IsFree(t[i])
    ensures forall i | s < i < n :: i !in live
  {
  }

  lemma CountRun(t: Table, live: Runs, n: nat) returns (s: nat)
    requires Represents(t, live) && 0 < n <= |t| && Boundary(live, n) && t[n - 1] != FREE
    ensures s < n && Boundary(live, s)
    ensures FreeCount(t[..n]) == FreeCount(t[..s]) && LiveSum(live, n) == LiveSum(live, s) + n - s
  {
    s :| Covers(live, s, n - 1);
    RunEndsAtBoundary(t, live, n, s);
    NoFreeBetween(t, s, n);
    NoStartBetween(live, s + 1, n);
  }

  lemma {:induction false} CountUpTo(t: Table, live: Runs, n: nat)
    requires Represents(t, live) && n <= |t| && Boundary(live, n)
    ensures FreeCount(t[..n]) + LiveSum(live, n) == n
  {
    if n == 0 {
    } else if t[n - 1] == FREE {
      CountFreeEntry(t, live, n);
      CountUpTo(t, live, n - 1);
    } else {
      var s := CountRun(t, live, n);
      CountUpTo(t, live, s);
    }
  }

  /** Conservation: free blocks and live run lengths add up to the table. */
  lemma Conservation(t: Table, live: Runs)
    requires Represents(t, live)
    ensures FreeCount(t) + LiveSum(live, |t|) == |t|
  {
    assert t[..|t|] == t;
    CountUpTo(t, live, |t|);
  }

  lemma {:induction false} SomeFree(t: Table)
    requires FreeCount(t) > 0
    ensures HasFit(t, 1)
  {
    var n := |t| - 1;
    if IsFree(t[n]) {
      assert FitsAt(t, n, 1);
    } else {
      SomeFree(t[..n]);
      var s :| FitsAt(t[..n], s, 1);
      assert FitsAt(t, s, 1);
    }
  }

  lemma {:induction false} TakenOneCount(t: Table, s: nat)
    requires FitsAt(t, s, 1)
    ensures FreeCount(Taken(t, s, 1)) == FreeCount(t) - 1
  {
    var t', n := Taken(t, s, 1), |t| - 1;
    assert IsFree(t[s]) && t'[s] == RunByte(1, 0);
    if s == n {
      assert t'[..n] == t[..n];
    } else {
      assert FitsAt(t[..n], s, 1);
      TakenOneCount(t[..n], s);
      assert Taken(t[..n], s, 1) == t'[..n];
    }
  }

  // ---- Freeing everything ----

  predicate Distinct<T(==)>(s: seq<T>) {
    forall i, j | 0 <= i < j < |s| :: s[i] != s[j]
  }

  function Elements<T>(s: seq<T>): set<T> {
    set x | x in s
  }

  function FreeAll(t: Table, order: seq<nat>): Table
    decreases |order|
  {
    if order == [] then t else FreeAll(Freed(t, order[0]), order[1..])
  }

  lemma {:induction false} FreeAllRemoves(t: Table, live: Runs, order: seq<nat>)
    requires Represents(t, live) && Distinct(order) && Elements(order) <= live.Keys
    ensures |FreeAll(t, order)| == |t|
    ensures Represents(FreeAll(t, order), live - Elements(order))
    decreases |order|
  {
    if order == [] {
      assert live - Elements(order) == live;
    } else {
      assert order[0] in Elements(order);
      FreedRemovesRun(t, live, order[0]);
      var rest := order[1..];
      assert forall x | x in rest :: x in Elements(order) && x != order[0];
      FreeAllRemoves(Freed(t, order[0]), live - {order[0]}, rest);
      assert Elements(order) == {order[0]} + Elements(rest);
      assert live - {order[0]} - Elements(rest) == live - Elements(order);
    }
  }

  function AllFree(n: nat): (t: Table)
    ensures |t| == n && Represents(t, map[])
  {
    seq(n, _ => FREE)
  }

  /** Freeing every live run, in any order, gives back the all-free table. */
  lemma FreeAllGivesAllFree(t: Table, live: Runs, order: seq<nat>)
    requires Represents(t, live) && Distinct(order) && Elements(order) == live.Keys
    ensures FreeAll(t, order) == AllFree(|t|)
  {
    FreeAllRemoves(t, live, order);
    assert live - Elements(order) == map[];
    EncodingUnique(FreeAll(t, order), AllFree(|t|), map[]);
  }

  // ---- Runs ----

  datatype HeapOp = Malloc(size: Word) | Free(block: nat)

  /** One call, on the byte table alone. A freed block must be marked IS_FIRST. */
  ghost predicate HeapStep(t: Table, op: HeapOp, t': Table) {
    match op
    case Malloc(size) =>
      var n := BlocksFor(size);
      && MallocSafe(t, n)
      && exists r :: FirstFit(t, n, r) && t' == if r < 0 || n == 0 then t else Taken(t, r, n)
    case Free(b) =>
      b < |t| && t[b] & IS_FIRST != 0 && t' == Freed(t, b)
  }

  /** What one call does to the live runs. */
  ghost predicate RunsStep(t: Table, live: Runs, op: HeapOp, live': Runs) {
    match op
    case Malloc(size) =>
      var n := BlocksFor(size);
      if HasFit(t, n) then
        exists s: nat ::
          && FirstFit(t, n, s) && s !in live && live' == live[s := n]
          && forall a: nat, i: nat | Covers(live, a, i) :: !(s <= i < s + n)
      else
        live' == live
    case Free(b) =>
      b in live && live' == live - {b}
  }

  ghost predicate WellFormed(t: Table) {
    exists live :: Represents(t, live)
  }

  ghost function Decode(t: Table): (live: Runs)
    requires WellFormed(t)
    ensures Represents(t, live)
  {
    var live :| Represents(t, live);
    live
  }

  lemma FirstByteIsStart(t: Table, live: Runs, b: nat)
    requires Represents(t, live) && b < |t|
    ensures t[b] & IS_FIRST != 0 <==> b in live
  {
  }

  lemma StepKeepsWellFormed(t: Table, op: HeapOp, t': Table)
    requires WellFormed(t) && HeapStep(t, op, t')
    ensures |t'| == |t| && WellFormed(t')
    ensures RunsStep(t, Decode(t), op, Decode(t'))
  {
    var live := Decode(t);
    match op
    case Malloc(size) =>
      var n := BlocksFor(size);
      var r :| FirstFit(t, n, r) && t' == if r < 0 || n == 0 then t else Taken(t, r, n);
      if r < 0 || n == 0 {
        DecodingUnique(t, live, Decode(t'));
      } else {
        TakenAddsRun(t, live, r, n);
        DecodingUnique(t', live[r := n], Decode(t'));
      }
    case Free(b) =>
      FirstByteIsStart(t, live, b);
      FreedRemovesRun(t, live, b);
      DecodingUnique(t', live - {b}, Decode(t'));
  }

  ghost predicate HeapRun(ts: seq<Table>, ops: seq<HeapOp>) {
    && |ts| == |ops| + 1
    && ts[0] == AllFree(|ts[0]|)
    && forall i | 0 <= i < |ops| :: HeapStep(ts[i], ops[i], ts[i + 1])
  }

  lemma {:induction false} RunIsWellFormed(ts: seq<Table>, ops: seq<HeapOp>, k: nat)
    requires HeapRun(ts, ops) && k < |ts|
    ensures |ts[k]| == |ts[0]| && WellFormed(ts[k])
  {
    if k > 0 {
      RunIsWellFormed(ts, ops, k - 1);
      assert HeapStep(ts[k - 1], ops[k - 1], ts[k]);
      StepKeepsWellFormed(ts[k - 1], ops[k - 1], ts[k]);
    }
  }

  /** Every run of the allocator: each table stands for one set of runs, each call
      changes it by exactly one run, blocks are conserved, and freeing the live runs
      in any order ends at the table the run began with. */
  lemma EveryHeapRun(ts: seq<Table>, ops: seq<HeapOp>, k: nat, order: seq<nat>)
    requires HeapRun(ts, ops) && k < |ts|
    ensures WellFormed(ts[k])
    ensures forall live | Represents(ts[k], live) :: live == Decode(ts[k])
    ensures FreeCount(ts[k]) + LiveSum(Decode(ts[k]), |ts[0]|) == |ts[0]|
    ensures k < |ops| ==> WellFormed(ts[k + 1])
                          && RunsStep(ts[k], Decode(ts[k]), ops[k], Decode(ts[k + 1]))
    ensures Distinct(order) && Elements(order) == Decode(ts[k]).Keys
            ==> FreeAll(ts[k], order) == ts[0]
  {
    RunIsWellFormed(ts, ops, k);
    var live := Decode(ts[k]);
    forall other | Represents(ts[k], other)
      ensures other == live
    {
      DecodingUnique(ts[k], other, live);
    }
    Conservation(ts[k], live);
    if k < |ops| {
      StepKeepsWellFormed(ts[k], ops[k], ts[k + 1]);
    }
    if Distinct(order) && Elements(order) == live.Keys {
      FreeAllGivesAllFree(ts[k], live, order);
    }
  }
}
