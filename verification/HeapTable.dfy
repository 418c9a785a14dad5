/** The heap's entry table as a value: its byte encoding, the set of live runs it
    stands for, the first-fit scan and the marking and freeing passes. */
module HeapTable {

  type Byte = bv8

  const FREE: Byte := 0x00
  const TAKEN: Byte := 0x01
  const IS_FIRST: Byte := 0x40
  const HAS_NEXT: Byte := 0x80
  const ENOMEM: int := 3

  type Table = seq<Byte>

  /** Live allocations: the first block of each run, with the run's length. */
  type Runs = map<nat, nat>

  predicate IsFree(e: Byte) {
    e & 0x0f == FREE
  }

  predicate HasNext(e: Byte) {
    e & HAS_NEXT != 0
  }

  /** The byte of block k of a run of n blocks: 0x41, or 0xC1 0x81 ... 0x81 0x01. */
  function RunByte(n: nat, k: nat): (e: Byte)
    requires k < n
    ensures !IsFree(e) && (HasNext(e) <==> k + 1 < n) && (e & IS_FIRST != 0 <==> k == 0)
  {
    TAKEN | (if k == 0 then IS_FIRST else 0) | (if k + 1 < n then HAS_NEXT else 0)
  }

  /** The bytes themselves: 0x41 for a run of one block, else 0xC1, 0x81 ..., 0x01. */
  lemma RunBytes(n: nat, k: nat)
    requires k < n
    ensures RunByte(n, k) == if n == 1 then 0x41 else if k == 0 then 0xc1 else if k + 1 == n then 0x01 else 0x81
  {
  }

  predicate Covers(live: Runs, s: nat, i: nat) {
    s in live && s <= i < s + live[s]
  }

  predicate Disjoint(live: Runs, total: nat) {
    && (forall s | s in live :: live[s] >= 1 && s + live[s] <= total)
    && (forall a, b | a in live && b in live && a < b :: a + live[a] <= b)
  }

  /** The table spells out exactly the given live runs and is zero elsewhere. */
  ghost predicate Represents(t: Table, live: Runs) {
    && Disjoint(live, |t|)
    && (forall s: nat, i: nat | Covers(live, s, i) :: t[i] == RunByte(live[s], i - s))
    && (forall i | 0 <= i < |t| && t[i] != FREE :: exists s :: Covers(live, s, i))
  }

  // ---- The first-fit scan ----

  predicate FitsAt(t: Table, s: int, n: nat) {
    0 <= s && s + n <= |t| && forall i | s <= i < s + n :: IsFree(t[i])
  }

  ghost predicate HasFit(t: Table, n: nat) {
    n >= 1 && exists s :: FitsAt(t, s, n)
  }

  predicate LastTaken(t: Table) {
    |t| == 0 || !IsFree(t[|t| - 1])
  }

  /** What the scan answers for n blocks: the least fit; failing that, -ENOMEM when the
      last entry is taken and otherwise the start of the free tail. */
  ghost predicate FirstFit(t: Table, n: nat, r: int) {
    if HasFit(t, n) then
      FitsAt(t, r, n) && forall s | FitsAt(t, s, n) :: r <= s
    else if LastTaken(t) then
      r == -ENOMEM
    else
      0 <= r < |t| && FitsAt(t, r, |t| - r) && (r == 0 || !IsFree(t[r - 1]))
  }

  lemma FirstFitUnique(t: Table, n: nat, r: int, r': int)
    requires FirstFit(t, n, r) && FirstFit(t, n, r')
    ensures r == r'
  {
  }

  /** Allocating n blocks stays inside the table: nothing is marked, a fit exists, or
      the scan reports failure. */
  ghost predicate MallocSafe(t: Table, n: nat) {
    n == 0 || HasFit(t, n) || LastTaken(t)
  }

  /** The blocks that would be marked lie in the table exactly in the safe cases. */
  lemma MallocSafeIff(t: Table, n: nat, r: int)
    requires FirstFit(t, n, r)
    ensures MallocSafe(t, n) <==> r < 0 || r + n <= |t|
  {
    assert r >= 0 && r + n <= |t| && !HasFit(t, n) && !LastTaken(t) ==> FitsAt(t, r, n);
  }

  /** A free tail that is too short is answered as if it fitted. */
  lemma ShortTailIsReturned()
    ensures FirstFit([0x41, 0x00], 2, 1) && !MallocSafe([0x41, 0x00], 2)
  {
  }

  lemma OneBlockIsSafe(t: Table)
    ensures MallocSafe(t, 1)
  {
    if !LastTaken(t) {
      assert FitsAt(t, |t| - 1, 1);
    }
  }

  // ---- Marking and freeing ----

  function Taken(t: Table, s: nat, n: nat): (r: Table)
    requires s + n <= |t|
    ensures |r| == |t|
  {
    seq(|t|, i requires 0 <= i < |t| => if s <= i < s + n then RunByte(n, i - s) else t[i])
  }

  function Cleared(t: Table, s: nat, n: nat): (r: Table)
    requires s + n <= |t|
    ensures |r| == |t|
  {
    seq(|t|, i requires 0 <= i < |t| => if s <= i < s + n then FREE else t[i])
  }

  /** The freeing pass: clear entries from i on until one without HAS_NEXT. */
  function Freed(t: Table, i: nat): (r: Table)
    ensures |r| == |t|
    decreases |t| - i
  {
    if i >= |t| then t
    else if HasNext(t[i]) then Freed(t[i := FREE], i + 1)
    else t[i := FREE]
  }

  // ---- What the two passes do to the live runs ----

  lemma FreeByteIsZero(t: Table, live: Runs, i: nat)
    requires Represents(t, live) && i < |t|
    ensures IsFree(t[i]) <==> t[i] == FREE
  {
  }

  lemma TakenAddsRun(t: Table, live: Runs, s: nat, n: nat)
    requires Represents(t, live) && n >= 1 && FitsAt(t, s, n)
    ensures s !in live
    ensures forall a: nat, i: nat | Covers(live, a, i) :: !(s <= i < s + n)
    ensures Represents(Taken(t, s, n), live[s := n])
  {
    var t', live' := Taken(t, s, n), live[s := n];
    forall a: nat, i: nat | Covers(live, a, i)
      ensures !(s <= i < s + n)
    {
      assert t[i] == RunByte(live[a], i - a);
    }
    assert Covers(live, s, s) || s !in live;
    forall a | a in live
      ensures a + live[a] <= s || s + n <= a
    {
      assert Covers(live, a, a);
      assert Covers(live, a, s) <==> a <= s < a + live[a];
    }
    forall a: nat, i: nat | Covers(live', a, i)
      ensures t'[i] == RunByte(live'[a], i - a)
    {
      assert a != s ==> Covers(live, a, i);
    }
    forall i | 0 <= i < |t'| && t'[i] != FREE
      ensures exists a :: Covers(live', a, i)
    {
      if s <= i < s + n {
        assert Covers(live', s, i);
      } else {
        var a :| Covers(live, a, i);
        assert Covers(live', a, i);
      }
    }
  }

  lemma {:induction false} FreedChain(t: Table, i: nat, e: nat)
    requires i < e <= |t|
    requires forall j | i <= j < e :: HasNext(t[j]) <==> j + 1 < e
    ensures Freed(t, i) == Cleared(t, i, e - i)
    decreases e - i
  {
    if i + 1 < e {
      FreedChain(t[i := FREE], i + 1, e);
    }
  }

  lemma ClearedDropsRun(t: Table, live: Runs, s: nat)
    requires Represents(t, live) && s in live
    ensures Represents(Cleared(t, s, live[s]), live - {s})
  {
    var n := live[s];
    var t', live' := Cleared(t, s, n), live - {s};
    forall a: nat, i: nat | Covers(live', a, i)
      ensures t'[i] == RunByte(live'[a], i - a)
    {
      assert Covers(live, a, i);
    }
    forall i | 0 <= i < |t'| && t'[i] != FREE
      ensures exists a :: Covers(live', a, i)
    {
      var a :| Covers(live, a, i);
      assert Covers(live', a, i);
    }
  }

  /** Freeing the start of a live run removes that run and nothing else. */
  lemma FreedRemovesRun(t: Table, live: Runs, s: nat)
    requires Represents(t, live) && s in live
    ensures Freed(t, s) == Cleared(t, s, live[s])
    ensures Represents(Freed(t, s), live - {s})
  {
    forall j | s <= j < s + live[s]
      ensures HasNext(t[j]) <==> j + 1 < s + live[s]
    {
      assert Covers(live, s, j);
    }
    FreedChain(t, s, s + live[s]);
    ClearedDropsRun(t, live, s);
  }

  // ---- Uniqueness in both directions ----

  /** A byte table stands for at most one set of live runs. */
  lemma DecodingUnique(t: Table, a: Runs, b: Runs)
    requires Represents(t, a) && Represents(t, b)
    ensures a == b
  {
    RunsIncluded(t, a, b);
    RunsIncluded(t, b, a);
  }

  lemma RunsIncluded(t: Table, a: Runs, b: Runs)
    requires Represents(t, a) && Represents(t, b)
    ensures forall s | s in a :: s in b && b[s] == a[s]
  {
    forall s | s in a
      ensures s in b && b[s] == a[s]
    {
      assert Covers(a, s, s);
      var s': nat :| Covers(b, s', s);
      assert t[s] == RunByte(b[s'], s - s');
      var m, n := a[s], b[s];
      var k := s + (if m < n then m else n) - 1;
      assert Covers(a, s, k) && Covers(b, s, k);
    }
  }

  /** The live runs determine every byte of the table. */
  lemma EncodingUnique(t: Table, u: Table, live: Runs)
    requires |t| == |u| && Represents(t, live) && Represents(u, live)
    ensures t == u
  {
  }

  /** Allocating a run and freeing it restores the table byte for byte. */
  lemma FreeUndoesMalloc(t: Table, live: Runs, s: nat, n: nat)
    requires Represents(t, live) && n >= 1 && FitsAt(t, s, n)
    ensures Freed(Taken(t, s, n), s) == t
  {
    TakenAddsRun(t, live, s, n);
    var t', live' := Taken(t, s, n), live[s := n];
    FreedRemovesRun(t', live', s);
    assert live' - {s} == live;
    EncodingUnique(t, Freed(t', s), live);
  }

  // ---- Which pointers may be freed ----

  /** Freeing from inside a run leaves a block that claims a missing successor. */
  lemma FreedInsideBreaks(t: Table, live: Runs, s: nat, b: nat, live': Runs)
    requires Represents(t, live) && Covers(live, s, b) && s < b
    ensures !Represents(Freed(t, b), live')
  {
    forall j: nat | s <= j < s + live[s]
      ensures HasNext(t[j]) <==> j + 1 < s + live[s]
    {
      assert Covers(live, s, j);
    }
    FreedChain(t, b, s + live[s]);
    var t' := Freed(t, b);
    assert t'[b] == FREE && HasNext(t'[b - 1]);
    if Represents(t', live') {
      var a: nat :| Covers(live', a, b - 1);
      assert Covers(live', a, b);
      assert false;
    }
  }

  /** After freeing block b the table is well formed exactly when b is the start of a
      live run, a free block, or past the end: never the inside of a run. */
  lemma FreedWellFormedIff(t: Table, live: Runs, b: nat)
    requires Represents(t, live)
    ensures (exists live' :: Represents(Freed(t, b), live'))
            <==> (b >= |t| || b in live || t[b] == FREE)
  {
    if b >= |t| || t[b] == FREE {
      assert Freed(t, b) == t;
    } else if b in live {
      FreedRemovesRun(t, live, b);
    } else {
      var s: nat :| Covers(live, s, b);
      forall live'
        ensures !Represents(Freed(t, b), live')
      {
        FreedInsideBreaks(t, live, s, b, live');
      }
    }
  }
}
