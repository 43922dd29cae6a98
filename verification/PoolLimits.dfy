/** Exactly when the chunk allocator keeps its promises: the largest request, and the pools of reset. */
module PoolLimits {
  import opened PoolModel
  import opened PoolProofs
  import opened PoolSteps
  import opened PoolRuns
  import opened PoolGrowth

  // ---- the largest request ----

  /** The assertion of `allocate` lets through one request that does not fit in a pool: a whole chunk, in
      a debug build with 4-byte words. */
  lemma AssertedBoundIff(c: Build, n: nat)
    requires n <= CHUNK
    ensures c.BlockSize(n) <= CHUNK <==> c.wide || !c.debug || n < 0x40_0000
  {
  }

  /** A request that no free list serves gets a block inside a pool exactly when it fits in a chunk. */
  lemma BlockInPoolIff(c: Build, s: State, g: Book, n: nat, base: nat, junk: nat -> nat)
    requires Inv(c, s, g) && n > 0 && Get(s.table, c.BlockSize(n)) == 0 && Fresh(|s.mem|, s.pools, base)
    ensures var (t, ptr) := Allocate(c, s, n, base, junk);
            && c.Offset() <= ptr
            && (InPools(t.pools, ptr - c.Offset(), c.BlockSize(n)) <==> c.BlockSize(n) <= CHUNK)
  {
    var size := c.BlockSize(n);
    var (t, ptr) := Allocate(c, s, n, base, junk);
    if size <= CHUNK {
      if s.freePtr + size <= s.endFree {
        assert s.pools[0] <= s.freePtr && s.freePtr + size <= s.pools[0] + CHUNK;
      } else {
        assert t.pools[0] <= base && base + size <= t.pools[0] + CHUNK;
      }
      assert InPools(t.pools, ptr - c.Offset(), size);
    }
  }

  /** A new allocator with debug words, in a 32-bit build, is asked for a whole chunk: the assertion lets the
      request through, and the block ends outside the pools. */
  lemma WholeChunkOverruns(c: Build, mem: seq<nat>, base: nat, n: nat, place: nat)
    requires c == Build(false, true) && n == CHUNK && Fresh(|mem|, [], base) && Fresh(|mem|, [base], place)
    ensures Inv(c, Initial(mem, base), EmptyBook(TABLE_SIZE))
    ensures var (t, ptr) := Allocate(c, Initial(mem, base), n, place, NO_JUNK);
            ptr >= c.Offset() && !InPools(t.pools, ptr - c.Offset(), c.BlockSize(n))
  {
    EmptyIsOk(c, Initial(mem, base));
    BlockInPoolIff(c, Initial(mem, base), EmptyBook(TABLE_SIZE), n, place, NO_JUNK);
    AssertedBoundIff(c, n);
  }

  // ---- pools that reset forgets ----

  /** How many pools the run obtains from the system. */
  ghost function Obtained(c: Build, s: State, g: Book, ops: seq<Op>): nat
    requires Inv(c, s, g) && CorrectRun(c, s, g, ops)
    decreases |ops|
  {
    if ops == [] then 0
    else
      StepIsSafe(c, s, g, ops[0]);
      var t := Step(c, s, ops[0]);
      (if |t.pools| > |s.pools| then 1 else 0) + Obtained(c, t, BookStep(c, s, g, ops[0]), ops[1..])
  }

  /** How many pools the resets of the run unlink from the chain. */
  ghost function Unlinked(c: Build, s: State, g: Book, ops: seq<Op>): nat
    requires Inv(c, s, g) && CorrectRun(c, s, g, ops)
    decreases |ops|
  {
    if ops == [] then 0
    else
      StepIsSafe(c, s, g, ops[0]);
      (if ops[0].OpReset? then |s.pools| - 1 else 0)
      + Unlinked(c, Step(c, s, ops[0]), BookStep(c, s, g, ops[0]), ops[1..])
  }

  lemma StepPools(c: Build, s: State, g: Book, op: Op)
    requires Inv(c, s, g) && Correct(c, s, g, op)
    ensures op.OpReset? ==> |Step(c, s, op).pools| == 1
    ensures !op.OpReset? ==> |s.pools| <= |Step(c, s, op).pools| <= |s.pools| + 1
  {
  }

  /** What the run obtains is what the destructor finds in the chain, and deletes, and what resets unlinked. */
  lemma {:induction false} PoolsAccountedFor(c: Build, s: State, g: Book, ops: seq<Op>)
    requires Inv(c, s, g) && CorrectRun(c, s, g, ops)
    ensures |s.pools| + Obtained(c, s, g, ops) == |After(c, s, g, ops).0.pools| + Unlinked(c, s, g, ops)
    decreases |ops|
  {
    if ops != [] {
      StepIsSafe(c, s, g, ops[0]);
      StepPools(c, s, g, ops[0]);
      PoolsAccountedFor(c, Step(c, s, ops[0]), BookStep(c, s, g, ops[0]), ops[1..]);
    }
  }

  /** Each reset of the run finds a single pool. */
  ghost predicate ResetsFindOnePool(c: Build, s: State, g: Book, ops: seq<Op>)
    requires Inv(c, s, g) && CorrectRun(c, s, g, ops)
    decreases |ops|
  {
    if ops == [] then true
    else
      (ops[0].OpReset? ==> |s.pools| == 1) &&
      (StepIsSafe(c, s, g, ops[0]);
       ResetsFindOnePool(c, Step(c, s, ops[0]), BookStep(c, s, g, ops[0]), ops[1..]))
  }

  lemma {:induction false} NoneUnlinkedIff(c: Build, s: State, g: Book, ops: seq<Op>)
    requires Inv(c, s, g) && CorrectRun(c, s, g, ops)
    ensures Unlinked(c, s, g, ops) == 0 <==> ResetsFindOnePool(c, s, g, ops)
    decreases |ops|
  {
    if ops != [] {
      StepIsSafe(c, s, g, ops[0]);
      NoneUnlinkedIff(c, Step(c, s, ops[0]), BookStep(c, s, g, ops[0]), ops[1..]);
    }
  }

  /** All pools that a run obtains are given back by the destructor exactly when each of its resets finds a
      single pool. */
  lemma LeaksNothingIff(c: Build, s: State, g: Book, ops: seq<Op>)
    requires Inv(c, s, g) && CorrectRun(c, s, g, ops)
    ensures |After(c, s, g, ops).0.pools| == |s.pools| + Obtained(c, s, g, ops) <==> ResetsFindOnePool(c, s, g, ops)
  {
    PoolsAccountedFor(c, s, g, ops);
    NoneUnlinkedIff(c, s, g, ops);
  }

  /** A whole chunk, a single integer, and a reset, of a new allocator. */
  function LeakingRun(c: Build, place: nat): seq<Op> {
    [OpAllocate(RequestFor(c, CHUNK), place, NO_JUNK), OpAllocate(1, place, NO_JUNK), OpReset]
  }

  lemma FirstChunk(c: Build, mem: seq<nat>, base: nat, place: nat)
    requires Fresh(|mem|, [], base) && Fresh(|mem|, [base], place)
    ensures var s, g, op := Initial(mem, base), EmptyBook(TABLE_SIZE), OpAllocate(RequestFor(c, CHUNK), place, NO_JUNK);
            && Inv(c, s, g) && Correct(c, s, g, op) && CleanGrowth(c, s, op)
            && Inv(c, Step(c, s, op), BookStep(c, s, g, op))
            && Step(c, s, op) == Bump(c, s, CHUNK)
  {
    FirstRequest(c, mem, base, RequestFor(c, CHUNK), place);
  }

  lemma SecondPool(c: Build, s: State, g: Book, base: nat, place: nat)
    requires Inv(c, s, g) && s.pools == [base] && s.freePtr == s.endFree && Fresh(|s.mem|, s.pools, place)
    requires forall k :: 0 <= k < |s.table| ==> s.table[k] == 0
    ensures var op := OpAllocate(1, place, NO_JUNK);
            && Correct(c, s, g, op) && CleanGrowth(c, s, op)
            && Inv(c, Step(c, s, op), BookStep(c, s, g, op))
            && |Step(c, s, op).pools| == 2
  {
    StepIsSafe(c, s, g, OpAllocate(1, place, NO_JUNK));
  }

  lemma LastReset(c: Build, s: State, g: Book)
    requires Inv(c, s, g) && |s.pools| == 2
    ensures CorrectRun(c, s, g, [OpReset]) && !ResetsFindOnePool(c, s, g, [OpReset])
  {
    StepIsSafe(c, s, g, OpReset);
    assert [OpReset][1..] == [];
  }

  lemma ConsCorrect(c: Build, s: State, g: Book, op: Op, rest: seq<Op>, t: State, h: Book)
    requires Inv(c, s, g) && Correct(c, s, g, op) && CleanGrowth(c, s, op)
    requires Step(c, s, op) == t && BookStep(c, s, g, op) == h && Inv(c, t, h) && CorrectRun(c, t, h, rest)
    ensures CorrectRun(c, s, g, [op] + rest)
    ensures ResetsFindOnePool(c, s, g, [op] + rest) ==> ResetsFindOnePool(c, t, h, rest)
  {
    assert ([op] + rest)[1..] == rest;
  }

  lemma LeaksAfterSecond(c: Build, s: State, g: Book, second: Op)
    requires Inv(c, s, g) && Correct(c, s, g, second) && CleanGrowth(c, s, second) && second.OpAllocate?
    ensures |Step(c, s, second).pools| == 2 ==>
              CorrectRun(c, s, g, [second, OpReset]) && !ResetsFindOnePool(c, s, g, [second, OpReset])
  {
    StepIsSafe(c, s, g, second);
    if |Step(c, s, second).pools| == 2 {
      LastReset(c, Step(c, s, second), BookStep(c, s, g, second));
      ConsCorrect(c, s, g, second, [OpReset], Step(c, s, second), BookStep(c, s, g, second));
      assert [second, OpReset] == [second] + [OpReset];
    }
  }

  lemma LeaksLater(c: Build, s: State, g: Book, first: Op, rest: seq<Op>)
    requires Inv(c, s, g) && Correct(c, s, g, first) && CleanGrowth(c, s, first)
    ensures Inv(c, Step(c, s, first), BookStep(c, s, g, first))
    ensures var t, h := Step(c, s, first), BookStep(c, s, g, first);
            CorrectRun(c, t, h, rest) && !ResetsFindOnePool(c, t, h, rest) ==>
              CorrectRun(c, s, g, [first] + rest) && !ResetsFindOnePool(c, s, g, [first] + rest)
  {
    StepIsSafe(c, s, g, first);
    var t, h := Step(c, s, first), BookStep(c, s, g, first);
    if CorrectRun(c, t, h, rest) {
      ConsCorrect(c, s, g, first, rest, t, h);
    }
  }

  lemma LeaksFrom(c: Build, s: State, g: Book, first: Op, base: nat, place: nat)
    requires Inv(c, s, g) && Correct(c, s, g, first) && CleanGrowth(c, s, first)
    ensures Inv(c, Step(c, s, first), BookStep(c, s, g, first))
    ensures var t := Step(c, s, first);
            t.pools == [base] && t.freePtr == t.endFree && Fresh(|t.mem|, t.pools, place)
            && (forall k :: 0 <= k < |t.table| ==> t.table[k] == 0) ==>
              var ops := [first] + [OpAllocate(1, place, NO_JUNK), OpReset];
              CorrectRun(c, s, g, ops) && !ResetsFindOnePool(c, s, g, ops)
  {
    StepIsSafe(c, s, g, first);
    var t, h, second := Step(c, s, first), BookStep(c, s, g, first), OpAllocate(1, place, NO_JUNK);
    if t.pools == [base] && t.freePtr == t.endFree && Fresh(|t.mem|, t.pools, place)
       && forall k :: 0 <= k < |t.table| ==> t.table[k] == 0 {
      SecondPool(c, t, h, base, place);
      LeaksAfterSecond(c, t, h, second);
      LeaksLater(c, s, g, first, [second, OpReset]);
    }
  }

  lemma LeakingRunCorrect(c: Build, mem: seq<nat>, base: nat, place: nat)
    requires Fresh(|mem|, [], base) && Fresh(|mem|, [base], place)
    ensures var s, g, ops := Initial(mem, base), EmptyBook(TABLE_SIZE), LeakingRun(c, place);
            Inv(c, s, g) && CorrectRun(c, s, g, ops) && !ResetsFindOnePool(c, s, g, ops)
  {
    var first := OpAllocate(RequestFor(c, CHUNK), place, NO_JUNK);
    FirstChunk(c, mem, base, place);
    LeaksFrom(c, Initial(mem, base), EmptyBook(TABLE_SIZE), first, base, place);
    assert LeakingRun(c, place) == [first] + [OpAllocate(1, place, NO_JUNK), OpReset];
  }

  /** That run is used as documented and leaks. */
  lemma LeakingRunLeaks(c: Build, mem: seq<nat>, base: nat, place: nat)
    requires Fresh(|mem|, [], base) && Fresh(|mem|, [base], place)
    ensures var s, g, ops := Initial(mem, base), EmptyBook(TABLE_SIZE), LeakingRun(c, place);
            && Inv(c, s, g) && CorrectRun(c, s, g, ops)
            && |After(c, s, g, ops).0.pools| < |s.pools| + Obtained(c, s, g, ops)
  {
    var s, g, ops := Initial(mem, base), EmptyBook(TABLE_SIZE), LeakingRun(c, place);
    LeakingRunCorrect(c, mem, base, place);
    LeaksSomething(c, s, g, ops);
  }

  lemma LeaksSomething(c: Build, s: State, g: Book, ops: seq<Op>)
    requires Inv(c, s, g) && CorrectRun(c, s, g, ops) && !ResetsFindOnePool(c, s, g, ops)
    ensures |After(c, s, g, ops).0.pools| < |s.pools| + Obtained(c, s, g, ops)
  {
    PoolsAccountedFor(c, s, g, ops);
    NoneUnlinkedIff(c, s, g, ops);
  }
}
