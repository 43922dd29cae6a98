/** Whole runs of the chunk allocator: heap safety, client data and conservation of words. */
module PoolRuns {
  import opened PoolModel
  import opened PoolProofs
  import opened PoolLedger
  import opened PoolSteps

  // ---- conservation, one operation ----

  /** The books balance, and words are rounded away only where a word holds two integers. */
  ghost predicate Balanced(c: Build, s: State, g: Book) {
    && g.live <= g.owned.Keys && s.freePtr <= s.endFree
    && Conserved(s, g)
    && (!c.wide ==> g.loss == 0)
  }

  ghost predicate AllocateBalanced(c: Build, s: State, g: Book, n: nat, base: nat, junk: nat -> nat)
    requires s.freePtr <= s.endFree
  {
    Balanced(c, Allocate(c, s, n, base, junk).0, BookAllocate(c, s, g, n, base))
  }

  lemma BalancedFromFreeList(c: Build, s: State, g: Book, n: nat, base: nat, junk: nat -> nat)
    requires Inv(c, s, g) && Balanced(c, s, g) && n > 0 && Get(s.table, c.BlockSize(n)) != 0
    ensures AllocateBalanced(c, s, g, n, base, junk)
  {
    PopKeepsInv(c, s, g, c.BlockSize(n));
    HeadIsOwned(c, s, g, c.BlockSize(n));
    PopConserves(c, s, g, c.BlockSize(n));
  }

  lemma BalancedFromBump(c: Build, s: State, g: Book, n: nat, base: nat, junk: nat -> nat)
    requires Inv(c, s, g) && Balanced(c, s, g) && n > 0 && Get(s.table, c.BlockSize(n)) == 0
    requires s.freePtr + c.BlockSize(n) <= s.endFree
    ensures AllocateBalanced(c, s, g, n, base, junk)
  {
    BumpKeepsBlocks(s, g.owned, c.BlockSize(n));
    BumpConserves(c, s, g, c.BlockSize(n));
  }

  lemma BalancedFromNewPool(c: Build, s: State, g: Book, n: nat, base: nat, junk: nat -> nat)
    requires Inv(c, s, g) && Balanced(c, s, g) && n > 0 && Get(s.table, c.BlockSize(n)) == 0
    requires s.freePtr + c.BlockSize(n) > s.endFree && c.BlockSize(n) <= CHUNK && Fresh(|s.mem|, s.pools, base)
    ensures AllocateBalanced(c, s, g, n, base, junk)
  {
    if s.freePtr < s.endFree {
      BumpKeepsBlocks(s, g.owned, 1);
    }
    RetireConserves(c, s, g, junk);
    var t, h := Retire(c, s, junk), BookRetire(c, s, g);
    AddPoolConserves(t, h, base);
    NewBaseNotLive(c, s, g, base);
    BumpConserves(c, AddPool(t, base), h, c.BlockSize(n));
  }

  lemma NewBaseNotLive(c: Build, s: State, g: Book, base: nat)
    requires Inv(c, s, g) && Fresh(|s.mem|, s.pools, base)
    ensures base !in g.live
  {
    forall b | b in g.live
      ensures b != base
    {
      assert b in g.owned && InPools(s.pools, b, g.owned[b]);
      var k :| 0 <= k < |s.pools| && s.pools[k] <= b && b + g.owned[b] <= s.pools[k] + CHUNK;
      assert PoolsApart(base, s.pools[k]);
    }
  }

  lemma AllocateConserves(c: Build, s: State, g: Book, n: nat, base: nat, junk: nat -> nat)
    requires Inv(c, s, g) && Balanced(c, s, g) && c.BlockSize(n) <= CHUNK && Fresh(|s.mem|, s.pools, base)
    ensures AllocateBalanced(c, s, g, n, base, junk)
  {
    if n > 0 {
      if Get(s.table, c.BlockSize(n)) != 0 {
        BalancedFromFreeList(c, s, g, n, base, junk);
      } else if s.freePtr + c.BlockSize(n) <= s.endFree {
        BalancedFromBump(c, s, g, n, base, junk);
      } else {
        BalancedFromNewPool(c, s, g, n, base, junk);
      }
    }
  }

  lemma DeallocateConserves(c: Build, s: State, g: Book, d: nat, n: nat, junk: nat -> nat)
    requires Balanced(c, s, g) && n > 0 && d in g.live && g.owned[d] == c.BlockSize(n)
    ensures Balanced(c, Deallocate(c, s, d + c.Offset(), n, junk), BookDeallocate(c, s, g, d + c.Offset(), n))
  {
    if d + c.BlockSize(n) == s.freePtr {
      MergeConserves(s, g, d);
    } else {
      PushConserves(s, g, c.BlockSize(n), d, junk);
    }
  }

  lemma ResetConserves(c: Build, s: State)
    requires s.freePtr <= s.endFree && |s.pools| > 0
    ensures Balanced(c, Reset(s), EmptyBook(|s.table|))
  {
    EmptyConserves(Reset(s), |s.table|);
  }

  lemma StepConserves(c: Build, s: State, g: Book, op: Op)
    requires Inv(c, s, g) && Correct(c, s, g, op) && Balanced(c, s, g)
    ensures Balanced(c, Step(c, s, op), BookStep(c, s, g, op))
  {
    match op
    case OpAllocate(n, base, junk) => AllocateConserves(c, s, g, n, base, junk);
    case OpDeallocate(ptr, n, junk) => ReleaseConserves(c, s, g, ptr, n, junk);
    case OpWrite(a, v) => assert Conserved(s.(mem := Write(s.mem, a, v)), g);
    case OpReset => ResetConserves(c, s);
  }

  lemma ReleaseConserves(c: Build, s: State, g: Book, ptr: nat, n: nat, junk: nat -> nat)
    requires Balanced(c, s, g) && Correct(c, s, g, OpDeallocate(ptr, n, junk))
    ensures Balanced(c, Deallocate(c, s, ptr, n, junk), BookDeallocate(c, s, g, ptr, n))
  {
    if n > 0 {
      DeallocateConserves(c, s, g, ptr - c.Offset(), n, junk);
    }
  }

  // ---- runs ----

  /** Every operation of the run is used as documented, and no uninitialised word becomes a list head. */
  ghost predicate CorrectRun(c: Build, s: State, g: Book, ops: seq<Op>)
    requires Inv(c, s, g)
    decreases |ops|
  {
    if ops == [] then true
    else
      Correct(c, s, g, ops[0]) && CleanGrowth(c, s, ops[0]) &&
      (StepIsSafe(c, s, g, ops[0]);
       CorrectRun(c, Step(c, s, ops[0]), BookStep(c, s, g, ops[0]), ops[1..]))
  }

  ghost function After(c: Build, s: State, g: Book, ops: seq<Op>): (r: (State, Book))
    requires Inv(c, s, g) && CorrectRun(c, s, g, ops)
    ensures Inv(c, r.0, r.1)
    decreases |ops|
  {
    if ops == [] then (s, g)
    else
      StepIsSafe(c, s, g, ops[0]);
      After(c, Step(c, s, ops[0]), BookStep(c, s, g, ops[0]), ops[1..])
  }

  lemma {:induction false} RunConserves(c: Build, s: State, g: Book, ops: seq<Op>)
    requires Inv(c, s, g) && CorrectRun(c, s, g, ops) && Balanced(c, s, g)
    ensures var (t, h) := After(c, s, g, ops); Balanced(c, t, h)
    decreases |ops|
  {
    if ops != [] {
      StepIsSafe(c, s, g, ops[0]);
      StepConserves(c, s, g, ops[0]);
      RunConserves(c, Step(c, s, ops[0]), BookStep(c, s, g, ops[0]), ops[1..]);
    }
  }

  /** Heap safety and conservation over every run of a new allocator. */
  lemma EveryRunIsSafe(c: Build, mem: seq<nat>, base: nat, ops: seq<Op>)
    requires Fresh(|mem|, [], base)
    ensures Inv(c, Initial(mem, base), EmptyBook(TABLE_SIZE))
    ensures CorrectRun(c, Initial(mem, base), EmptyBook(TABLE_SIZE), ops) ==>
              var (t, h) := After(c, Initial(mem, base), EmptyBook(TABLE_SIZE), ops);
              Inv(c, t, h) && Balanced(c, t, h)
  {
    var s := Initial(mem, base);
    EmptyIsOk(c, s);
    EmptyConserves(s, TABLE_SIZE);
    if CorrectRun(c, s, EmptyBook(TABLE_SIZE), ops) {
      RunConserves(c, s, EmptyBook(TABLE_SIZE), ops);
    }
  }

  /** After every correctly used run of a new allocator: a live block lies inside one pool, and overlaps
      neither the bump space nor any other live block nor any block of a free list. */
  lemma NothingOverlaps(c: Build, mem: seq<nat>, base: nat, ops: seq<Op>, b: nat, d: nat)
    requires Fresh(|mem|, [], base)
    ensures Inv(c, Initial(mem, base), EmptyBook(TABLE_SIZE))
    ensures CorrectRun(c, Initial(mem, base), EmptyBook(TABLE_SIZE), ops) ==>
              var (s, g) := After(c, Initial(mem, base), EmptyBook(TABLE_SIZE), ops);
              b in g.live ==>
                && b in g.owned && InPools(s.pools, b, g.owned[b])
                && Apart(b, g.owned[b], s.freePtr, s.endFree - s.freePtr)
                && (d in g.live && d in g.owned && d != b ==> Apart(b, g.owned[b], d, g.owned[d]))
                && forall i :: 0 <= i < |g.lists| && d in g.lists[i] ==> Apart(b, g.owned[b], d, i)
  {
    EveryRunIsSafe(c, mem, base, ops);
    if CorrectRun(c, Initial(mem, base), EmptyBook(TABLE_SIZE), ops) {
      var (s, g) := After(c, Initial(mem, base), EmptyBook(TABLE_SIZE), ops);
      forall i | b in g.live && 0 <= i < |g.lists| && d in g.lists[i]
        ensures Apart(b, g.owned[b], d, i)
      {
        assert d in g.owned && g.owned[d] == i && d !in g.live;
      }
    }
  }

  /** Over a whole run, a word of a live block that the client neither releases nor rewrites keeps its
      value, whatever the allocator does in between. */
  lemma {:induction false} ClientDataSurvives(c: Build, s: State, g: Book, ops: seq<Op>, b: nat, a: nat)
    requires Inv(c, s, g) && CorrectRun(c, s, g, ops) && ClientWord(c, g, b, a)
    requires forall k :: 0 <= k < |ops| ==> Spares(c, ops[k], b, a)
    ensures var (t, h) := After(c, s, g, ops);
            ClientWord(c, h, b, a) && h.owned[b] == g.owned[b] && Read(t.mem, a) == Read(s.mem, a)
    decreases |ops|
  {
    if ops != [] {
      StepIsSafe(c, s, g, ops[0]);
      ClientWordKept(c, s, g, ops[0], b, a);
      BlockKept(c, s, g, ops[0], b, a);
      ClientDataSurvives(c, Step(c, s, ops[0]), BookStep(c, s, g, ops[0]), ops[1..], b, a);
    }
  }

  lemma BlockKept(c: Build, s: State, g: Book, op: Op, b: nat, a: nat)
    requires Inv(c, s, g) && Correct(c, s, g, op) && CleanGrowth(c, s, op)
    requires ClientWord(c, g, b, a) && Spares(c, op, b, a)
    ensures var h := BookStep(c, s, g, op); ClientWord(c, h, b, a) && h.owned[b] == g.owned[b]
  {
    LiveKept(c, s, g, op, b);
  }

  /** The operation does not take block `b` from the client. */
  predicate Keeps(c: Build, op: Op, b: nat) {
    match op
    case OpDeallocate(ptr, n, junk) => n == 0 || ptr != b + c.Offset()
    case OpReset => false
    case _ => true
  }

  lemma LiveKept(c: Build, s: State, g: Book, op: Op, b: nat)
    requires Inv(c, s, g) && Correct(c, s, g, op) && CleanGrowth(c, s, op) && b in g.live && Keeps(c, op, b)
    ensures var h := BookStep(c, s, g, op); b in h.live && b in h.owned && h.owned[b] == g.owned[b]
  {
    match op
    case OpAllocate(n, base, junk) => AllocateIsSafe(c, s, g, n, base, junk);
    case OpDeallocate(ptr, n, junk) =>
      if n > 0 {
        DeallocateReleases(c, s, g, ptr, n);
      }
    case OpWrite(x, v) =>
    case OpReset =>
  }

  /** A block that the client does not release stays live, with its size, over a whole run. */
  lemma {:induction false} RunKeepsBlock(c: Build, s: State, g: Book, ops: seq<Op>, b: nat)
    requires Inv(c, s, g) && CorrectRun(c, s, g, ops) && b in g.live
    requires forall k :: 0 <= k < |ops| ==> Keeps(c, ops[k], b)
    ensures var h := After(c, s, g, ops).1; b in h.live && b in h.owned && h.owned[b] == g.owned[b]
    decreases |ops|
  {
    if ops != [] {
      StepIsSafe(c, s, g, ops[0]);
      LiveKept(c, s, g, ops[0], b);
      RunKeepsBlock(c, Step(c, s, ops[0]), BookStep(c, s, g, ops[0]), ops[1..], b);
    }
  }

  // ---- requests below the size of the table ----

  /** The request is for fewer words than the table of free lists has entries. */
  predicate Small(c: Build, op: Op) {
    match op
    case OpAllocate(n, base, junk) => c.BlockSize(n) < TABLE_SIZE
    case OpDeallocate(ptr, n, junk) => c.BlockSize(n) < TABLE_SIZE
    case _ => true
  }

  lemma SmallStepIsClean(c: Build, s: State, g: Book, op: Op)
    requires Inv(c, s, g) && |s.table| == TABLE_SIZE && Correct(c, s, g, op) && Small(c, op)
    ensures CleanGrowth(c, s, op) && |Step(c, s, op).table| == TABLE_SIZE
  {
  }

  /** The client respects the documented preconditions for as long as the allocator is intact. */
  ghost predicate ClientRun(c: Build, s: State, g: Book, ops: seq<Op>)
    requires Inv(c, s, g)
    decreases |ops|
  {
    if ops == [] then true
    else
      Correct(c, s, g, ops[0]) &&
      (CleanGrowth(c, s, ops[0]) ==>
        (StepIsSafe(c, s, g, ops[0]);
         ClientRun(c, Step(c, s, ops[0]), BookStep(c, s, g, ops[0]), ops[1..])))
  }

  /** With small requests only, the table never grows and every correctly used run is safe, whatever
      uninitialised memory may hold. */
  lemma {:induction false} SmallRunIsCorrect(c: Build, s: State, g: Book, ops: seq<Op>)
    requires Inv(c, s, g) && |s.table| == TABLE_SIZE && ClientRun(c, s, g, ops)
    requires forall k :: 0 <= k < |ops| ==> Small(c, ops[k])
    ensures CorrectRun(c, s, g, ops) && |After(c, s, g, ops).0.table| == TABLE_SIZE
    decreases |ops|
  {
    if ops != [] {
      SmallStepIsClean(c, s, g, ops[0]);
      StepIsSafe(c, s, g, ops[0]);
      SmallRunIsCorrect(c, Step(c, s, ops[0]), BookStep(c, s, g, ops[0]), ops[1..]);
    }
  }
}
