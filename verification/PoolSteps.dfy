/** One operation of the chunk allocator: heap safety, and the client's data are left alone. */
module PoolSteps {
  import opened PoolModel
  import opened PoolProofs

  /** What a client may do. `base` is where the system would place a new pool, `junk` what uninitialised
      memory holds. */
  datatype Op =
    | OpAllocate(n: nat, base: nat, junk: nat -> nat)
    | OpDeallocate(ptr: nat, n: nat, junk: nat -> nat)
    | OpWrite(a: nat, v: nat)
    | OpReset

  /** The free list that an operation files a block in, if any. */
  function FiledIndex(c: Build, s: State, op: Op): (i: int)
    requires s.freePtr <= s.endFree && (op.OpDeallocate? && op.n > 0 ==> c.Offset() <= op.ptr)
  {
    match op
    case OpAllocate(n, base, junk) =>
      if n > 0 && Get(s.table, c.BlockSize(n)) == 0 && s.freePtr + c.BlockSize(n) > s.endFree && s.freePtr < s.endFree
      then c.ArchSize(s.endFree - s.freePtr) else -1
    case OpDeallocate(ptr, n, junk) =>
      if n > 0 && ptr - c.Offset() + c.BlockSize(n) != s.freePtr then c.BlockSize(n) else -1
    case _ => -1
  }

  /** The operation respects the documented preconditions: requests fit in a pool, only live blocks are
      released, with their size, and only live blocks are written to. */
  ghost predicate Correct(c: Build, s: State, g: Book, op: Op) {
    match op
    case OpAllocate(n, base, junk) => c.BlockSize(n) <= CHUNK && Fresh(|s.mem|, s.pools, base)
    case OpDeallocate(ptr, n, junk) =>
      n > 0 ==>
        && c.Offset() <= ptr
        && ptr - c.Offset() in g.live && ptr - c.Offset() in g.owned
        && g.owned[ptr - c.Offset()] == c.BlockSize(n)
    case OpWrite(a, v) => exists b :: b in g.live && b in g.owned && b + c.Offset() <= a < b + g.owned[b]
    case OpReset => true
  }

  /** No uninitialised word becomes a free-list head: the table is not grown, or what it exposes is null. */
  ghost predicate CleanGrowth(c: Build, s: State, op: Op)
    requires s.freePtr <= s.endFree && (op.OpDeallocate? && op.n > 0 ==> c.Offset() <= op.ptr)
  {
    var i := FiledIndex(c, s, op);
    i < |s.table| || forall k: nat :: |s.table| <= k < i + INC ==> op.junk(k) == 0
  }

  function Step(c: Build, s: State, op: Op): State
    requires s.freePtr <= s.endFree && |s.pools| > 0 && (op.OpDeallocate? && op.n > 0 ==> c.Offset() <= op.ptr)
  {
    match op
    case OpAllocate(n, base, junk) => Allocate(c, s, n, base, junk).0
    case OpDeallocate(ptr, n, junk) => Deallocate(c, s, ptr, n, junk)
    case OpWrite(a, v) => s.(mem := Write(s.mem, a, v))
    case OpReset => Reset(s)
  }

  function BookStep(c: Build, s: State, g: Book, op: Op): Book
    requires s.freePtr <= s.endFree && (op.OpDeallocate? && op.n > 0 ==> c.Offset() <= op.ptr)
  {
    match op
    case OpAllocate(n, base, junk) => BookAllocate(c, s, g, n, base)
    case OpDeallocate(ptr, n, junk) => BookDeallocate(c, s, g, ptr, n)
    case OpWrite(a, v) => g
    case OpReset => EmptyBook(|s.table|)
  }

  // ---- one step ----

  /** The step from `g` to `h` made `d`, of `size` words, live and took nothing away. */
  ghost predicate Granted(g: Book, h: Book, d: nat, size: nat) {
    && d !in g.live && h.live == g.live + {d}
    && d in h.owned && h.owned[d] == size
    && forall b :: b in g.owned ==> b in h.owned && h.owned[b] == g.owned[b]
  }

  /** The step made a block live that is reached through `ptr` and holds `n` integers behind the debug word. */
  ghost predicate GrantedFor(c: Build, g: Book, h: Book, ptr: nat, n: nat) {
    var offset := if c.debug then 1 else 0;
    && offset <= ptr && Granted(g, h, ptr - offset, c.BlockSize(n))
    && HoldsIntegers(c.wide, h.owned[ptr - offset] - offset, n)
  }

  lemma GrantHolds(c: Build, g: Book, h: Book, d: nat, n: nat)
    requires Granted(g, h, d, c.BlockSize(n))
    ensures GrantedFor(c, g, h, d + c.Offset(), n)
  {
    ArchSizeHolds(c, n);
  }

  lemma FromFreeList(c: Build, s: State, g: Book, size: nat)
    requires Inv(c, s, g) && Get(s.table, size) != 0
    ensures Inv(c, Pop(c, s, size), BookPop(g, size)) && Granted(g, BookPop(g, size), s.table[size], size)
  {
    PopKeepsInv(c, s, g, size);
    assert s.table[size] in g.lists[size];
  }

  lemma FromBump(c: Build, s: State, g: Book, size: nat)
    requires Inv(c, s, g) && 0 < size && s.freePtr + size <= s.endFree
    ensures Inv(c, Bump(c, s, size), BookBump(g, s.freePtr, size))
    ensures Granted(g, BookBump(g, s.freePtr, size), s.freePtr, size)
  {
    BumpKeepsInv(c, s, g, size);
  }

  lemma Retiring(c: Build, s: State, g: Book, junk: nat -> nat)
    requires Inv(c, s, g)
    requires var i := c.ArchSize(s.endFree - s.freePtr);
             s.freePtr == s.endFree || i < |s.table| || forall k :: |s.table| <= k < i + INC ==> junk(k) == 0
    ensures Inv(c, Retire(c, s, junk), BookRetire(c, s, g))
    ensures BookRetire(c, s, g).live == g.live
    ensures forall b :: b in g.owned ==> b in BookRetire(c, s, g).owned && BookRetire(c, s, g).owned[b] == g.owned[b]
  {
    RetireKeepsInv(c, s, g, junk);
    if s.freePtr < s.endFree {
      BumpKeepsBlocks(s, g.owned, c.ArchSize(s.endFree - s.freePtr));
    }
  }

  lemma FromNewPool(c: Build, s: State, g: Book, size: nat, base: nat)
    requires Inv(c, s, g) && 0 < size <= CHUNK && s.freePtr == s.endFree && Fresh(|s.mem|, s.pools, base)
    ensures Inv(c, Bump(c, AddPool(s, base), size), BookBump(g, base, size))
    ensures Granted(g, BookBump(g, base, size), base, size)
  {
    AddPoolKeepsInv(c, s, g, base);
    FromBump(c, AddPool(s, base), g, size);
  }

  /** `allocate` keeps the invariant and returns a block that was not live, and that behind the debug word holds
      the integers asked for and no word more: by `Inv` it lies in one pool, apart from everything the client
      holds. */
  ghost predicate Served(c: Build, s: State, g: Book, n: nat, base: nat, junk: nat -> nat)
    requires s.freePtr <= s.endFree
  {
    var (t, ptr) := Allocate(c, s, n, base, junk);
    var h := BookAllocate(c, s, g, n, base);
    && Inv(c, t, h)
    && (n == 0 ==> ptr == 0 && h == g)
    && (n > 0 ==> GrantedFor(c, g, h, ptr, n))
  }

  lemma ServedFromFreeList(c: Build, s: State, g: Book, n: nat, base: nat, junk: nat -> nat)
    requires Inv(c, s, g) && n > 0 && Get(s.table, c.BlockSize(n)) != 0
    ensures Served(c, s, g, n, base, junk)
  {
    FromFreeList(c, s, g, c.BlockSize(n));
    GrantHolds(c, g, BookPop(g, c.BlockSize(n)), s.table[c.BlockSize(n)], n);
  }

  lemma ServedFromBump(c: Build, s: State, g: Book, n: nat, base: nat, junk: nat -> nat)
    requires Inv(c, s, g) && n > 0 && Get(s.table, c.BlockSize(n)) == 0
    requires s.freePtr + c.BlockSize(n) <= s.endFree
    ensures Served(c, s, g, n, base, junk)
  {
    FromBump(c, s, g, c.BlockSize(n));
    GrantHolds(c, g, BookBump(g, s.freePtr, c.BlockSize(n)), s.freePtr, n);
  }

  lemma ServedFromNewPool(c: Build, s: State, g: Book, n: nat, base: nat, junk: nat -> nat)
    requires Inv(c, s, g) && n > 0 && Get(s.table, c.BlockSize(n)) == 0
    requires s.freePtr + c.BlockSize(n) > s.endFree
    requires Correct(c, s, g, OpAllocate(n, base, junk)) && CleanGrowth(c, s, OpAllocate(n, base, junk))
    ensures Served(c, s, g, n, base, junk)
  {
    Retiring(c, s, g, junk);
    var t, h := Retire(c, s, junk), BookRetire(c, s, g);
    FromNewPool(c, t, h, c.BlockSize(n), base);
    GrantedAfter(g, h, BookBump(h, base, c.BlockSize(n)), base, c.BlockSize(n));
    GrantHolds(c, g, BookBump(h, base, c.BlockSize(n)), base, n);
  }

  lemma GrantedAfter(g: Book, g1: Book, h: Book, d: nat, size: nat)
    requires g1.live == g.live && Granted(g1, h, d, size)
    requires forall b :: b in g.owned ==> b in g1.owned && g1.owned[b] == g.owned[b]
    ensures Granted(g, h, d, size)
  {
  }

  lemma AllocateIsSafe(c: Build, s: State, g: Book, n: nat, base: nat, junk: nat -> nat)
    requires Inv(c, s, g) && Correct(c, s, g, OpAllocate(n, base, junk))
    requires CleanGrowth(c, s, OpAllocate(n, base, junk))
    ensures Served(c, s, g, n, base, junk)
  {
    var size := c.BlockSize(n);
    if n == 0 {
    } else if Get(s.table, size) != 0 {
      ServedFromFreeList(c, s, g, n, base, junk);
    } else if s.freePtr + size <= s.endFree {
      ServedFromBump(c, s, g, n, base, junk);
    } else {
      ServedFromNewPool(c, s, g, n, base, junk);
    }
  }

  /** `deallocate` keeps the invariant. */
  ghost predicate Freed(c: Build, s: State, g: Book, ptr: nat, n: nat, junk: nat -> nat)
    requires n == 0 || c.Offset() <= ptr
  {
    Inv(c, Deallocate(c, s, ptr, n, junk), BookDeallocate(c, s, g, ptr, n))
  }

  lemma FreedByMerging(c: Build, s: State, g: Book, ptr: nat, n: nat, junk: nat -> nat)
    requires Inv(c, s, g) && Correct(c, s, g, OpDeallocate(ptr, n, junk))
    requires n > 0 && ptr - c.Offset() + c.BlockSize(n) == s.freePtr
    ensures Freed(c, s, g, ptr, n, junk)
  {
    MergeBranch(c, s, g, ptr, n, ptr - c.Offset(), junk);
    MergeKeepsInv(c, s, g, ptr - c.Offset());
  }

  lemma MergeBranch(c: Build, s: State, g: Book, ptr: nat, n: nat, d: nat, junk: nat -> nat)
    requires n > 0 && ptr == d + c.Offset() && d + c.BlockSize(n) == s.freePtr
    ensures Deallocate(c, s, ptr, n, junk) == s.(freePtr := d)
    ensures BookDeallocate(c, s, g, ptr, n) == BookMerge(g, d)
  {
  }

  lemma FreedByFiling(c: Build, s: State, g: Book, ptr: nat, n: nat, junk: nat -> nat)
    requires Inv(c, s, g) && Correct(c, s, g, OpDeallocate(ptr, n, junk))
    requires n > 0 && ptr - c.Offset() + c.BlockSize(n) != s.freePtr
    requires CleanGrowth(c, s, OpDeallocate(ptr, n, junk))
    ensures Freed(c, s, g, ptr, n, junk)
  {
    var d: nat := ptr - c.Offset();
    PushBranch(c, s, g, ptr, n, d, junk);
    PushKeepsInv(c, s, g, c.BlockSize(n), d, junk);
  }

  lemma PushBranch(c: Build, s: State, g: Book, ptr: nat, n: nat, d: nat, junk: nat -> nat)
    requires n > 0 && ptr == d + c.Offset() && d + c.BlockSize(n) != s.freePtr
    ensures Deallocate(c, s, ptr, n, junk) == Push(s, c.BlockSize(n), d, junk)
    ensures BookDeallocate(c, s, g, ptr, n) == BookPush(g, c.BlockSize(n), d)
  {
  }

  lemma DeallocateIsSafe(c: Build, s: State, g: Book, ptr: nat, n: nat, junk: nat -> nat)
    requires Inv(c, s, g) && Correct(c, s, g, OpDeallocate(ptr, n, junk))
    requires CleanGrowth(c, s, OpDeallocate(ptr, n, junk))
    ensures Freed(c, s, g, ptr, n, junk)
  {
    if n > 0 {
      if ptr - c.Offset() + c.BlockSize(n) == s.freePtr {
        FreedByMerging(c, s, g, ptr, n, junk);
      } else {
        FreedByFiling(c, s, g, ptr, n, junk);
      }
    }
  }

  lemma DeallocateReleases(c: Build, s: State, g: Book, ptr: nat, n: nat)
    requires n > 0 && c.Offset() <= ptr && s.freePtr <= s.endFree
    ensures Released(g, BookDeallocate(c, s, g, ptr, n), {ptr - c.Offset()})
  {
    ReleasedBooks(g, c.BlockSize(n), ptr - c.Offset());
  }

  ghost predicate Released(g: Book, h: Book, gone: set<int>) {
    && (forall b :: b in h.live <==> b in g.live && b !in gone)
    && forall b :: b in h.live && b in g.owned ==> b in h.owned && h.owned[b] == g.owned[b]
  }

  lemma ReleasedBooks(g: Book, i: nat, d: nat)
    ensures Released(g, BookMerge(g, d), {d}) && Released(g, BookPush(g, i, d), {d})
  {
  }

  lemma StepIsSafe(c: Build, s: State, g: Book, op: Op)
    requires Inv(c, s, g) && Correct(c, s, g, op) && CleanGrowth(c, s, op)
    ensures Inv(c, Step(c, s, op), BookStep(c, s, g, op))
  {
    match op
    case OpAllocate(n, base, junk) => AllocateIsSafe(c, s, g, n, base, junk);
    case OpDeallocate(ptr, n, junk) => DeallocateIsSafe(c, s, g, ptr, n, junk);
    case OpWrite(a, v) =>
      var b :| b in g.live && b in g.owned && b + c.Offset() <= a < b + g.owned[b];
      ClientWriteKeepsInv(c, s, g, b, a, v);
    case OpReset => EmptyIsOk(c, Reset(s));
  }

  // ---- client data ----

  /** Address `a` belongs to the client's part of live block `b`. */
  ghost predicate ClientWord(c: Build, g: Book, b: nat, a: nat) {
    b in g.live && b in g.owned && b + c.Offset() <= a < b + g.owned[b]
  }

  /** The operation neither releases `b` nor writes `a`. */
  predicate Spares(c: Build, op: Op, b: nat, a: nat) {
    match op
    case OpAllocate(n, base, junk) => true
    case OpDeallocate(ptr, n, junk) => n == 0 || ptr != b + c.Offset()
    case OpWrite(x, v) => x != a
    case OpReset => false
  }

  /** The allocator's own writes go to block starts that are not live, or to the bump space. */
  lemma OwnWritesElsewhere(c: Build, s: State, g: Book, b: nat, a: nat)
    requires Inv(c, s, g) && ClientWord(c, g, b, a)
    ensures forall x :: x in g.owned && x != b ==> x != a
    ensures s.freePtr < s.endFree ==> s.freePtr != a
    ensures forall base :: Fresh(|s.mem|, s.pools, base) ==> base != a
    ensures c.debug ==> a != b
    ensures a < |s.mem|
  {
    forall x | x in g.owned && x != b
      ensures x != a
    {
      assert Apart(b, g.owned[b], x, g.owned[x]);
    }
    assert InPools(s.pools, b, g.owned[b]);
    var k :| 0 <= k < |s.pools| && s.pools[k] <= b && b + g.owned[b] <= s.pools[k] + CHUNK;
    forall base | Fresh(|s.mem|, s.pools, base)
      ensures base != a
    {
      assert PoolsApart(base, s.pools[k]);
    }
  }

  lemma HeadIsOwned(c: Build, s: State, g: Book, n: nat)
    requires Inv(c, s, g) && n < |s.table| && s.table[n] != 0
    ensures s.table[n] in g.owned && s.table[n] !in g.live
  {
    assert Linked(s.mem, s.table[n], g.lists[n]);
    assert g.lists[n][0] in g.lists[n];
  }

  /** Address `a` reads the same after the step. */
  ghost predicate WordKept(c: Build, s: State, op: Op, a: nat)
    requires s.freePtr <= s.endFree && |s.pools| > 0 && (op.OpDeallocate? && op.n > 0 ==> c.Offset() <= op.ptr)
  {
    Read(Step(c, s, op).mem, a) == Read(s.mem, a)
  }

  lemma HeaderKept(c: Build, mem: seq<nat>, d: nat, n: nat, a: nat)
    requires d != a
    ensures Read(Header(c, mem, d, n), a) == Read(mem, a)
  {
  }

  lemma RetireKept(c: Build, s: State, junk: nat -> nat, a: nat)
    requires s.freePtr <= s.endFree && (s.freePtr < s.endFree ==> s.freePtr != a)
    ensures Read(Retire(c, s, junk).mem, a) == Read(s.mem, a)
  {
  }

  lemma KeptByAllocate(c: Build, s: State, g: Book, n: nat, base: nat, junk: nat -> nat, b: nat, a: nat)
    requires Inv(c, s, g) && c.BlockSize(n) <= CHUNK && Fresh(|s.mem|, s.pools, base) && ClientWord(c, g, b, a)
    ensures WordKept(c, s, OpAllocate(n, base, junk), a)
  {
    OwnWritesElsewhere(c, s, g, b, a);
    var size := c.BlockSize(n);
    if n == 0 {
    } else if Get(s.table, size) != 0 {
      HeadIsOwned(c, s, g, size);
      HeaderKept(c, s.mem, s.table[size], size, a);
    } else if s.freePtr + size <= s.endFree {
      HeaderKept(c, s.mem, s.freePtr, size, a);
    } else {
      RetireKept(c, s, junk, a);
      HeaderKept(c, Retire(c, s, junk).mem, base, size, a);
    }
  }

  lemma KeptByDeallocate(c: Build, s: State, g: Book, ptr: nat, n: nat, junk: nat -> nat, b: nat, a: nat)
    requires Inv(c, s, g) && Correct(c, s, g, OpDeallocate(ptr, n, junk)) && ClientWord(c, g, b, a)
    requires n == 0 || ptr != b + c.Offset()
    ensures WordKept(c, s, OpDeallocate(ptr, n, junk), a)
  {
    OwnWritesElsewhere(c, s, g, b, a);
  }

  /** No allocator operation touches the words that the client keeps. */
  lemma ClientWordKept(c: Build, s: State, g: Book, op: Op, b: nat, a: nat)
    requires Inv(c, s, g) && Correct(c, s, g, op)
    requires ClientWord(c, g, b, a) && Spares(c, op, b, a)
    ensures Read(Step(c, s, op).mem, a) == Read(s.mem, a)
  {
    match op
    case OpAllocate(n, base, junk) => KeptByAllocate(c, s, g, n, base, junk, b, a);
    case OpDeallocate(ptr, n, junk) => KeptByDeallocate(c, s, g, ptr, n, junk, b, a);
    case OpWrite(x, v) =>
    case OpReset =>
  }

  // ---- the debug check of deallocate ----

  /** hasInPools: the address lies in the used part of a pool and not in the free list of that size. */
  ghost predicate HasInPools(s: State, g: Book, d: nat, n: nat)
    requires |s.pools| > 0
  {
    && (s.pools[0] <= d < s.freePtr || exists k :: 1 <= k < |s.pools| && s.pools[k] <= d < s.pools[k] + CHUNK)
    && (n < |g.lists| ==> d !in g.lists[n])
  }

  lemma LiveIsInPools(c: Build, s: State, g: Book, d: nat)
    requires Inv(c, s, g) && d in g.live
    ensures HasInPools(s, g, d, g.owned[d])
    ensures c.debug ==> Read(s.mem, d) == g.owned[d]
  {
    assert InPools(s.pools, d, g.owned[d]);
    OwnedInMemory(c, s, g, d);
  }

  /** At any time the check of `deallocate` holds of a block that was handed out exactly if it is still live: a
      block that was released waits in the free list of its size. */
  lemma InPoolsIffLive(c: Build, s: State, g: Book, d: nat)
    requires Inv(c, s, g) && d in g.owned
    ensures HasInPools(s, g, d, g.owned[d]) <==> d in g.live
  {
    if d in g.live {
      LiveIsInPools(c, s, g, d);
    }
  }

  /** A block merged back lies in the current pool, at the bump pointer. */
  lemma MergedIsOut(s: State, g: Book, d: nat, n: nat)
    requires PoolsOk(|s.mem|, s.pools, s.freePtr, s.endFree) && s.pools[0] <= d <= s.endFree
    ensures !HasInPools(s.(freePtr := d), g, d, n)
  {
    forall j | 1 <= j < |s.pools|
      ensures !(s.pools[j] <= d < s.pools[j] + CHUNK)
    {
      assert PoolsApart(s.pools[0], s.pools[j]);
    }
  }

  lemma MergedBlockIsOut(c: Build, s: State, g: Book, d: nat)
    requires Inv(c, s, g) && d in g.live && d + g.owned[d] == s.freePtr
    ensures !HasInPools(s.(freePtr := d), BookMerge(g, d), d, g.owned[d])
  {
    MergeKeepsInv(c, s, g, d);
    MergedIsOut(s, BookMerge(g, d), d, g.owned[d]);
  }

  lemma FiledIsOut(s: State, g: Book, n: nat, d: nat, junk: nat -> nat)
    requires |s.pools| > 0
    ensures !HasInPools(Push(s, n, d, junk), BookPush(g, n, d), d, n)
  {
    assert BookPush(g, n, d).lists[n][0] == d;
  }

  /** The check of `deallocate` holds of every live block, and no longer once the block is released. */
  lemma OracleIsRight(c: Build, s: State, g: Book, ptr: nat, n: nat, junk: nat -> nat)
    requires Inv(c, s, g) && n > 0 && Correct(c, s, g, OpDeallocate(ptr, n, junk))
    ensures var d: nat := ptr - c.Offset();
            && (c.debug ==> Read(s.mem, d) == c.BlockSize(n))
            && HasInPools(s, g, d, c.BlockSize(n))
            && !HasInPools(Deallocate(c, s, ptr, n, junk), BookDeallocate(c, s, g, ptr, n), d, c.BlockSize(n))
  {
    var d: nat := ptr - c.Offset();
    LiveIsInPools(c, s, g, d);
    if d + c.BlockSize(n) == s.freePtr {
      MergedBlockIsOut(c, s, g, d);
      MergeBranch(c, s, g, ptr, n, d, junk);
    } else {
      FiledIsOut(s, g, c.BlockSize(n), d, junk);
    }
  }
}
