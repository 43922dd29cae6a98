/** Where a request is served and what the client gets: enough room for its integers, released blocks before new
    ones, and a new pool only when nothing else is left. */
module PoolRequests {
  import opened PoolModel
  import opened PoolSteps
  import opened PoolRuns

  // ---- room for the integers ----

  /** The integers of two clients, by the number of 32-bit integers in front of them in the address space. */
  ghost predicate IntegersApart(wide: bool, p: nat, n: nat, q: nat, m: nat) {
    var per := if wide then 2 else 1;
    Apart(per * p, n, per * q, m)
  }

  lemma BlocksApart(c: Build, b: nat, v: nat, n: nat, d: nat, w: nat, m: nat)
    requires Apart(b, v, d, w)
    requires HoldsIntegers(c.wide, v - c.Offset(), n) && HoldsIntegers(c.wide, w - c.Offset(), m)
    ensures IntegersApart(c.wide, b + c.Offset(), n, d + c.Offset(), m)
  {
  }

  /** The client holds the block behind `ptr`, which has room for exactly the words of `n` integers. */
  ghost predicate Held(c: Build, g: Book, ptr: nat, n: nat) {
    var offset := if c.debug then 1 else 0;
    && offset <= ptr && ptr - offset in g.live && ptr - offset in g.owned
    && HoldsIntegers(c.wide, g.owned[ptr - offset] - offset, n)
  }

  lemma RequestIsGranted(c: Build, s: State, g: Book, n: nat, base: nat, junk: nat -> nat)
    requires Inv(c, s, g) && n > 0 && Correct(c, s, g, OpAllocate(n, base, junk))
    requires CleanGrowth(c, s, OpAllocate(n, base, junk))
    ensures Inv(c, Allocate(c, s, n, base, junk).0, BookAllocate(c, s, g, n, base))
    ensures GrantedFor(c, g, BookAllocate(c, s, g, n, base), Allocate(c, s, n, base, junk).1, n)
  {
    AllocateIsSafe(c, s, g, n, base, junk);
  }

  lemma GrantedIsHeld(c: Build, g: Book, h: Book, ptr: nat, n: nat)
    requires GrantedFor(c, g, h, ptr, n)
    ensures Held(c, h, ptr, n)
  {
  }

  /** The client does not give `ptr` back. */
  predicate Spared(ops: seq<Op>, ptr: nat) {
    forall i :: 0 <= i < |ops| ==> !ops[i].OpReset? && (ops[i].OpDeallocate? && ops[i].n > 0 ==> ops[i].ptr != ptr)
  }

  lemma SparedIsKept(c: Build, ops: seq<Op>, b: nat)
    requires Spared(ops, b + c.Offset())
    ensures forall i :: 0 <= i < |ops| ==> Keeps(c, ops[i], b)
  {
  }

  lemma HeldOverRun(c: Build, s: State, g: Book, ops: seq<Op>, ptr: nat, n: nat)
    requires Inv(c, s, g) && CorrectRun(c, s, g, ops) && Held(c, g, ptr, n) && Spared(ops, ptr)
    ensures Held(c, After(c, s, g, ops).1, ptr, n)
  {
    SparedIsKept(c, ops, ptr - c.Offset());
    RunKeepsBlock(c, s, g, ops, ptr - c.Offset());
  }

  lemma NextIsApart(c: Build, t: State, g: Book, h: Book, p: nat, n: nat, q: nat, m: nat)
    requires Inv(c, t, h) && Held(c, g, p, n) && GrantedFor(c, g, h, q, m) && g.live <= g.owned.Keys
    ensures IntegersApart(c.wide, p, n, q, m)
  {
    HeldApart(c, t, h, p, n, q, m);
  }

  lemma HeldApart(c: Build, s: State, g: Book, p: nat, n: nat, q: nat, m: nat)
    requires Inv(c, s, g) && Held(c, g, p, n) && Held(c, g, q, m) && p != q
    ensures IntegersApart(c.wide, p, n, q, m)
  {
    var b: nat, d: nat := p - c.Offset(), q - c.Offset();
    assert Apart(b, g.owned[b], d, g.owned[d]);
    BlocksApart(c, b, g.owned[b], n, d, g.owned[d], m);
  }

  /** A request for `n` integers, which leads from `s` to `t`, a run from `t` to `u` that does not release what was
      got, and a request for `m` integers: the integers of the two clients do not overlap. */
  lemma ClientsNeverOverlap(c: Build, s: State, g: Book, n: nat, base: nat, junk: nat -> nat,
                            t: State, h: Book, ops: seq<Op>, u: State, k: Book, m: nat, place: nat, rest: nat -> nat)
    requires Inv(c, s, g) && n > 0 && m > 0
    requires Correct(c, s, g, OpAllocate(n, base, junk)) && CleanGrowth(c, s, OpAllocate(n, base, junk))
    requires t == Allocate(c, s, n, base, junk).0 && h == BookAllocate(c, s, g, n, base)
    requires Inv(c, t, h) && CorrectRun(c, t, h, ops) && (u, k) == After(c, t, h, ops)
    requires Spared(ops, Allocate(c, s, n, base, junk).1)
    requires Correct(c, u, k, OpAllocate(m, place, rest)) && CleanGrowth(c, u, OpAllocate(m, place, rest))
    ensures IntegersApart(c.wide, Allocate(c, s, n, base, junk).1, n, Allocate(c, u, m, place, rest).1, m)
  {
    var p := Allocate(c, s, n, base, junk).1;
    RequestIsGranted(c, s, g, n, base, junk);
    GrantedIsHeld(c, g, h, p, n);
    HeldOverRun(c, t, h, ops, p, n);
    RequestIsGranted(c, u, k, m, place, rest);
    var (v, q) := Allocate(c, u, m, place, rest);
    NextIsApart(c, v, k, BookAllocate(c, u, k, m, place), p, n, q, m);
  }

  // ---- where a request is served ----

  /** A released block of the right size comes first, the one released last; then the rest of the current pool;
      only then a new pool, which becomes the current one. */
  lemma RequestIsPlaced(c: Build, s: State, g: Book, n: nat, base: nat, junk: nat -> nat)
    requires Inv(c, s, g) && n > 0
    ensures var (t, ptr) := Allocate(c, s, n, base, junk); var size := c.BlockSize(n);
            if size < |g.lists| && g.lists[size] != [] then
              ptr == g.lists[size][0] + c.Offset() && t.pools == s.pools && t.freePtr == s.freePtr
            else if size <= s.endFree - s.freePtr then
              ptr == s.freePtr + c.Offset() && t.pools == s.pools && t.freePtr == s.freePtr + size
            else
              ptr == base + c.Offset() && t.pools == [base] + s.pools && t.freePtr == base + size
  {
    var size := c.BlockSize(n);
    if size < |s.table| {
      assert Linked(s.mem, s.table[size], g.lists[size]);
    }
  }

  /** The block released last is the next one of its size to be handed out, unless it was merged back and an older
      one is waiting. */
  lemma ReleaseThenRequestIff(c: Build, s: State, g: Book, ptr: nat, n: nat, junk: nat -> nat, base: nat,
                              rest: nat -> nat)
    requires Inv(c, s, g) && n > 0 && Correct(c, s, g, OpDeallocate(ptr, n, junk))
    requires CleanGrowth(c, s, OpDeallocate(ptr, n, junk))
    ensures var t := Deallocate(c, s, ptr, n, junk); var size := c.BlockSize(n);
            && t.freePtr <= t.endFree
            && (Allocate(c, t, n, base, rest).1 == ptr
                <==> ptr - c.Offset() + size != s.freePtr || size >= |g.lists| || g.lists[size] == [])
  {
    DeallocateIsSafe(c, s, g, ptr, n, junk);
    var d: nat := ptr - c.Offset();
    if d + c.BlockSize(n) == s.freePtr {
      MergeBranch(c, s, g, ptr, n, d, junk);
      MergedThenRequest(c, s, g, d, n, base, rest);
    } else {
      PushBranch(c, s, g, ptr, n, d, junk);
      FiledThenRequest(c, s, g, d, n, junk, base, rest);
    }
  }

  lemma FiledThenRequest(c: Build, s: State, g: Book, d: nat, n: nat, junk: nat -> nat, base: nat, rest: nat -> nat)
    requires Inv(c, Push(s, c.BlockSize(n), d, junk), BookPush(g, c.BlockSize(n), d)) && n > 0
    ensures Allocate(c, Push(s, c.BlockSize(n), d, junk), n, base, rest).1 == d + c.Offset()
  {
    RequestIsPlaced(c, Push(s, c.BlockSize(n), d, junk), BookPush(g, c.BlockSize(n), d), n, base, rest);
  }

  lemma MergedThenRequest(c: Build, s: State, g: Book, d: nat, n: nat, base: nat, junk: nat -> nat)
    requires Inv(c, s, g) && Inv(c, s.(freePtr := d), BookMerge(g, d)) && n > 0
    requires d in g.live && d in g.owned && g.owned[d] == c.BlockSize(n) && d + c.BlockSize(n) == s.freePtr
    ensures var size := c.BlockSize(n);
            Allocate(c, s.(freePtr := d), n, base, junk).1 == d + c.Offset()
            <==> size >= |g.lists| || g.lists[size] == []
  {
    var size := c.BlockSize(n);
    RequestIsPlaced(c, s.(freePtr := d), BookMerge(g, d), n, base, junk);
    if size < |g.lists| && g.lists[size] != [] {
      assert g.lists[size][0] in g.lists[size];
    }
  }

  /** Releasing what has just been handed out: the client holds what it held. If the block came from the rest of
      the pool, everything but memory is as before; if it came from a free list too, unless it ends at the bump
      pointer. */
  lemma RequestThenRelease(c: Build, s: State, g: Book, n: nat, base: nat, junk: nat -> nat, rest: nat -> nat)
    requires Inv(c, s, g) && n > 0 && Correct(c, s, g, OpAllocate(n, base, junk))
    requires CleanGrowth(c, s, OpAllocate(n, base, junk))
    ensures var (t, ptr) := Allocate(c, s, n, base, junk);
            && Correct(c, t, BookAllocate(c, s, g, n, base), OpDeallocate(ptr, n, rest))
            && c.Offset() <= ptr && t.freePtr <= t.endFree
            && BookDeallocate(c, t, BookAllocate(c, s, g, n, base), ptr, n).live == g.live
  {
    RequestIsGranted(c, s, g, n, base, junk);
    var (t, ptr) := Allocate(c, s, n, base, junk);
    GrantThenRelease(c, t, g, BookAllocate(c, s, g, n, base), ptr, n, rest);
  }

  lemma GrantThenRelease(c: Build, t: State, g: Book, h: Book, ptr: nat, n: nat, rest: nat -> nat)
    requires Inv(c, t, h) && GrantedFor(c, g, h, ptr, n) && n > 0
    ensures Correct(c, t, h, OpDeallocate(ptr, n, rest)) && c.Offset() <= ptr && t.freePtr <= t.endFree
    ensures BookDeallocate(c, t, h, ptr, n).live == g.live
  {
    DeallocateReleases(c, t, h, ptr, n);
    assert forall b :: b in BookDeallocate(c, t, h, ptr, n).live <==> b in g.live;
  }

  /** Releasing a block that has just come from a free list and does not end at the bump pointer undoes the
      request: but for memory everything is as before. */
  lemma PoppedComesBack(c: Build, s: State, g: Book, n: nat, base: nat, junk: nat -> nat, rest: nat -> nat)
    requires Inv(c, s, g) && n > 0 && c.BlockSize(n) < |g.lists| && g.lists[c.BlockSize(n)] != []
    requires g.lists[c.BlockSize(n)][0] + c.BlockSize(n) != s.freePtr
    ensures var (t, ptr) := Allocate(c, s, n, base, junk);
            && c.Offset() <= ptr
            && Deallocate(c, t, ptr, n, rest) == s.(mem := Deallocate(c, t, ptr, n, rest).mem)
            && BookDeallocate(c, t, BookAllocate(c, s, g, n, base), ptr, n) == g
  {
    var size := c.BlockSize(n);
    assert Linked(s.mem, s.table[size], g.lists[size]);
    PushedBack(c, s, g, size, rest);
    PushBranch(c, Pop(c, s, size), BookPop(g, size), s.table[size] + c.Offset(), n, s.table[size], rest);
  }

  /** The same for a block from the rest of the pool, which is merged back. */
  lemma BumpedComesBack(c: Build, s: State, g: Book, n: nat, base: nat, junk: nat -> nat, rest: nat -> nat)
    requires Inv(c, s, g) && n > 0 && (c.BlockSize(n) < |g.lists| ==> g.lists[c.BlockSize(n)] == [])
    requires s.freePtr + c.BlockSize(n) <= s.endFree
    ensures var (t, ptr) := Allocate(c, s, n, base, junk);
            && c.Offset() <= ptr
            && Deallocate(c, t, ptr, n, rest) == s.(mem := t.mem)
            && BookDeallocate(c, t, BookAllocate(c, s, g, n, base), ptr, n) == g
  {
    var size := c.BlockSize(n);
    if size < |s.table| {
      assert Linked(s.mem, s.table[size], g.lists[size]);
    }
    MergedBack(c, s, g, size);
    MergeBranch(c, Bump(c, s, size), BookBump(g, s.freePtr, size), s.freePtr + c.Offset(), n, s.freePtr, rest);
  }

  lemma PushedBack(c: Build, s: State, g: Book, size: nat, junk: nat -> nat)
    requires Inv(c, s, g) && Get(s.table, size) != 0
    ensures var t := Pop(c, s, size); var d := s.table[size];
            && Push(t, size, d, junk) == s.(mem := Push(t, size, d, junk).mem)
            && BookPush(BookPop(g, size), size, d) == g
  {
    FromFreeList(c, s, g, size);
    HeadIsOwned(c, s, g, size);
    var l, d := g.lists[size], s.table[size];
    assert Linked(s.mem, s.table[size], l);
    assert [l[0]] + l[1..] == l;
    var h := BookPush(BookPop(g, size), size, d);
    assert h.lists == g.lists && h.owned == g.owned && h.live == g.live;
    assert s.table[size := Read(s.mem, d)][size := d] == s.table;
  }

  lemma MergedBack(c: Build, s: State, g: Book, size: nat)
    requires Inv(c, s, g) && 0 < size && s.freePtr + size <= s.endFree
    ensures BookMerge(BookBump(g, s.freePtr, size), s.freePtr) == g
  {
    FromBump(c, s, g, size);
    NotOwned(c, s, g);
    var h := BookMerge(BookBump(g, s.freePtr, size), s.freePtr);
    assert h.owned == g.owned && h.live == g.live;
  }

  /** The bump pointer of a pool that is not full is no block. */
  lemma NotOwned(c: Build, s: State, g: Book)
    requires Inv(c, s, g) && s.freePtr < s.endFree
    ensures s.freePtr !in g.owned && s.freePtr !in g.live
  {
  }

  // ---- retiring a pool, and reset ----

  /** What is left of a pool with `left` words: in a 64-bit build only half of it is filed, since the number of
      words is taken for one of integers; the other half is never used again. */
  lemma RetireFilesHalf(c: Build, s: State, g: Book)
    requires Inv(c, s, g) && s.freePtr < s.endFree
    ensures var left := s.endFree - s.freePtr; var h := BookRetire(c, s, g);
            && h.loss == g.loss + (if c.wide then left / 2 else 0)
            && s.freePtr in h.owned && h.owned[s.freePtr] == left - (if c.wide then left / 2 else 0)
  {
  }

  /** reset keeps the current pool, which is the one obtained last: the next request is served at its start. */
  lemma ResetKeepsNewest(c: Build, s: State, n: nat, base: nat, junk: nat -> nat)
    requires |s.pools| > 0 && n > 0 && c.BlockSize(n) <= CHUNK
    ensures var r := Reset(s);
            && r.pools == [s.pools[0]] && |r.table| == |s.table| && r.freePtr <= r.endFree
            && Allocate(c, r, n, base, junk).1 == s.pools[0] + c.Offset()
            && Allocate(c, r, n, base, junk).0.pools == [s.pools[0]]
  {
  }

  /** In particular if the last request before the reset has brought a new pool. */
  lemma NewPoolSurvivesReset(c: Build, s: State, g: Book, n: nat, base: nat, junk: nat -> nat, m: nat, place: nat)
    requires Inv(c, s, g) && n > 0 && m > 0 && c.BlockSize(m) <= CHUNK
    ensures var t := Allocate(c, s, n, base, junk).0;
            && |t.pools| > 0 && Reset(t).freePtr <= Reset(t).endFree
            && (t.pools != s.pools ==> Allocate(c, Reset(t), m, place, junk).1 == base + c.Offset())
  {
    RequestIsPlaced(c, s, g, n, base, junk);
    ResetKeepsNewest(c, Allocate(c, s, n, base, junk).0, m, place, junk);
  }
}
