/** Growing the table of free lists exposes heads that nobody has set (include/base/array_t.h): exactly when
    the chunk allocator is sound whatever these hold, for one operation and for whole runs. */
module PoolGrowth {
  import opened PoolModel
  import opened PoolProofs
  import opened PoolSteps
  import opened PoolRuns

  // ---- one operation ----

  /** The same call, meeting other contents of uninitialised memory. */
  function WithJunk(op: Op, junk: nat -> nat): Op {
    match op
    case OpAllocate(n, base, _) => OpAllocate(n, base, junk)
    case OpDeallocate(ptr, n, _) => OpDeallocate(ptr, n, junk)
    case _ => op
  }

  /** The pointers that the step follows are there. */
  predicate Applicable(c: Build, s: State, op: Op) {
    s.freePtr <= s.endFree && |s.pools| > 0 && (op.OpDeallocate? && op.n > 0 ==> c.Offset() <= op.ptr)
  }

  /** Some bookkeeping makes sense of the state after the step. */
  ghost predicate Sound(c: Build, s: State, op: Op)
    requires Applicable(c, s, op)
  {
    exists h :: Inv(c, Step(c, s, op), h)
  }

  /** Every free list that the operation files a block in has a head already. */
  predicate WithinTable(c: Build, s: State, op: Op)
    requires Applicable(c, s, op)
  {
    FiledIndex(c, s, op) < |s.table|
  }

  /** An address outside memory is not the head of any list. */
  lemma WildHead(mem: seq<nat>, table: seq<nat>, k: nat, l: seq<seq<nat>>)
    requires |mem| > 0 && k < |table| && table[k] == |mem|
    ensures !ThreadsOk(mem, table, l)
  {
    if |l| == |table| {
      assert !Linked(mem, |mem|, l[k]);
    }
  }

  /** The head behind the one that is filed in, if the table was grown for it. */
  lemma ExposedHead(c: Build, s: State, op: Op, junk: nat -> nat)
    requires Applicable(c, s, op) && !WithinTable(c, s, op)
    ensures var i := FiledIndex(c, s, op); var t := Step(c, s, WithJunk(op, junk));
            i >= 0 && |t.mem| == |s.mem| && i + 1 < |t.table| && t.table[i + 1] == junk(i + 1)
  {
  }

  lemma Unsound(c: Build, s: State, op: Op, junk: nat -> nat)
    requires Applicable(c, s, op) && !WithinTable(c, s, op) && |s.mem| > 0
    requires junk(FiledIndex(c, s, op) + 1) == |s.mem|
    ensures !Sound(c, s, WithJunk(op, junk))
  {
    ExposedHead(c, s, op, junk);
    var t := Step(c, s, WithJunk(op, junk));
    forall h: Book
      ensures !Inv(c, t, h)
    {
      WildHead(t.mem, t.table, FiledIndex(c, s, op) + 1, h.lists);
    }
  }

  /** Within the table, uninitialised memory is not looked at. */
  lemma JunkUnused(c: Build, s: State, op: Op, junk: nat -> nat)
    requires Applicable(c, s, op) && WithinTable(c, s, op)
    ensures Step(c, s, WithJunk(op, junk)) == Step(c, s, op)
  {
  }

  /** A correctly used operation, whether it releases a block or retires a pool, is sound for every content of
      uninitialised memory exactly when the list that it files a block in has a head already. */
  lemma FilingIsSoundIff(c: Build, s: State, g: Book, op: Op)
    requires Inv(c, s, g) && Correct(c, s, g, op)
    ensures Applicable(c, s, op)
    ensures (forall junk: nat -> nat :: Sound(c, s, WithJunk(op, junk))) <==> WithinTable(c, s, op)
  {
    if WithinTable(c, s, op) {
      StepIsSafe(c, s, g, op);
      forall junk: nat -> nat
        ensures Sound(c, s, WithJunk(op, junk))
      {
        JunkUnused(c, s, op, junk);
      }
    } else {
      var junk: nat -> nat := k => |s.mem|;
      Unsound(c, s, op, junk);
      assert !Sound(c, s, WithJunk(op, junk));
    }
  }

  // ---- runs ----

  /** The operations are used as documented, and no step files a block beyond the table. */
  ghost predicate NeverGrows(c: Build, s: State, g: Book, ops: seq<Op>)
    requires Inv(c, s, g) && ClientRun(c, s, g, ops)
    decreases |ops|
  {
    if ops == [] then true
    else
      WithinTable(c, s, ops[0]) &&
      (StepIsSafe(c, s, g, ops[0]);
       NeverGrows(c, Step(c, s, ops[0]), BookStep(c, s, g, ops[0]), ops[1..]))
  }

  /** The same calls, meeting any contents of uninitialised memory at each step. */
  ghost predicate Variant(ops: seq<Op>, os: seq<Op>)
    decreases |ops|
  {
    |ops| == |os| &&
    (ops == [] || ((exists junk: nat -> nat :: os[0] == WithJunk(ops[0], junk)) && Variant(ops[1..], os[1..])))
  }

  /** After every step some bookkeeping makes sense of the state. */
  ghost predicate SoundRun(c: Build, s: State, os: seq<Op>)
    decreases |os|
  {
    os == [] ||
    (Applicable(c, s, os[0]) && Sound(c, s, os[0]) && SoundRun(c, Step(c, s, os[0]), os[1..]))
  }

  lemma {:induction false} WithinIsSound(c: Build, s: State, g: Book, ops: seq<Op>, os: seq<Op>)
    requires Inv(c, s, g) && ClientRun(c, s, g, ops) && NeverGrows(c, s, g, ops) && Variant(ops, os)
    ensures SoundRun(c, s, os)
    decreases |ops|
  {
    if ops != [] {
      var junk: nat -> nat :| os[0] == WithJunk(ops[0], junk);
      StepIsSafe(c, s, g, ops[0]);
      JunkUnused(c, s, ops[0], junk);
      WithinIsSound(c, Step(c, s, ops[0]), BookStep(c, s, g, ops[0]), ops[1..], os[1..]);
    }
  }

  lemma AsItIs(op: Op)
    ensures exists junk: nat -> nat :: op == WithJunk(op, junk)
  {
    match op
    case OpAllocate(n, base, junk) => assert op == WithJunk(op, junk);
    case OpDeallocate(ptr, n, junk) => assert op == WithJunk(op, junk);
    case _ => assert op == WithJunk(op, k => 0);
  }

  lemma {:induction false} VariantSelf(ops: seq<Op>)
    ensures Variant(ops, ops)
    decreases |ops|
  {
    if ops != [] {
      AsItIs(ops[0]);
      VariantSelf(ops[1..]);
    }
  }

  lemma {:induction false} BeyondIsUnsound(c: Build, s: State, g: Book, ops: seq<Op>) returns (os: seq<Op>)
    requires Inv(c, s, g) && ClientRun(c, s, g, ops) && !NeverGrows(c, s, g, ops)
    ensures Variant(ops, os) && !SoundRun(c, s, os)
    decreases |ops|
  {
    if WithinTable(c, s, ops[0]) {
      StepIsSafe(c, s, g, ops[0]);
      var rest := BeyondIsUnsound(c, Step(c, s, ops[0]), BookStep(c, s, g, ops[0]), ops[1..]);
      AsItIs(ops[0]);
      os := [ops[0]] + rest;
      assert os[1..] == rest;
    } else {
      var junk: nat -> nat := k => |s.mem|;
      Unsound(c, s, ops[0], junk);
      VariantSelf(ops[1..]);
      os := [WithJunk(ops[0], junk)] + ops[1..];
      assert os[1..] == ops[1..];
    }
  }

  /** A run of correctly used operations is sound for all contents of uninitialised memory exactly when none of
      its steps files a block beyond the table. */
  lemma RunIsSoundIff(c: Build, s: State, g: Book, ops: seq<Op>)
    requires Inv(c, s, g) && ClientRun(c, s, g, ops)
    ensures (forall os :: Variant(ops, os) ==> SoundRun(c, s, os)) <==> NeverGrows(c, s, g, ops)
  {
    if NeverGrows(c, s, g, ops) {
      forall os | Variant(ops, os)
        ensures SoundRun(c, s, os)
      {
        WithinIsSound(c, s, g, ops, os);
      }
    } else {
      var os := BeyondIsUnsound(c, s, g, ops);
    }
  }

  /** A run whose first step stays within the table and leads to `t` and `h`. */
  lemma ConsRun(c: Build, s: State, g: Book, op: Op, rest: seq<Op>, t: State, h: Book)
    requires Inv(c, s, g) && Correct(c, s, g, op) && WithinTable(c, s, op)
    requires Step(c, s, op) == t && BookStep(c, s, g, op) == h && Inv(c, t, h) && ClientRun(c, t, h, rest)
    ensures ClientRun(c, s, g, [op] + rest)
    ensures NeverGrows(c, s, g, [op] + rest) <==> NeverGrows(c, t, h, rest)
  {
    assert ([op] + rest)[1..] == rest;
  }

  lemma LastOfRun(c: Build, s: State, g: Book, op: Op)
    requires Inv(c, s, g) && Correct(c, s, g, op)
    ensures ClientRun(c, s, g, [op]) && (NeverGrows(c, s, g, [op]) <==> WithinTable(c, s, op))
  {
    assert [op][1..] == [];
    if CleanGrowth(c, s, op) {
      StepIsSafe(c, s, g, op);
    }
  }

  lemma ThreeSteps(c: Build, s: State, g: Book, first: Op, s1: State, g1: Book, second: Op, s2: State, g2: Book,
                   third: Op)
    requires Inv(c, s, g) && Correct(c, s, g, first) && WithinTable(c, s, first)
    requires Step(c, s, first) == s1 && BookStep(c, s, g, first) == g1
    requires Inv(c, s1, g1) && Correct(c, s1, g1, second) && WithinTable(c, s1, second)
    requires Step(c, s1, second) == s2 && BookStep(c, s1, g1, second) == g2
    requires Inv(c, s2, g2) && Correct(c, s2, g2, third)
    ensures ClientRun(c, s, g, [first, second, third])
    ensures NeverGrows(c, s, g, [first, second, third]) <==> WithinTable(c, s2, third)
  {
    LastOfRun(c, s2, g2, third);
    ConsRun(c, s1, g1, second, [third], s2, g2);
    ConsRun(c, s, g, first, [second] + [third], s1, g1);
    assert [first, second, third] == [first] + ([second] + [third]);
  }

  // ---- runs that reach the failing step ----

  /** How a block of `w` words is asked for. */
  function RequestFor(c: Build, w: nat): (n: nat)
    requires w > c.Offset()
    ensures n > 0 && c.BlockSize(n) == w
  {
    if c.wide then 2 * (w - c.Offset()) else w - c.Offset()
  }

  const NO_JUNK: nat -> nat := k => 0

  lemma TakesBump(c: Build, s: State, g: Book, n: nat, place: nat)
    requires s.freePtr + c.BlockSize(n) <= s.endFree && |s.pools| > 0
    requires n > 0 && Get(s.table, c.BlockSize(n)) == 0
    ensures var op := OpAllocate(n, place, NO_JUNK);
            && FiledIndex(c, s, op) == -1
            && Step(c, s, op) == Bump(c, s, c.BlockSize(n))
            && BookStep(c, s, g, op) == BookBump(g, s.freePtr, c.BlockSize(n))
  {
  }

  /** A new allocator after a first request for `n` integers that fits. */
  lemma FirstRequest(c: Build, mem: seq<nat>, base: nat, n: nat, place: nat)
    requires Fresh(|mem|, [], base) && Fresh(|mem|, [base], place) && 0 < n && c.BlockSize(n) <= CHUNK
    ensures var s, g := Initial(mem, base), EmptyBook(TABLE_SIZE); var op := OpAllocate(n, place, NO_JUNK);
            && Inv(c, s, g) && Correct(c, s, g, op) && WithinTable(c, s, op)
            && Step(c, s, op) == Bump(c, s, c.BlockSize(n))
            && BookStep(c, s, g, op) == BookBump(g, base, c.BlockSize(n))
            && Inv(c, Bump(c, s, c.BlockSize(n)), BookBump(g, base, c.BlockSize(n)))
  {
    var s, g := Initial(mem, base), EmptyBook(TABLE_SIZE);
    EmptyIsOk(c, s);
    TakesBump(c, s, g, n, place);
    BumpKeepsInv(c, s, g, c.BlockSize(n));
  }

  /** A new allocator that serves a block of `w` words and one of a single integer. */
  function TwoBlocks(c: Build, mem: seq<nat>, base: nat, w: nat): State {
    Bump(c, Bump(c, Initial(mem, base), w), c.BlockSize(1))
  }

  function BookOfTwo(c: Build, base: nat, w: nat): Book {
    BookBump(BookBump(EmptyBook(TABLE_SIZE), base, w), base + w, c.BlockSize(1))
  }

  lemma SecondRequest(c: Build, mem: seq<nat>, base: nat, w: nat, place: nat)
    requires Fresh(|mem|, [], base) && Fresh(|mem|, [base], place) && 0 < w && w + 2 <= CHUNK
    requires var s, g := Initial(mem, base), EmptyBook(TABLE_SIZE); Inv(c, Bump(c, s, w), BookBump(g, base, w))
    ensures var s, g := Initial(mem, base), EmptyBook(TABLE_SIZE); var op := OpAllocate(1, place, NO_JUNK);
            && Correct(c, Bump(c, s, w), BookBump(g, base, w), op) && WithinTable(c, Bump(c, s, w), op)
            && Step(c, Bump(c, s, w), op) == TwoBlocks(c, mem, base, w)
            && BookStep(c, Bump(c, s, w), BookBump(g, base, w), op) == BookOfTwo(c, base, w)
            && Inv(c, TwoBlocks(c, mem, base, w), BookOfTwo(c, base, w))
  {
    var s, g := Bump(c, Initial(mem, base), w), BookBump(EmptyBook(TABLE_SIZE), base, w);
    TakesBump(c, s, g, 1, place);
    BumpKeepsInv(c, s, g, c.BlockSize(1));
  }

  function ReleaseRun(c: Build, base: nat, w: nat, place: nat): seq<Op>
    requires w > c.Offset()
  {
    [OpAllocate(RequestFor(c, w), place, NO_JUNK), OpAllocate(1, place, NO_JUNK),
     OpDeallocate(base + c.Offset(), RequestFor(c, w), NO_JUNK)]
  }

  lemma ReleasesFirst(c: Build, mem: seq<nat>, base: nat, w: nat)
    requires c.Offset() < w && Inv(c, TwoBlocks(c, mem, base, w), BookOfTwo(c, base, w))
    ensures var s, g := TwoBlocks(c, mem, base, w), BookOfTwo(c, base, w);
            var op := OpDeallocate(base + c.Offset(), RequestFor(c, w), NO_JUNK);
            && Correct(c, s, g, op) && FiledIndex(c, s, op) == w && |s.table| == TABLE_SIZE
            && base + w in g.live && base + w != base
  {
  }

  /** A client that gets a block of `w` words and a small one and releases the first: its use is correct, and
      the run stays within the table exactly if `w` is below 145. */
  lemma ReleaseRunIff(c: Build, mem: seq<nat>, base: nat, w: nat, place: nat)
    requires Fresh(|mem|, [], base) && Fresh(|mem|, [base], place) && c.Offset() < w && w + 2 <= CHUNK
    ensures var s, g, ops := Initial(mem, base), EmptyBook(TABLE_SIZE), ReleaseRun(c, base, w, place);
            Inv(c, s, g) && ClientRun(c, s, g, ops) && (NeverGrows(c, s, g, ops) <==> w < 145)
  {
    FirstRequest(c, mem, base, RequestFor(c, w), place);
    SecondRequest(c, mem, base, w, place);
    ReleasesFirst(c, mem, base, w);
    ThreeSteps(c, Initial(mem, base), EmptyBook(TABLE_SIZE), OpAllocate(RequestFor(c, w), place, NO_JUNK),
               Bump(c, Initial(mem, base), w), BookBump(EmptyBook(TABLE_SIZE), base, w), OpAllocate(1, place, NO_JUNK),
               TwoBlocks(c, mem, base, w), BookOfTwo(c, base, w),
               OpDeallocate(base + c.Offset(), RequestFor(c, w), NO_JUNK));
  }

  /** The rest of the pool is filed when a whole chunk is asked for. */
  function RetireRun(c: Build, place: nat): seq<Op> {
    [OpAllocate(1, place, NO_JUNK), OpAllocate(RequestFor(c, CHUNK), place, NO_JUNK)]
  }

  lemma RetiresFirst(c: Build, mem: seq<nat>, base: nat, place: nat)
    requires Fresh(|mem|, [base], place)
    ensures var w := c.BlockSize(1);
            var s, g := Bump(c, Initial(mem, base), w), BookBump(EmptyBook(TABLE_SIZE), base, w);
            var op := OpAllocate(RequestFor(c, CHUNK), place, NO_JUNK);
            Correct(c, s, g, op) && Applicable(c, s, op) && !WithinTable(c, s, op)
  {
  }

  /** A client that only allocates, a small block and then a whole chunk, reaches the failing step too. */
  lemma RetireRunGrows(c: Build, mem: seq<nat>, base: nat, place: nat)
    requires Fresh(|mem|, [], base) && Fresh(|mem|, [base], place)
    ensures var s, g, ops := Initial(mem, base), EmptyBook(TABLE_SIZE), RetireRun(c, place);
            Inv(c, s, g) && ClientRun(c, s, g, ops) && !NeverGrows(c, s, g, ops)
  {
    FirstRequest(c, mem, base, 1, place);
    RetiresFirst(c, mem, base, place);
    var s, g, w := Initial(mem, base), EmptyBook(TABLE_SIZE), c.BlockSize(1);
    var first, second := OpAllocate(1, place, NO_JUNK), OpAllocate(RequestFor(c, CHUNK), place, NO_JUNK);
    LastOfRun(c, Bump(c, s, w), BookBump(g, base, w), second);
    ConsRun(c, s, g, first, [second], Bump(c, s, w), BookBump(g, base, w));
    assert RetireRun(c, place) == [first] + [second];
  }

  // ---- what can follow ----

  /** With uninitialised memory that happens to hold the address of a live block, one deallocation and one
      allocation later the client is given that live block again. */
  lemma GrowthHandsOutLiveBlock(c: Build, s: State, g: Book, ptr: nat, n: nat, b: nat, base: nat)
    requires Inv(c, s, g) && n > 0 && Correct(c, s, g, OpDeallocate(ptr, n, NO_JUNK))
    requires ptr - c.Offset() + c.BlockSize(n) != s.freePtr && |s.table| <= c.BlockSize(n)
    requires b in g.live && b != ptr - c.Offset()
    ensures var t := Deallocate(c, s, ptr, n, k => b);
            && b in BookDeallocate(c, s, g, ptr, n).live
            && t.freePtr <= t.endFree
            && Allocate(c, t, RequestFor(c, c.BlockSize(n) + 1), base, NO_JUNK).1 == b + c.Offset()
  {
    OwnedInMemory(c, s, g, b);
  }

  lemma TwoBlocksSound(c: Build, mem: seq<nat>, base: nat, w: nat, place: nat)
    requires Fresh(|mem|, [], base) && Fresh(|mem|, [base], place) && c.Offset() < w && w + 2 <= CHUNK
    ensures Inv(c, TwoBlocks(c, mem, base, w), BookOfTwo(c, base, w))
  {
    FirstRequest(c, mem, base, RequestFor(c, w), place);
    SecondRequest(c, mem, base, w, place);
  }

  lemma TwoRequests(c: Build, mem: seq<nat>, base: nat, w: nat, place: nat)
    requires c.Offset() < w && w + 2 <= CHUNK && TABLE_SIZE <= w
    ensures Allocate(c, Initial(mem, base), RequestFor(c, w), place, NO_JUNK)
         == (Bump(c, Initial(mem, base), w), base + c.Offset())
    ensures Allocate(c, Bump(c, Initial(mem, base), w), 1, place, NO_JUNK)
         == (TwoBlocks(c, mem, base, w), base + w + c.Offset())
  {
  }

  lemma HandedOut(c: Build, s: State, g: Book, base: nat, w: nat, place: nat)
    requires c.Offset() < w && TABLE_SIZE <= w && Inv(c, s, g) && |s.table| == TABLE_SIZE && base + w != s.freePtr
    requires Correct(c, s, g, OpDeallocate(base + c.Offset(), RequestFor(c, w), NO_JUNK)) && base + w in g.live
    ensures var t := Deallocate(c, s, base + c.Offset(), RequestFor(c, w), k => base + w);
            && t.freePtr <= t.endFree
            && base + w in BookDeallocate(c, s, g, base + c.Offset(), RequestFor(c, w)).live
            && Allocate(c, t, RequestFor(c, w + 1), place, NO_JUNK).1 == base + w + c.Offset()
  {
    GrowthHandsOutLiveBlock(c, s, g, base + c.Offset(), RequestFor(c, w), base + w, place);
  }

  lemma HandedOutAgain(c: Build, mem: seq<nat>, base: nat, w: nat, place: nat)
    requires c.Offset() < w && TABLE_SIZE <= w && Inv(c, TwoBlocks(c, mem, base, w), BookOfTwo(c, base, w))
    ensures var s, n := TwoBlocks(c, mem, base, w), RequestFor(c, w);
            var t := Deallocate(c, s, base + c.Offset(), n, k => base + w);
            && t.freePtr <= t.endFree
            && base + w in BookDeallocate(c, s, BookOfTwo(c, base, w), base + c.Offset(), n).live
            && Allocate(c, t, RequestFor(c, w + 1), place, NO_JUNK).1 == base + w + c.Offset()
  {
    ReleasesFirst(c, mem, base, w);
    HandedOut(c, TwoBlocks(c, mem, base, w), BookOfTwo(c, base, w), base, w, place);
  }

  /** From a new allocator: two requests, one release, and a request for one word more is answered with the
      block that the client still holds. */
  lemma LiveBlockHandedOut(c: Build, mem: seq<nat>, base: nat, w: nat, place: nat)
    requires Fresh(|mem|, [], base) && Fresh(|mem|, [base], place) && TABLE_SIZE <= w && w + 2 <= CHUNK
    ensures Allocate(c, Initial(mem, base), RequestFor(c, w), place, NO_JUNK)
         == (Bump(c, Initial(mem, base), w), base + c.Offset())
    ensures Allocate(c, Bump(c, Initial(mem, base), w), 1, place, NO_JUNK)
         == (TwoBlocks(c, mem, base, w), base + w + c.Offset())
    ensures var s, n := TwoBlocks(c, mem, base, w), RequestFor(c, w);
            var t := Deallocate(c, s, base + c.Offset(), n, k => base + w);
            && t.freePtr <= t.endFree
            && base + w in BookDeallocate(c, s, BookOfTwo(c, base, w), base + c.Offset(), n).live
            && Allocate(c, t, RequestFor(c, w + 1), place, NO_JUNK).1 == base + w + c.Offset()
  {
    TwoRequests(c, mem, base, w, place);
    TwoBlocksSound(c, mem, base, w, place);
    HandedOutAgain(c, mem, base, w, place);
  }
}
