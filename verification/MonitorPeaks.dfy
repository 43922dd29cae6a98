/** The peaks of the allocation monitor against the history of the amounts that they are about
    (src/debug/new.cpp). */
module MonitorPeaks {
  import opened Splitting
  import opened Words
  import opened MonitorModel
  import opened MonitorProofs
  import opened MonitorRuns

  const LIMIT: nat := 0x8000_0000

  /** The bytes that are recorded as allocated. */
  function Allocated(m: Monitor): nat {
    WeightAll(m.chains, |m.chains|, Amount)
  }

  function TakenBy(y: Layout, size: nat, bytes: nat): nat {
    y.self + size * y.pointer + bytes
  }

  function RecordBytes(y: Layout, m: Monitor): nat {
    WeightAll(m.chains, |m.chains|, BytesOf(y))
  }

  /** The bytes that the monitor takes between two calls. */
  function Taken(y: Layout, m: Monitor): nat {
    TakenBy(y, |m.chains|, RecordBytes(y, m))
  }

  /** The bytes that the monitor takes inside a call that leads from `m` to `n`, while a rehash has both tables
      allocated; zero if there is no rehash. */
  function Raised(y: Layout, m: Monitor, n: Monitor): nat {
    if |n.chains| > |m.chains| then TakenBy(y, |m.chains| + |n.chains|, RecordBytes(y, n)) else 0
  }

  /** What a run leaves, and the largest amounts on the way: allocated bytes, and bytes taken by the monitor
      between calls and inside a rehash. */
  datatype History = History(end: Monitor, alloc: int, taken: int, raised: int)

  ghost function Run(y: Layout, m: Monitor, ops: seq<Op>): (r: History)
    requires Inv(y, m) && CleanRun(y, m, ops)
    ensures Inv(y, r.end)
    decreases |ops|
  {
    if ops == [] then History(m, Allocated(m), Taken(y, m), 0)
    else
      StepKeepsInvIff(y, m, ops[0]);
      var n := Step(y, m, ops[0]);
      var r := Run(y, n, ops[1..]);
      History(r.end, Max(Allocated(m), r.alloc), Max(Taken(y, m), r.taken), Max(Raised(y, m, n), r.raised))
  }

  // ---- amounts that fit ----

  lemma ExactTotal(y: Layout, m: Monitor)
    requires Inv(y, m)
    ensures m.total == Wrap(Allocated(m)) && (Allocated(m) < LIMIT ==> m.total == Allocated(m))
  {
    WrapExact(Allocated(m));
  }

  lemma ExactOverhead(y: Layout, m: Monitor)
    requires Inv(y, m)
    ensures m.overhead == Wrap(Taken(y, m)) && (Taken(y, m) < LIMIT ==> m.overhead == Taken(y, m))
  {
    WrapExact(Taken(y, m));
  }

  lemma TakenMore(y: Layout, size: nat, more: nat, bytes: nat)
    requires size <= more
    ensures TakenBy(y, size, bytes) <= TakenBy(y, more, bytes)
    ensures size < more && y.pointer > 0 ==> TakenBy(y, size, bytes) < TakenBy(y, more, bytes)
  {
    assert more * y.pointer == size * y.pointer + (more - size) * y.pointer;
    if size < more && y.pointer > 0 {
      SmallMultiple(more - size, y.pointer);
    }
  }

  lemma RehashTaken(y: Layout, e: Monitor)
    ensures var n := Rehash(y, e);
            && Allocated(n) == Allocated(e) && RecordBytes(y, n) == RecordBytes(y, e) && |n.chains| == 2 * |e.chains|
            && Taken(y, e) <= Taken(y, n)
  {
    RehashTotals(y, e);
    RehashedWeight(e.chains, BytesOf(y));
    TakenMore(y, |e.chains|, 2 * |e.chains|, RecordBytes(y, e));
  }

  /** What the counter holds, in 32 bits, while both tables of a rehash from `e` to `n` are allocated. */
  lemma RaisedCounter(y: Layout, e: Monitor, n: Monitor, s: nat)
    requires Inv(y, e) && n == Rehash(y, e) && s == |e.chains|
    ensures Wrap(e.overhead + 2 * s * y.pointer) == Wrap(Raised(y, e, n))
  {
    RehashTaken(y, e);
    RaisedFrom(y, e, n, s);
  }

  lemma RaisedFrom(y: Layout, e: Monitor, n: Monitor, s: nat)
    requires Inv(y, e) && |n.chains| == 2 * s && s == |e.chains| && RecordBytes(y, n) == RecordBytes(y, e)
    ensures Wrap(e.overhead + 2 * s * y.pointer) == Wrap(Raised(y, e, n))
  {
    RaisedBy(y, e, n, s, RecordBytes(y, e));
    RaisedSum(y, e.overhead, Raised(y, e, n), s, RecordBytes(y, e));
  }

  lemma RaisedSum(y: Layout, overhead: int, raised: nat, s: nat, bytes: nat)
    requires overhead == OverheadOf(y, s, bytes) && raised == TakenBy(y, s + 2 * s, bytes)
    ensures Wrap(overhead + 2 * s * y.pointer) == Wrap(raised)
  {
    ThreeTables(y, s, bytes);
  }

  lemma RaisedBy(y: Layout, e: Monitor, n: Monitor, s: nat, bytes: nat)
    requires Inv(y, e) && |n.chains| == 2 * s && |e.chains| == s
    requires RecordBytes(y, n) == RecordBytes(y, e) == bytes
    ensures Raised(y, e, n) == TakenBy(y, s + 2 * s, bytes) && e.overhead == OverheadOf(y, s, bytes)
  {
  }

  lemma ThreeTables(y: Layout, s: nat, bytes: nat)
    ensures Wrap(OverheadOf(y, s, bytes) + 2 * s * y.pointer) == Wrap(TakenBy(y, s + 2 * s, bytes))
  {
    var a := s * y.pointer;
    assert 2 * s * y.pointer == 2 * a && (s + 2 * s) * y.pointer == 3 * a;
    WrapAdd(y.self + a + bytes, 2 * a);
  }

  // ---- one call ----

  lemma EnterOrRehash(y: Layout, m: Monitor, r: Record, size: nat, memory: bool)
    requires |m.chains| > 0
    ensures var e, n := Enter(y, m, r, size, false), Enter(y, m, r, size, memory);
            && |e.chains| == |m.chains| && (n == e || n == Rehash(y, e))
            && e.total == (if size != NOSIZE then Wrap(m.total + size) else m.total)
            && e.peak == (if size != NOSIZE then Max(m.peak, e.total) else m.peak)
            && e.maxOverhead == Max(m.maxOverhead, e.overhead)
  {
  }

  lemma RehashFields(y: Layout, e: Monitor)
    ensures var n := Rehash(y, e);
            n.total == e.total && n.peak == e.peak && n.maxOverhead == Max(e.maxOverhead, n.overhead)
  {
  }

  lemma EnterPeak(y: Layout, m: Monitor, r: Record, size: nat, memory: bool)
    requires Inv(y, m) && Inv(y, Enter(y, m, r, size, memory)) && m.total <= m.peak
    ensures var n := Enter(y, m, r, size, memory); n.peak == Max(m.peak, n.total)
  {
    EnterOrRehash(y, m, r, size, memory);
    RehashFields(y, Enter(y, m, r, size, false));
  }

  lemma RehashMax(y: Layout, m: Monitor, e: Monitor)
    requires Inv(y, e) && e.maxOverhead == Max(m.maxOverhead, e.overhead)
    ensures var n := Rehash(y, e); Taken(y, n) < LIMIT ==> n.maxOverhead == Max(m.maxOverhead, n.overhead)
  {
    RehashKeepsInv(y, e);
    RehashFields(y, e);
    RehashTaken(y, e);
    ExactOverhead(y, e);
    ExactOverhead(y, Rehash(y, e));
  }

  lemma EnterMax(y: Layout, m: Monitor, r: Record, size: nat, memory: bool)
    requires Inv(y, m) && Inv(y, Enter(y, m, r, size, false))
    ensures var n := Enter(y, m, r, size, memory);
            Taken(y, n) < LIMIT ==> n.maxOverhead == Max(m.maxOverhead, n.overhead)
  {
    EnterOrRehash(y, m, r, size, memory);
    RehashMax(y, m, Enter(y, m, r, size, false));
  }

  lemma ForgetTakes(y: Layout, m: Monitor, ptr: nat, nosize: bool)
    requires Inv(y, m)
    ensures var l := m.chains[Index(ptr, |m.chains|)]; Find(l, ptr, nosize) < |l| ==> m.nb > 0
    ensures var n := Forget(y, m, ptr, nosize);
            && Allocated(n) <= Allocated(m) && Taken(y, n) <= Taken(y, m) && |n.chains| == |m.chains|
            && n.peak == m.peak && n.maxOverhead == m.maxOverhead
  {
    FoundIsCounted(y, m, ptr, nosize);
    var i := Index(ptr, |m.chains|);
    var k := Find(m.chains[i], ptr, nosize);
    if ptr != 0 && k < |m.chains[i]| {
      ForgetWeight(m.chains, i, k, Amount);
      ForgetWeight(m.chains, i, k, BytesOf(y));
    }
  }

  /** A call that does not take the allocated bytes beyond the limit moves the peak to the new amount if that is
      larger. */
  lemma StepPeak(y: Layout, m: Monitor, op: Op)
    requires Inv(y, m) && op.Valid() && Clean(m, op) && Allocated(m) < LIMIT && m.total <= m.peak
    ensures op.OpForget? ==>
              var l := m.chains[Index(op.ptr, |m.chains|)]; Find(l, op.ptr, op.nosize) < |l| ==> m.nb > 0
    ensures var n := Step(y, m, op);
            Inv(y, n) && (Allocated(n) < LIMIT ==> n.peak == Max(m.peak, Allocated(n)))
  {
    StepKeepsInvIff(y, m, op);
    ExactTotal(y, m);
    ExactTotal(y, Step(y, m, op));
    match op
    case OpRemember(ptr, size, memory) =>
      if !Registered(m.chains[Index(ptr, |m.chains|)], ptr) {
        EnterPeak(y, m, Mem(ptr, size), size, memory);
      }
    case OpRememberAt(ptr, size, pos, memory) =>
      if size == NOSIZE || !Registered(m.chains[Index(ptr, |m.chains|)], ptr) {
        EnterPeak(y, m, ExtMem(ptr, Or(size, EXTENSION_BIT), pos), size, memory);
      }
    case OpForget(ptr, nosize) => ForgetTakes(y, m, ptr, nosize);
  }

  /** The same for the bytes that the monitor takes between calls. */
  lemma StepMax(y: Layout, m: Monitor, op: Op)
    requires Inv(y, m) && op.Valid() && Clean(m, op) && Taken(y, m) < LIMIT && m.overhead <= m.maxOverhead
    ensures op.OpForget? ==>
              var l := m.chains[Index(op.ptr, |m.chains|)]; Find(l, op.ptr, op.nosize) < |l| ==> m.nb > 0
    ensures var n := Step(y, m, op);
            Inv(y, n) && (Taken(y, n) < LIMIT ==> n.maxOverhead == Max(m.maxOverhead, Taken(y, n)))
  {
    StepKeepsInvIff(y, m, op);
    ExactOverhead(y, m);
    ExactOverhead(y, Step(y, m, op));
    match op
    case OpRemember(ptr, size, memory) =>
      if !Registered(m.chains[Index(ptr, |m.chains|)], ptr) {
        RememberKeepsInvIff(y, m, ptr, size, false);
        EnterMax(y, m, Mem(ptr, size), size, memory);
      }
    case OpRememberAt(ptr, size, pos, memory) =>
      if size == NOSIZE || !Registered(m.chains[Index(ptr, |m.chains|)], ptr) {
        RememberAtKeepsInvIff(y, m, ptr, size, pos, false);
        EnterMax(y, m, ExtMem(ptr, Or(size, EXTENSION_BIT), pos), size, memory);
      }
    case OpForget(ptr, nosize) => ForgetTakes(y, m, ptr, nosize);
  }

  // ---- runs ----

  lemma {:induction false} RunAtLeastStart(y: Layout, m: Monitor, ops: seq<Op>)
    requires Inv(y, m) && CleanRun(y, m, ops)
    ensures var r := Run(y, m, ops); r.alloc >= Allocated(m) && r.taken >= Taken(y, m) && r.raised >= 0
  {
  }

  lemma {:induction false} PeakKept(y: Layout, m: Monitor, ops: seq<Op>)
    requires Inv(y, m) && CleanRun(y, m, ops) && Allocated(m) <= m.peak
    ensures var r := Run(y, m, ops); r.alloc < LIMIT ==> r.end.peak == Max(m.peak, r.alloc)
    decreases |ops|
  {
    if ops != [] {
      StepKeepsInvIff(y, m, ops[0]);
      var n := Step(y, m, ops[0]);
      RunAtLeastStart(y, n, ops[1..]);
      if Run(y, m, ops).alloc < LIMIT {
        ExactTotal(y, m);
        StepPeak(y, m, ops[0]);
        PeakKept(y, n, ops[1..]);
      }
    }
  }

  lemma {:induction false} MaxKept(y: Layout, m: Monitor, ops: seq<Op>)
    requires Inv(y, m) && CleanRun(y, m, ops) && Taken(y, m) <= m.maxOverhead
    ensures var r := Run(y, m, ops); r.taken < LIMIT ==> r.end.maxOverhead == Max(m.maxOverhead, r.taken)
    decreases |ops|
  {
    if ops != [] {
      StepKeepsInvIff(y, m, ops[0]);
      var n := Step(y, m, ops[0]);
      RunAtLeastStart(y, n, ops[1..]);
      if Run(y, m, ops).taken < LIMIT {
        ExactOverhead(y, m);
        StepMax(y, m, ops[0]);
        MaxKept(y, n, ops[1..]);
      }
    }
  }

  /** The peaks are 32-bit signed integers. */
  predicate SmallPeaks(m: Monitor) {
    m.peak < LIMIT && m.maxOverhead < LIMIT
  }

  lemma WrapIsSmall(x: int)
    ensures Wrap(x) < LIMIT
  {
  }

  lemma StepSmallPeaks(y: Layout, m: Monitor, op: Op)
    requires Inv(y, m) && op.Valid() && SmallPeaks(m)
    ensures op.OpForget? ==>
              var l := m.chains[Index(op.ptr, |m.chains|)]; Find(l, op.ptr, op.nosize) < |l| ==> m.nb > 0
    ensures SmallPeaks(Step(y, m, op))
  {
    StepKeepsInvIff(y, m, op);
  }

  lemma {:induction false} RunSmallPeaks(y: Layout, m: Monitor, ops: seq<Op>)
    requires Inv(y, m) && CleanRun(y, m, ops) && SmallPeaks(m)
    ensures SmallPeaks(Run(y, m, ops).end)
    decreases |ops|
  {
    if ops != [] {
      StepKeepsInvIff(y, m, ops[0]);
      StepSmallPeaks(y, m, ops[0]);
      RunSmallPeaks(y, Step(y, m, ops[0]), ops[1..]);
    }
  }

  lemma NewPeaks(y: Layout)
    ensures Inv(y, New(y)) && SmallPeaks(New(y)) && New(y).peak == 0 == Allocated(New(y))
    ensures New(y).maxOverhead == New(y).overhead
  {
    NewIsOk(y);
    WrapIsSmall(INIT_SIZE * y.pointer + y.self);
  }

  /** The counters after a run against the records, and the peaks against the history. */
  ghost predicate Accounted(y: Layout, m: Monitor, ops: seq<Op>)
    requires Inv(y, m) && CleanRun(y, m, ops)
  {
    var r := Run(y, m, ops);
    && r.end.total == Wrap(Allocated(r.end)) && r.end.overhead == Wrap(Taken(y, r.end))
    && (r.end.peak == r.alloc <==> r.alloc < LIMIT)
    && (r.end.maxOverhead == r.taken <==> r.taken < LIMIT)
    && (r.end.maxOverhead == Max(r.taken, r.raised) <==> r.taken < LIMIT && r.raised <= r.taken)
  }

  lemma RunIsAccounted(y: Layout, m: Monitor, ops: seq<Op>)
    requires Inv(y, m) && CleanRun(y, m, ops) && SmallPeaks(m)
    requires m.peak == Allocated(m) && m.maxOverhead == m.overhead
    ensures Accounted(y, m, ops)
  {
    var r := Run(y, m, ops);
    ExactTotal(y, r.end);
    ExactOverhead(y, r.end);
    ExactOverhead(y, m);
    RunAtLeastStart(y, m, ops);
    RunSmallPeaks(y, m, ops);
    PeakKept(y, m, ops);
    if r.taken < LIMIT {
      MaxKept(y, m, ops);
    }
  }

  /** Over every run of a new monitor that records storable sizes: `totalAlloc` and `overhead` are, in 32 bits,
      the sum of the sized records and what monitor, table and records take. `peakAlloc` is the largest amount
      ever allocated exactly if that fits a 32-bit integer. `maxOverhead` is the largest amount that the monitor
      has taken between two calls, under the same condition; it is the largest amount that it has ever taken
      exactly if, besides, no rehash took more while both tables were allocated. */
  lemma EveryRunPeaks(y: Layout, ops: seq<Op>)
    ensures Inv(y, New(y))
    ensures CleanRun(y, New(y), ops) ==> Accounted(y, New(y), ops)
  {
    NewPeaks(y);
    if CleanRun(y, New(y), ops) {
      RunIsAccounted(y, New(y), ops);
    }
  }

  // ---- the first rehash ----

  /** A call that rehashes, of a monitor whose history has not seen more, sets a maximum that `maxOverhead`
      misses. */
  lemma RehashRaises(y: Layout, m: Monitor, n: Monitor)
    requires y.pointer > 0 && |n.chains| == 2 * |m.chains| && |m.chains| > 0 && RecordBytes(y, m) <= RecordBytes(y, n)
    ensures Raised(y, m, n) > Taken(y, n) >= Taken(y, m)
  {
    TakenMore(y, |n.chains|, |m.chains| + |n.chains|, RecordBytes(y, n));
    TakenMore(y, |m.chains|, |n.chains|, RecordBytes(y, n));
  }

  /** Blocks of the same size at 4, 8, 12 and so on: those from number `k` on, up to number 511. */
  function Blocks(k: nat, size: nat): seq<Op>
    requires k < 512
    decreases 512 - k
  {
    [OpRemember(4 * (k + 1), size, true)] + if k == 511 then [] else Blocks(k + 1, size)
  }

  /** All records are of the first `k` blocks. */
  ghost predicate UpTo(m: Monitor, k: nat) {
    && |m.chains| == INIT_SIZE && m.nb == k
    && forall i, r :: 0 <= i < INIT_SIZE && r in m.chains[i] ==> r.ptr <= 4 * k
  }

  lemma NextBlock(y: Layout, m: Monitor, k: nat, size: nat)
    requires Inv(y, m) && UpTo(m, k) && k < 512 && Storable(size) && size != NOSIZE
    ensures var op := OpRemember(4 * (k + 1), size, true); var n := Step(y, m, op);
            && op.Valid() && Clean(m, op) && Inv(y, n) && RecordBytes(y, m) <= RecordBytes(y, n)
            && (k < 511 ==> UpTo(n, k + 1))
            && (k == 511 ==> |n.chains| == 2 * INIT_SIZE)
  {
    var op := OpRemember(4 * (k + 1), size, true);
    var i := Index(4 * (k + 1), INIT_SIZE);
    assert !Registered(m.chains[i], 4 * (k + 1));
    StepKeepsInvIff(y, m, op);
    EnterWeight(y, m, Mem(4 * (k + 1), size), size, true, BytesOf(y));
  }

  lemma {:induction false} BlocksRaise(y: Layout, m: Monitor, k: nat, size: nat)
    requires Inv(y, m) && UpTo(m, k) && k < 512 && Storable(size) && size != NOSIZE && y.pointer > 0
    ensures CleanRun(y, m, Blocks(k, size))
    ensures Run(y, m, Blocks(k, size)).raised > Run(y, m, Blocks(k, size)).taken
    decreases 512 - k
  {
    var ops := Blocks(k, size);
    NextBlock(y, m, k, size);
    var n := Step(y, m, ops[0]);
    if k == 511 {
      assert ops[1..] == [];
      RehashRaises(y, m, n);
    } else {
      assert ops[1..] == Blocks(k + 1, size);
      BlocksRaise(y, n, k + 1, size);
      RunAtLeastStart(y, n, ops[1..]);
      TakenSame(y, |m.chains|, RecordBytes(y, m), RecordBytes(y, n));
    }
  }

  lemma TakenSame(y: Layout, size: nat, bytes: nat, more: nat)
    requires bytes <= more
    ensures TakenBy(y, size, bytes) <= TakenBy(y, size, more)
  {
  }

  /** 512 live blocks in a new monitor bring about its first rehash: the two tables together take more than
      `maxOverhead` will say. */
  lemma FirstRehashIsMissed(y: Layout, size: nat)
    requires y.pointer > 0 && Storable(size) && size != NOSIZE
    ensures Inv(y, New(y)) && CleanRun(y, New(y), Blocks(0, size))
    ensures var r := Run(y, New(y), Blocks(0, size)); r.end.maxOverhead < r.raised && r.raised > r.taken
  {
    NewPeaks(y);
    BlocksRaise(y, New(y), 0, size);
    EveryRunPeaks(y, Blocks(0, size));
    var r := Run(y, New(y), Blocks(0, size));
    RunSmallPeaks(y, New(y), Blocks(0, size));
  }

  // ---- two large blocks ----

  const LARGE: nat := 0x6000_0000

  lemma LargeIsStorable(size: nat)
    requires size == LARGE
    ensures Storable(size)
  {
    SizeParts(size);
    DivModUnique(size, EXTENSION_BIT, 0, size);
    DivModUnique(size, WORD, 0, size);
  }

  lemma BlockStep(y: Layout, m: Monitor, ptr: nat, size: nat)
    requires |m.chains| > 0 && !Registered(m.chains[Index(ptr, |m.chains|)], ptr) && size != NOSIZE
    ensures var i := Index(ptr, |m.chains|); var n := Step(y, m, OpRemember(ptr, size, false));
            && n.chains == m.chains[i := [Mem(ptr, size)] + m.chains[i]]
            && n.total == Wrap(m.total + size) && n.peak == Max(m.peak, n.total)
  {
  }

  /** A block recorded for a new pointer. */
  lemma BlockRecorded(y: Layout, m: Monitor, ptr: nat, size: nat) returns (n: Monitor)
    requires Inv(y, m) && !Registered(m.chains[Index(ptr, |m.chains|)], ptr)
    requires size < NOSIZE && Storable(size)
    ensures n == Step(y, m, OpRemember(ptr, size, false)) && Clean(m, OpRemember(ptr, size, false)) && Inv(y, n)
    ensures Allocated(n) == Allocated(m) + size && n.total == Wrap(m.total + size) && n.peak == Max(m.peak, n.total)
    ensures var i := Index(ptr, |m.chains|); n.chains == m.chains[i := [Mem(ptr, size)] + m.chains[i]]
  {
    n := Step(y, m, OpRemember(ptr, size, false));
    BlockStep(y, m, ptr, size);
    RememberKeepsInvIff(y, m, ptr, size, false);
    EnterWeight(y, m, Mem(ptr, size), size, false, Amount);
    AmountKeptIff(Mem(ptr, size), size);
    DivModUnique(size, EXTENSION_BIT, 0, size);
  }

  lemma LastOfRun(y: Layout, m: Monitor, op: Op)
    requires Inv(y, m) && op.Valid() && op.OpRemember? && Clean(m, op)
    ensures CleanRun(y, m, [op]) && Run(y, m, [op]).end == Step(y, m, op)
    ensures Run(y, m, [op]).alloc == Max(Allocated(m), Allocated(Step(y, m, op)))
  {
    StepKeepsInvIff(y, m, op);
    assert [op][1..] == [];
  }

  lemma ConsRun(y: Layout, m: Monitor, op: Op, rest: seq<Op>)
    requires Inv(y, m) && op.Valid() && op.OpRemember? && Clean(m, op)
    ensures Inv(y, Step(y, m, op))
    ensures var n := Step(y, m, op);
            CleanRun(y, n, rest) ==>
              && CleanRun(y, m, [op] + rest) && Run(y, m, [op] + rest).end == Run(y, n, rest).end
              && Run(y, m, [op] + rest).alloc == Max(Allocated(m), Run(y, n, rest).alloc)
  {
    StepKeepsInvIff(y, m, op);
    assert ([op] + rest)[1..] == rest;
  }

  lemma TwoSteps(y: Layout, m: Monitor, a: Op, b: Op)
    requires Inv(y, m) && a.Valid() && a.OpRemember? && Clean(m, a) && b.Valid() && b.OpRemember?
    ensures Inv(y, Step(y, m, a))
    ensures var m1 := Step(y, m, a); var m2 := Step(y, m1, b);
            Clean(m1, b) ==>
              && CleanRun(y, m, [a, b]) && Run(y, m, [a, b]).end == m2
              && Run(y, m, [a, b]).alloc == Max(Allocated(m), Max(Allocated(m1), Allocated(m2)))
  {
    ConsRun(y, m, a, [b]);
    if Clean(Step(y, m, a), b) {
      LastOfRun(y, Step(y, m, a), b);
    }
    assert [a, b] == [a] + [b];
  }

  lemma DoubleWraps(size: nat)
    requires size == LARGE
    ensures Wrap(0 + size) == size && Wrap(size + size) == 2 * size - WORD < 0
  {
  }

  lemma TwoBlocks(y: Layout, m: Monitor, p: nat, q: nat, size: nat)
    requires Inv(y, m) && m.total == 0 == m.peak == Allocated(m)
    requires size == LARGE
    requires var i, j := Index(p, |m.chains|), Index(q, |m.chains|);
             i != j && !Registered(m.chains[i], p) && !Registered(m.chains[j], q)
    ensures var ops := [OpRemember(p, size, false), OpRemember(q, size, false)];
            && CleanRun(y, m, ops)
            && Run(y, m, ops).end.peak == size && Run(y, m, ops).alloc == 2 * size
  {
    DoubleWraps(size);
    LargeIsStorable(size);
    var m1 := BlockRecorded(y, m, p, size);
    assert m1.peak == size == m1.total;
    var m2 := BlockRecorded(y, m1, q, size);
    assert m2.peak == size;
    TwoSteps(y, m, OpRemember(p, size, false), OpRemember(q, size, false));
  }

  lemma SmallIndex(p: nat, size: nat)
    requires p / 4 < size
    ensures Index(p, size) == p / 4
  {
    DivModUnique(p / 4, size, 0, p / 4);
  }

  lemma NothingRegistered(y: Layout, p: nat)
    ensures |New(y).chains| == INIT_SIZE && Index(p, INIT_SIZE) < INIT_SIZE
    ensures !Registered(New(y).chains[Index(p, INIT_SIZE)], p)
  {
  }

  /** Two live blocks of 0x60000000 bytes, at 4 and 8: the peak says that there was never more than one. */
  lemma TwoLargeBlocks(y: Layout, p: nat, q: nat, size: nat)
    requires p == 4 && q == 8 && size == LARGE
    ensures var ops := [OpRemember(p, size, false), OpRemember(q, size, false)];
            && Inv(y, New(y)) && CleanRun(y, New(y), ops)
            && Run(y, New(y), ops).end.peak == size && Run(y, New(y), ops).alloc == 2 * size
  {
    NewPeaks(y);
    NothingRegistered(y, p);
    NothingRegistered(y, q);
    SmallIndex(p, INIT_SIZE);
    SmallIndex(q, INIT_SIZE);
    TwoBlocks(y, New(y), p, q, size);
  }
}
