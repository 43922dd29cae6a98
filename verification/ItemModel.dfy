/** The allocator of single items as values: pools of cells threaded into one free list
    (include/base/ItemAllocator.h). */
module ItemModel {
  import opened Lists

  /** A cell is the `i`-th of the pool that the system placed at `pool`. */
  datatype Item = Null | Cell(pool: nat, i: nat)

  /** A cell is a union: it holds the next free cell, or whatever the client stores. */
  datatype Content = Next(item: Item) | Data(v: int)

  datatype State = State(mem: map<Item, Content>, pools: seq<nat>, free: Item)

  function NextOf(mem: map<Item, Content>, x: Item): Item {
    if x in mem && mem[x].Next? then mem[x].item else Null
  }

  // ---- the operations ----

  /** The first `k` cells of a pool, each linked to its successor. */
  function Threaded(mem: map<Item, Content>, p: nat, k: nat): map<Item, Content> {
    if k == 0 then mem else Threaded(mem, p, k - 1)[Cell(p, k - 1) := Next(Cell(p, k))]
  }

  /** addPool: `n` cells, placed at `p`. */
  function AddPool(s: State, p: nat, n: nat): State
    requires n > 1
  {
    State(Threaded(s.mem, p, n - 1)[Cell(p, n - 1) := Next(Null)], [p] + s.pools, Cell(p, 0))
  }

  function Allocate(s: State, p: nat, n: nat): (State, Item)
    requires n > 1
  {
    var t := if s.free.Null? then AddPool(s, p, n) else s;
    (t.(free := NextOf(t.mem, t.free)), t.free)
  }

  function Deallocate(s: State, x: Item): State {
    s.(mem := s.mem[x := Next(s.free)], free := x)
  }

  function Reset(s: State): State {
    s.(pools := [], free := Null)
  }

  function Initial(mem: map<Item, Content>): State {
    State(mem, [], Null)
  }

  // ---- the invariant ----

  /** `l` is the null-terminated list of cells that starts at `x`. */
  ghost predicate Listed(mem: map<Item, Content>, x: Item, l: seq<Item>)
    decreases |l|
  {
    if l == [] then x == Null
    else x == l[0] && x != Null && x in mem && mem[x].Next? && Listed(mem, mem[x].item, l[1..])
  }

  predicate InPool(x: Item, pools: seq<nat>, n: nat) {
    x.Cell? && x.pool in pools && x.i < n
  }

  /** The free list `l` has no cycle, and every cell of every pool is either in it or live, never both. */
  ghost predicate Inv(s: State, n: nat, l: seq<Item>, live: set<Item>) {
    && Listed(s.mem, s.free, l) && NoRepeat(l) && NoRepeat(s.pools)
    && (forall x :: x in l || x in live <==> InPool(x, s.pools, n))
    && (forall x :: x in l ==> x !in live)
  }

  // ---- threading a new pool ----

  lemma {:induction false} ThreadedAt(mem: map<Item, Content>, p: nat, k: nat, x: Item)
    ensures x in Threaded(mem, p, k) <==> x in mem || (x.Cell? && x.pool == p && x.i < k)
    ensures x in Threaded(mem, p, k) ==>
              Threaded(mem, p, k)[x] == (if x.Cell? && x.pool == p && x.i < k then Next(Cell(p, x.i + 1)) else mem[x])
  {
    if k > 0 {
      ThreadedAt(mem, p, k - 1, x);
    }
  }

  /** The cells of a pool from number `k` on, in order. */
  function CellsFrom(p: nat, k: nat, n: nat): (r: seq<Item>)
    requires k <= n
    ensures |r| == n - k && forall j :: 0 <= j < |r| ==> r[j] == Cell(p, k + j)
  {
    seq(n - k, (j: nat) => Cell(p, k + j))
  }

  lemma {:induction false} NewPoolListed(mem: map<Item, Content>, p: nat, n: nat, k: nat)
    requires k < n
    ensures Listed(Threaded(mem, p, n - 1)[Cell(p, n - 1) := Next(Null)], Cell(p, k), CellsFrom(p, k, n))
    decreases n - k
  {
    var l := CellsFrom(p, k, n);
    if k < n - 1 {
      ThreadedAt(mem, p, n - 1, Cell(p, k));
      assert l[1..] == CellsFrom(p, k + 1, n);
      NewPoolListed(mem, p, n, k + 1);
    } else {
      assert l[1..] == [];
    }
  }

  lemma AddPoolKeepsInv(s: State, n: nat, live: set<Item>, p: nat)
    requires n > 1 && Inv(s, n, [], live) && p !in s.pools
    ensures Inv(AddPool(s, p, n), n, CellsFrom(p, 0, n), live)
  {
    NewPoolListed(s.mem, p, n, 0);
    var l, t := CellsFrom(p, 0, n), AddPool(s, p, n);
    forall x
      ensures x in l <==> x.Cell? && x.pool == p && x.i < n
    {
      if x.Cell? && x.pool == p && x.i < n {
        assert l[x.i] == x;
      }
    }
    assert forall q :: q in t.pools <==> q == p || q in s.pools;
  }

  /** A list depends only on its own cells. */
  lemma {:induction false} ListedFrame(mem: map<Item, Content>, m: map<Item, Content>, x: Item, l: seq<Item>)
    requires Listed(mem, x, l) && forall y :: y in l && y in mem ==> y in m && m[y] == mem[y]
    ensures Listed(m, x, l)
    decreases |l|
  {
    if l != [] {
      ListedFrame(mem, m, mem[x].item, l[1..]);
    }
  }

  // ---- the operations keep the partition ----

  lemma TakeFirst(s: State, n: nat, l: seq<Item>, live: set<Item>)
    requires Inv(s, n, l, live) && l != []
    ensures s.free == l[0] && Inv(s.(free := NextOf(s.mem, s.free)), n, l[1..], live + {s.free})
  {
    assert l == [l[0]] + l[1..];
    assert NoRepeat(l[1..]) && l[0] !in l[1..];
  }

  /** The free list after an allocation. */
  function ListAfter(l: seq<Item>, p: nat, n: nat): seq<Item> {
    if l != [] then l[1..] else if n > 0 then CellsFrom(p, 0, n)[1..] else []
  }

  /** `allocate` returns a cell of a pool that was not live, and every other cell stays what it was. */
  lemma AllocateIsSafe(s: State, n: nat, l: seq<Item>, live: set<Item>, p: nat)
    requires n > 1 && Inv(s, n, l, live) && p !in s.pools
    ensures var (t, x) := Allocate(s, p, n);
            && InPool(x, t.pools, n) && x !in live
            && Inv(t, n, ListAfter(l, p, n), live + {x})
            && |t.pools| == |s.pools| + if l == [] then 1 else 0
  {
    if l == [] {
      AddPoolKeepsInv(s, n, live, p);
      TakeFirst(AddPool(s, p, n), n, CellsFrom(p, 0, n), live);
    } else {
      TakeFirst(s, n, l, live);
    }
  }

  lemma DeallocateIsSafe(s: State, n: nat, l: seq<Item>, live: set<Item>, x: Item)
    requires Inv(s, n, l, live) && x in live
    ensures Inv(Deallocate(s, x), n, [x] + l, live - {x})
  {
    assert x !in l;
    ListedFrame(s.mem, Deallocate(s, x).mem, s.free, l);
    assert ([x] + l)[1..] == l;
    assert NoRepeat([x] + l);
    assert forall y :: y in [x] + l <==> y == x || y in l;
  }

  /** The item released last is the next to be handed out, without a new pool; the free list is as before. */
  lemma ReleaseThenRequest(s: State, n: nat, l: seq<Item>, live: set<Item>, x: Item, p: nat)
    requires n > 1 && Inv(s, n, l, live) && x in live
    ensures var (t, y) := Allocate(Deallocate(s, x), p, n); y == x && t.free == s.free && t.pools == s.pools
  {
  }

  /** Releasing the item that has just been handed out undoes the request, unless a pool had to be added: then the
      cells of the new pool stay in the free list, in order. */
  lemma RequestThenRelease(s: State, n: nat, l: seq<Item>, live: set<Item>, p: nat)
    requires n > 1 && Inv(s, n, l, live) && p !in s.pools
    ensures var (t, x) := Allocate(s, p, n); var u := Deallocate(t, x);
            && (l != [] ==> u == s)
            && (l == [] ==> u.pools == [p] + s.pools && Inv(u, n, CellsFrom(p, 0, n), live))
  {
    var (t, x) := Allocate(s, p, n);
    if l == [] {
      AllocateIsSafe(s, n, l, live, p);
      DeallocateIsSafe(t, n, CellsFrom(p, 0, n)[1..], live + {x}, x);
      assert [x] + CellsFrom(p, 0, n)[1..] == CellsFrom(p, 0, n);
      assert live + {x} - {x} == live;
    } else {
      assert Deallocate(t, x).mem == s.mem;
    }
  }

  lemma WriteIsSafe(s: State, n: nat, l: seq<Item>, live: set<Item>, x: Item, c: Content)
    requires Inv(s, n, l, live) && x in live
    ensures Inv(s.(mem := s.mem[x := c]), n, l, live)
  {
    ListedFrame(s.mem, s.mem[x := c], s.free, l);
  }

  // ---- runs ----

  /** `p` is where the system would place a new pool. */
  datatype Op = OpAllocate(p: nat) | OpDeallocate(x: Item) | OpWrite(x: Item, c: Content) | OpReset

  /** An allocator with what the client holds and the order of the free cells. */
  datatype World = World(s: State, l: seq<Item>, live: set<Item>)

  ghost predicate Correct(w: World, op: Op) {
    match op
    case OpAllocate(p) => p !in w.s.pools
    case OpDeallocate(x) => x in w.live
    case OpWrite(x, c) => x in w.live
    case OpReset => true
  }

  function Step(w: World, n: nat, op: Op): World
    requires n > 1
  {
    match op
    case OpAllocate(p) =>
      var (t, x) := Allocate(w.s, p, n);
      World(t, ListAfter(w.l, p, n), w.live + {x})
    case OpDeallocate(x) => World(Deallocate(w.s, x), [x] + w.l, w.live - {x})
    case OpWrite(x, c) => w.(s := w.s.(mem := w.s.mem[x := c]))
    case OpReset => World(Reset(w.s), [], {})
  }

  ghost predicate WorldOk(w: World, n: nat) {
    Inv(w.s, n, w.l, w.live) && |w.l| + |w.live| == |w.s.pools| * n
  }

  lemma OnePoolMore(pools: nat, n: nat)
    ensures (pools + 1) * n == pools * n + n
  {
  }

  lemma AllocateKeepsCount(w: World, n: nat, p: nat)
    requires n > 1 && WorldOk(w, n) && p !in w.s.pools
    ensures WorldOk(Step(w, n, OpAllocate(p)), n)
  {
    AllocateIsSafe(w.s, n, w.l, w.live, p);
    OnePoolMore(|w.s.pools|, n);
  }

  /** One operation keeps the partition and the number of cells. */
  lemma StepIsSafe(w: World, n: nat, op: Op)
    requires n > 1 && WorldOk(w, n) && Correct(w, op)
    ensures WorldOk(Step(w, n, op), n)
  {
    match op
    case OpAllocate(p) => AllocateKeepsCount(w, n, p);
    case OpDeallocate(x) => DeallocateIsSafe(w.s, n, w.l, w.live, x);
    case OpWrite(x, c) => WriteIsSafe(w.s, n, w.l, w.live, x, c);
    case OpReset =>
  }

  ghost predicate CorrectRun(w: World, n: nat, ops: seq<Op>)
    requires n > 1
    decreases |ops|
  {
    ops == [] || (Correct(w, ops[0]) && CorrectRun(Step(w, n, ops[0]), n, ops[1..]))
  }

  function After(w: World, n: nat, ops: seq<Op>): World
    requires n > 1
    decreases |ops|
  {
    if ops == [] then w else After(Step(w, n, ops[0]), n, ops[1..])
  }

  /** Over every correctly used run, live and free cells partition the cells of all pools, each counted
      once, and the free list is acyclic. */
  lemma {:induction false} RunPartitions(w: World, n: nat, ops: seq<Op>)
    requires n > 1 && WorldOk(w, n) && CorrectRun(w, n, ops)
    ensures WorldOk(After(w, n, ops), n)
    decreases |ops|
  {
    if ops != [] {
      StepIsSafe(w, n, ops[0]);
      RunPartitions(Step(w, n, ops[0]), n, ops[1..]);
    }
  }

  lemma EveryRunPartitions(mem: map<Item, Content>, n: nat, ops: seq<Op>)
    requires n > 1 && CorrectRun(World(Initial(mem), [], {}), n, ops)
    ensures WorldOk(After(World(Initial(mem), [], {}), n, ops), n)
  {
    RunPartitions(World(Initial(mem), [], {}), n, ops);
  }

  predicate Spares(op: Op, x: Item) {
    match op
    case OpAllocate(p) => true
    case OpDeallocate(y) => y != x
    case OpWrite(y, c) => y != x
    case OpReset => false
  }

  /** A live item that the client neither releases nor writes stays live and keeps its content. */
  lemma {:induction false} ItemSurvives(w: World, n: nat, ops: seq<Op>, x: Item)
    requires n > 1 && WorldOk(w, n) && CorrectRun(w, n, ops) && x in w.live && x in w.s.mem
    requires forall k :: 0 <= k < |ops| ==> Spares(ops[k], x)
    ensures var r := After(w, n, ops); x in r.live && x in r.s.mem && r.s.mem[x] == w.s.mem[x]
    decreases |ops|
  {
    if ops != [] {
      StepIsSafe(w, n, ops[0]);
      if ops[0].OpAllocate? {
        ThreadedAt(w.s.mem, ops[0].p, n - 1, x);
      }
      ItemSurvives(Step(w, n, ops[0]), n, ops[1..], x);
    }
  }
}
