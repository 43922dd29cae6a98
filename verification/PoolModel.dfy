/** The state of the chunk allocator as values (include/base/DataAllocator.h, src/base/DataAllocator.cpp).
    Addresses are word numbers, 0 is the null pointer. The elementary moves below are the branches of
    `allocate`, `deallocate` and `reset`. */
module PoolModel {
  import opened Lists

  /** Words in a pool. */
  const CHUNK: nat := 0x40_0000

  /** Free-list heads the constructor provides. */
  const TABLE_SIZE: nat := 145

  /** array_t::INC. */
  const INC: nat := 8

  /** The build: `wide` for 8-byte words, `debug` for the extra size word in front of a block. */
  datatype Build = Build(wide: bool, debug: bool) {
    function Offset(): nat {
      if debug then 1 else 0
    }

    /** arch_size: how many words hold `n` 32-bit integers. */
    function ArchSize(n: nat): nat {
      if wide then (n + 1) / 2 else n
    }

    /** The words that a request for `n` integers takes, with the debug word. */
    function BlockSize(n: nat): nat {
      ArchSize(n) + Offset()
    }
  }

  /** `words` words hold `n` 32-bit integers, and one word less would not. */
  predicate HoldsIntegers(wide: bool, words: int, n: nat) {
    if wide then n <= 2 * words < n + 2 else words == n
  }

  lemma ArchSizeHolds(c: Build, n: nat)
    ensures HoldsIntegers(c.wide, c.ArchSize(n), n)
  {
  }

  /** `pools` is the chain from `memPool` on; `table` is the array of free-list heads. */
  datatype State = State(mem: seq<nat>, table: seq<nat>, pools: seq<nat>, freePtr: nat, endFree: nat)

  function Read(mem: seq<nat>, a: nat): nat {
    if a < |mem| then mem[a] else 0
  }

  function Write(mem: seq<nat>, a: nat, v: nat): (r: seq<nat>)
    ensures |r| == |mem|
  {
    if a < |mem| then mem[a := v] else mem
  }

  // ---- array_t ----

  /** array_t::get. */
  function Get(table: seq<nat>, i: nat): nat {
    if i < |table| then table[i] else 0
  }

  /** array_t::ensurePos: growing exposes words that nobody has initialised; `junk` is what they hold. */
  function Grown(table: seq<nat>, i: nat, junk: nat -> nat): (r: seq<nat>)
    ensures i < |r| && |table| <= |r|
  {
    if i < |table| then table else seq(i + INC, (k: nat) => if k < |table| then table[k] else junk(k))
  }

  // ---- elementary moves ----

  function Header(c: Build, mem: seq<nat>, d: nat, n: nat): (r: seq<nat>)
    ensures |r| == |mem|
  {
    if c.debug then Write(mem, d, n) else mem
  }

  /** Takes the head of free list `n`. */
  function Pop(c: Build, s: State, n: nat): State
    requires n < |s.table|
  {
    s.(table := s.table[n := Read(s.mem, s.table[n])], mem := Header(c, s.mem, s.table[n], n))
  }

  /** Takes `n` words at the bump pointer. */
  function Bump(c: Build, s: State, n: nat): State {
    s.(freePtr := s.freePtr + n, mem := Header(c, s.mem, s.freePtr, n))
  }

  /** Puts the block at `d` in front of free list `i`. */
  function Push(s: State, i: nat, d: nat, junk: nat -> nat): State {
    var table := Grown(s.table, i, junk);
    s.(table := table[i := d], mem := Write(s.mem, d, table[i]))
  }

  /** Files what is left of the current pool in a free list. */
  function Retire(c: Build, s: State, junk: nat -> nat): State
    requires s.freePtr <= s.endFree
  {
    if s.freePtr == s.endFree then s
    else Push(s, c.ArchSize(s.endFree - s.freePtr), s.freePtr, junk).(freePtr := s.endFree)
  }

  /** Makes a new pool, placed at `base`, the current one. */
  function AddPool(s: State, base: nat): State {
    s.(pools := [base] + s.pools, freePtr := base, endFree := base + CHUNK)
  }

  // ---- the operations ----

  /** DataAllocator::DataAllocator. */
  function Initial(mem: seq<nat>, base: nat): State {
    State(mem, seq(TABLE_SIZE, _ => 0), [base], base, base + CHUNK)
  }

  /** DataAllocator::allocate: the new state and the pointer for the client. */
  function Allocate(c: Build, s: State, n: nat, base: nat, junk: nat -> nat): (State, nat)
    requires s.freePtr <= s.endFree
  {
    var size := c.BlockSize(n);
    if n == 0 then (s, 0)
    else if Get(s.table, size) != 0 then (Pop(c, s, size), s.table[size] + c.Offset())
    else if s.freePtr + size <= s.endFree then (Bump(c, s, size), s.freePtr + c.Offset())
    else (Bump(c, AddPool(Retire(c, s, junk), base), size), base + c.Offset())
  }

  /** DataAllocator::deallocate. */
  function Deallocate(c: Build, s: State, ptr: nat, n: nat, junk: nat -> nat): State
    requires n == 0 || c.Offset() <= ptr
  {
    var size := c.BlockSize(n);
    if n == 0 then s
    else
      var d := ptr - c.Offset();
      if d + size == s.freePtr then s.(freePtr := d) else Push(s, size, d, junk)
  }

  /** DataAllocator::reset. */
  function Reset(s: State): State
    requires |s.pools| > 0
  {
    s.(pools := s.pools[..1], freePtr := s.pools[0], endFree := s.pools[0] + CHUNK,
       table := seq(|s.table|, _ => 0))
  }

  // ---- bookkeeping ----

  /** What the client and the allocator hold: `owned` maps the start of every block handed out so far and
      not merged back to its size in words, `live` are those the client holds, `lists` are the others by
      free list, `loss` counts the words rounded away from retired pools. */
  datatype Book = Book(owned: map<nat, nat>, live: set<nat>, lists: seq<seq<nat>>, loss: nat)

  function Nth(l: seq<nat>, j: nat): nat {
    if j < |l| then l[j] else 0
  }

  /** `l` is the null-terminated list threaded through memory from `head`. */
  ghost predicate Linked(mem: seq<nat>, head: nat, l: seq<nat>) {
    && head == Nth(l, 0)
    && forall j :: 0 <= j < |l| ==> 0 < l[j] < |mem| && mem[l[j]] == Nth(l, j + 1)
  }

  ghost predicate Apart(b: int, m: int, d: int, n: int) {
    b + m <= d || d + n <= b
  }

  ghost predicate InPools(pools: seq<nat>, b: nat, n: nat) {
    exists k :: 0 <= k < |pools| && pools[k] <= b && b + n <= pools[k] + CHUNK
  }

  /** A pool is a link word followed by its CHUNK words, which start at `p`. */
  ghost predicate PoolsApart(p: nat, q: nat) {
    Apart(p - 1, CHUNK + 1, q - 1, CHUNK + 1)
  }

  /** Where `new Pool_t` may place a pool. */
  ghost predicate Fresh(size: nat, pools: seq<nat>, base: nat) {
    0 < base && base + CHUNK <= size && forall k :: 0 <= k < |pools| ==> PoolsApart(base, pools[k])
  }

  /** Pools are pairwise disjoint pieces of the address space; the bump pointer is in the first. */
  ghost predicate PoolsOk(size: nat, pools: seq<nat>, freePtr: nat, endFree: nat) {
    && |pools| > 0
    && (forall k :: 0 <= k < |pools| ==> 0 < pools[k] && pools[k] + CHUNK <= size)
    && (forall j, k :: 0 <= j < k < |pools| ==> PoolsApart(pools[j], pools[k]))
    && pools[0] <= freePtr <= endFree == pools[0] + CHUNK
  }

  /** Blocks are non-empty, pairwise disjoint, inside pools and away from the bump space. */
  ghost predicate BlocksOk(pools: seq<nat>, freePtr: nat, endFree: nat, owned: map<nat, nat>) {
    && (forall b :: b in owned ==>
          0 < owned[b] && InPools(pools, b, owned[b]) && Apart(b, owned[b], freePtr, endFree - freePtr))
    && (forall b, d :: b in owned && d in owned && b != d ==> Apart(b, owned[b], d, owned[d]))
  }

  /** Every free list is threaded through memory from its head. */
  ghost predicate ThreadsOk(mem: seq<nat>, table: seq<nat>, lists: seq<seq<nat>>) {
    && |lists| == |table|
    && forall i :: 0 <= i < |table| ==> Linked(mem, table[i], lists[i])
  }

  /** The free lists have no repetition and hold exactly the owned blocks that are not live, each in the
      list of its size. */
  ghost predicate FiledOk(lists: seq<seq<nat>>, owned: map<nat, nat>, live: set<nat>) {
    && live <= owned.Keys
    && (forall i, x :: 0 <= i < |lists| && x in lists[i] ==> x in owned && owned[x] == i && x !in live)
    && (forall i :: 0 <= i < |lists| ==> NoRepeat(lists[i]))
    && (forall b :: b in owned && b !in live ==> owned[b] < |lists| && b in lists[owned[b]])
  }

  /** In a debug build live blocks carry their size in front. */
  ghost predicate HeadersOk(c: Build, mem: seq<nat>, owned: map<nat, nat>, live: set<nat>) {
    c.debug ==> forall b :: b in live && b in owned ==> b < |mem| && mem[b] == owned[b]
  }

  ghost predicate Inv(c: Build, s: State, g: Book) {
    && PoolsOk(|s.mem|, s.pools, s.freePtr, s.endFree)
    && BlocksOk(s.pools, s.freePtr, s.endFree, g.owned)
    && ThreadsOk(s.mem, s.table, g.lists)
    && FiledOk(g.lists, g.owned, g.live)
    && HeadersOk(c, s.mem, g.owned, g.live)
  }

  // ---- what the moves do to the bookkeeping ----

  function GrownLists(lists: seq<seq<nat>>, i: nat): (r: seq<seq<nat>>)
    ensures i < |r| && |lists| <= |r|
  {
    if i < |lists| then lists else seq(i + INC, (k: nat) => if k < |lists| then lists[k] else [])
  }

  function BookPop(g: Book, n: nat): Book {
    if n >= |g.lists| || |g.lists[n]| == 0 then g
    else g.(live := g.live + {g.lists[n][0]}, lists := g.lists[n := g.lists[n][1..]])
  }

  function BookBump(g: Book, d: nat, n: nat): Book {
    g.(owned := g.owned[d := n], live := g.live + {d})
  }

  /** Block `d`, of `i` words, goes to free list `i`. */
  function BookPush(g: Book, i: nat, d: nat): Book {
    var lists := GrownLists(g.lists, i);
    g.(owned := g.owned[d := i], live := g.live - {d}, lists := lists[i := [d] + lists[i]])
  }

  function BookRetire(c: Build, s: State, g: Book): Book
    requires s.freePtr <= s.endFree
  {
    if s.freePtr == s.endFree then g
    else
      var left := s.endFree - s.freePtr;
      BookPush(g, c.ArchSize(left), s.freePtr).(loss := g.loss + (left - c.ArchSize(left)))
  }

  function BookMerge(g: Book, d: nat): Book {
    g.(owned := g.owned - {d}, live := g.live - {d})
  }

  function BookAllocate(c: Build, s: State, g: Book, n: nat, base: nat): Book
    requires s.freePtr <= s.endFree
  {
    var size := c.BlockSize(n);
    if n == 0 then g
    else if Get(s.table, size) != 0 then BookPop(g, size)
    else if s.freePtr + size <= s.endFree then BookBump(g, s.freePtr, size)
    else BookBump(BookRetire(c, s, g), base, size)
  }

  function BookDeallocate(c: Build, s: State, g: Book, ptr: nat, n: nat): Book
    requires n == 0 || c.Offset() <= ptr
  {
    var size := c.BlockSize(n);
    if n == 0 then g
    else
      var d := ptr - c.Offset();
      if d + size == s.freePtr then BookMerge(g, d) else BookPush(g, size, d)
  }

  function EmptyBook(lists: nat): Book {
    Book(map[], {}, seq(lists, _ => []), 0)
  }
}
