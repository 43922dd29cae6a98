/** The allocation monitor as values (src/debug/new.cpp). A chain of the table is the sequence of its records,
    most recent first. */
module MonitorModel {
  import opened Splitting
  import opened Words

  const INIT_SIZE: nat := 1024
  const EXTENSION_BIT: nat := 0x8000_0000
  const NOSIZE: nat := 0x7fff_ffff

  datatype Position = Position(filename: nat, line: nat, function_: nat)

  /** MemBucket_t and ExtMemBucket_t. */
  datatype Record =
    | Mem(ptr: nat, size: nat)
    | ExtMem(ptr: nat, size: nat, pos: Position)

  /** The sizes in bytes of a pointer, of the two kinds of record and of the monitor itself. */
  datatype Layout = Layout(pointer: nat, mem: nat, ext: nat, self: nat)

  /** `total` and `overhead` are 32-bit signed integers. */
  datatype Monitor = Monitor(chains: seq<seq<Record>>, nb: nat, total: int, peak: int, overhead: int, maxOverhead: int)

  /** Conversion to a 32-bit signed integer. */
  function Wrap(x: int): int {
    (x + 0x8000_0000) % WORD - 0x8000_0000
  }

  /** BUCKETSIZE. */
  function BucketSize(r: Record): nat {
    And(r.size, EXTENSION_BIT - 1)
  }

  predicate Extended(r: Record) {
    And(r.size, EXTENSION_BIT) != 0
  }

  predicate Sized(r: Record) {
    BucketSize(r) != NOSIZE
  }

  /** A size that a record stores faithfully: bit 31 is left to the mark of extended records, and the rest is
      not the mark of a pointer without size. */
  predicate Storable(size: nat) {
    And(size, EXTENSION_BIT) == 0 && And(size, EXTENSION_BIT - 1) != NOSIZE
  }

  function HashPtr(p: nat): nat {
    p / 4
  }

  function Index(p: nat, size: nat): nat
    requires size > 0
  {
    HashPtr(p) % size
  }

  function Max(x: int, y: int): int {
    if x < y then y else x
  }

  // ---- weights ----

  function One(r: Record): nat { 1 }

  /** What a record adds to the allocated memory. */
  function Amount(r: Record): nat {
    if Sized(r) then BucketSize(r) else 0
  }

  function Bytes(y: Layout, r: Record): nat {
    if Extended(r) then y.ext else y.mem
  }

  /** What remember adds for a record that it makes; once it is made, its size tells what kind it is. */
  function MadeBytes(y: Layout, r: Record): nat {
    if r.Mem? then y.mem else y.ext
  }

  function BytesOf(y: Layout): Record -> nat {
    r => Bytes(y, r)
  }

  /** What the monitor itself, a table of that size and the records take. */
  function OverheadOf(y: Layout, size: nat, bytes: nat): int {
    Wrap(y.self + size * y.pointer + bytes)
  }

  // ---- the operations ----

  function New(y: Layout): Monitor {
    var o := Wrap(INIT_SIZE * y.pointer + y.self);
    Monitor(seq(INIT_SIZE, _ => []), 0, 0, 0, o, o)
  }

  predicate GoesHigh(r: Record, size: nat) {
    And(HashPtr(r.ptr), size) != 0
  }

  function High(size: nat): Record -> bool {
    r => GoesHigh(r, size)
  }

  function Rehashed(chains: seq<seq<Record>>): (r: seq<seq<Record>>)
    ensures |r| == 2 * |chains|
  {
    Split(chains, High(|chains|))
  }

  /** rehash, when there is memory for the larger table. */
  function Rehash(y: Layout, m: Monitor): Monitor {
    var size := |m.chains|;
    var overhead := Wrap(Wrap(m.overhead + 2 * size * y.pointer) - size * y.pointer);
    m.(chains := Rehashed(m.chains), overhead := overhead, maxOverhead := Max(m.maxOverhead, overhead))
  }

  /** Records `r`, made for `size`, and counts it. `memory` tells whether a larger table can be allocated. */
  function Enter(y: Layout, m: Monitor, r: Record, size: nat, memory: bool): Monitor
    requires |m.chains| > 0
  {
    var i := Index(r.ptr, |m.chains|);
    var overhead := Wrap(m.overhead + MadeBytes(y, r));
    var total := if size != NOSIZE then Wrap(m.total + size) else m.total;
    var n := Monitor(m.chains[i := [r] + m.chains[i]], m.nb + 1, total,
                     if size != NOSIZE then Max(m.peak, total) else m.peak,
                     overhead, Max(m.maxOverhead, overhead));
    if n.nb > (|n.chains| - 1) / 2 && memory then Rehash(y, n) else n
  }

  /** The pointer is already recorded with a size. */
  predicate Registered(l: seq<Record>, ptr: nat) {
    exists r :: r in l && r.ptr == ptr && Sized(r)
  }

  /** remember(ptr, size). */
  function Remember(y: Layout, m: Monitor, ptr: nat, size: nat, memory: bool): Monitor
    requires |m.chains| > 0
  {
    if Registered(m.chains[Index(ptr, |m.chains|)], ptr) then m else Enter(y, m, Mem(ptr, size), size, memory)
  }

  /** remember with a position; a size of NOSIZE records a user pointer, as often as it is called. */
  function RememberAt(y: Layout, m: Monitor, ptr: nat, size: nat, pos: Position, memory: bool): Monitor
    requires |m.chains| > 0
  {
    if size != NOSIZE && Registered(m.chains[Index(ptr, |m.chains|)], ptr) then m
    else Enter(y, m, ExtMem(ptr, Or(size, EXTENSION_BIT), pos), size, memory)
  }

  predicate Matches(r: Record, ptr: nat, nosize: bool) {
    r.ptr == ptr && Sized(r) == !nosize
  }

  /** The position of the first record that matches, or the length of the chain. */
  function Find(l: seq<Record>, ptr: nat, nosize: bool): (k: nat)
    ensures k <= |l| && (k < |l| ==> Matches(l[k], ptr, nosize))
    decreases |l|
  {
    if l == [] || Matches(l[0], ptr, nosize) then 0 else 1 + Find(l[1..], ptr, nosize)
  }

  /** Takes the record at position `k` out of chain `i`. */
  function Drop(y: Layout, m: Monitor, i: nat, k: nat, nosize: bool): Monitor
    requires i < |m.chains| && k < |m.chains[i]| && m.nb > 0
  {
    var l := m.chains[i];
    m.(chains := m.chains[i := l[..k] + l[k + 1..]],
       nb := m.nb - 1,
       total := if nosize then m.total else Wrap(m.total - BucketSize(l[k])),
       overhead := Wrap(m.overhead - Bytes(y, l[k])))
  }

  /** forget. */
  function Forget(y: Layout, m: Monitor, ptr: nat, nosize: bool): Monitor
    requires |m.chains| > 0
    requires var l := m.chains[Index(ptr, |m.chains|)]; Find(l, ptr, nosize) < |l| ==> m.nb > 0
  {
    var i := Index(ptr, |m.chains|);
    var k := Find(m.chains[i], ptr, nosize);
    if ptr == 0 || k == |m.chains[i]| then m else Drop(y, m, i, k, nosize)
  }

  // ---- the invariant ----

  /** The extension bit is set in extended records only, and only these may lack a size. */
  ghost predicate RecordOk(r: Record) {
    if r.Mem? then Storable(r.size) else Extended(r)
  }

  ghost predicate AllAt(l: seq<Record>, i: nat, size: nat)
    requires size > 0
  {
    forall r :: r in l ==> RecordOk(r) && Index(r.ptr, size) == i
  }

  ghost predicate Placed(chains: seq<seq<Record>>) {
    |chains| > 0 && forall i :: 0 <= i < |chains| ==> AllAt(chains[i], i, |chains|)
  }

  /** No pointer has two records with a size. */
  ghost predicate OneSized(l: seq<Record>) {
    forall j, k :: 0 <= j < k < |l| && Sized(l[j]) && Sized(l[k]) ==> l[j].ptr != l[k].ptr
  }

  /** The three counters against the records. */
  ghost predicate Counted(y: Layout, m: Monitor) {
    && m.nb == WeightAll(m.chains, |m.chains|, One)
    && m.total == Wrap(WeightAll(m.chains, |m.chains|, Amount))
    && m.overhead == OverheadOf(y, |m.chains|, WeightAll(m.chains, |m.chains|, BytesOf(y)))
  }

  ghost predicate Inv(y: Layout, m: Monitor) {
    && SizeOk(|m.chains|) && Placed(m.chains)
    && (forall i :: 0 <= i < |m.chains| ==> OneSized(m.chains[i]))
    && Counted(y, m)
  }
}
