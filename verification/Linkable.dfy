/** Linked buckets and the memory cells that point at them (include/base/linkable.h). Buckets are numbered,
    0 is the null pointer. A cell is any place that holds a bucket pointer: an entry of an array of
    buckets, or the `next` field of a bucket. */
module Linkable {
  import opened Lists

  datatype Cell = Slot(table: nat, i: nat) | NextOf(bucket: nat)

  /** What each cell points at, which cell points at each bucket (double links only), and the `info` words. */
  datatype Heap = Heap(cells: map<Cell, nat>, previous: map<nat, Cell>, info: map<nat, nat>)

  function At(h: Heap, c: Cell): nat {
    if c in h.cells then h.cells[c] else 0
  }

  // ---- link and unlink ----

  /** link: the bucket goes in front of what `from` points at. */
  function Link(h: Heap, b: nat, from: Cell, double: bool): Heap {
    var next := At(h, from);
    var cells := h.cells[NextOf(b) := next][from := b];
    if !double then h.(cells := cells)
    else
      var previous := h.previous[b := from];
      h.(cells := cells, previous := if next != 0 then previous[next := NextOf(b)] else previous)
  }

  /** SingleLinkable::unlink. */
  function UnlinkFrom(h: Heap, b: nat, from: Cell): Heap {
    h.(cells := h.cells[from := At(h, NextOf(b))])
  }

  /** DoubleLinkable::unlink, which needs no root. */
  function Unlink(h: Heap, b: nat): Heap
    requires b in h.previous
  {
    var next := At(h, NextOf(b));
    h.(cells := h.cells[h.previous[b] := next],
       previous := if next != 0 then h.previous[next := h.previous[b]] else h.previous)
  }

  // ---- chains ----

  /** The buckets `l` hang from cell `c`, in order, and the last one points at nothing. */
  ghost predicate Chain(cells: map<Cell, nat>, c: Cell, l: seq<nat>)
    decreases |l|
  {
    && c in cells
    && if l == [] then cells[c] == 0
       else l[0] != 0 && cells[c] == l[0] && Chain(cells, NextOf(l[0]), l[1..])
  }

  /** Each bucket knows the cell that points at it: `*(b.previous) == b` all along the chain. */
  ghost predicate Backed(previous: map<nat, Cell>, c: Cell, l: seq<nat>)
    decreases |l|
  {
    l == [] || (l[0] in previous && previous[l[0]] == c && Backed(previous, NextOf(l[0]), l[1..]))
  }

  ghost predicate Hangs(h: Heap, c: Cell, l: seq<nat>, double: bool) {
    Chain(h.cells, c, l) && (double ==> Backed(h.previous, c, l))
  }

  /** A chain depends only on its own cells and back pointers. */
  lemma {:induction false} Frame(h: Heap, g: Heap, c: Cell, l: seq<nat>, double: bool)
    requires Hangs(h, c, l, double)
    requires c in g.cells && g.cells[c] == At(h, c)
    requires forall x :: x in l && NextOf(x) in h.cells ==>
               NextOf(x) in g.cells && g.cells[NextOf(x)] == h.cells[NextOf(x)]
    requires double ==> forall x :: x in l && x in h.previous ==> x in g.previous && g.previous[x] == h.previous[x]
    ensures Hangs(g, c, l, double)
    decreases |l|
  {
    if l != [] {
      Frame(h, g, NextOf(l[0]), l[1..], double);
    }
  }

  /** Linking elsewhere leaves a chain alone. */
  lemma LinkElsewhere(h: Heap, b: nat, from: Cell, double: bool, c: Cell, l: seq<nat>)
    requires Hangs(h, c, l, double) && from.Slot?
    requires c != from && c != NextOf(b) && b !in l && At(h, from) !in l
    ensures Hangs(Link(h, b, from, double), c, l, double)
  {
    Frame(h, Link(h, b, from, double), c, l, double);
  }

  /** Linking puts the bucket in front of the chain. */
  lemma LinkHere(h: Heap, b: nat, from: Cell, double: bool, l: seq<nat>)
    requires Hangs(h, from, l, double) && from.Slot? && b != 0 && b !in l && NoRepeat(l)
    ensures Hangs(Link(h, b, from, double), from, [b] + l, double)
  {
    var g := Link(h, b, from, double);
    if l != [] {
      assert l[0] !in l[1..];
      Frame(h, g, NextOf(l[0]), l[1..], double);
    }
    assert Hangs(g, NextOf(b), l, double);
    assert ([b] + l)[1..] == l;
  }

  /** `l` but for the bucket at position `k`. */
  function Without(l: seq<nat>, k: nat): seq<nat>
    requires k < |l|
    decreases k
  {
    if k == 0 then l[1..] else [l[0]] + Without(l[1..], k - 1)
  }

  /** The cell that points at the bucket at position `k`. */
  function Pointer(c: Cell, l: seq<nat>, k: nat): Cell
    requires k <= |l|
  {
    if k == 0 then c else NextOf(l[k - 1])
  }

  /** Reading a chain at any position. */
  lemma {:induction false} ChainAt(h: Heap, c: Cell, l: seq<nat>, double: bool, k: nat)
    requires Hangs(h, c, l, double) && k <= |l|
    ensures Hangs(h, Pointer(c, l, k), l[k..], double)
    ensures Pointer(c, l, k) in h.cells && h.cells[Pointer(c, l, k)] == if k < |l| then l[k] else 0
    ensures k < |l| ==> l[k] != 0 && (double ==> l[k] in h.previous && h.previous[l[k]] == Pointer(c, l, k))
    decreases k
  {
    if k == 0 {
      assert l[0..] == l;
    } else {
      ChainAt(h, NextOf(l[0]), l[1..], double, k - 1);
      assert l[1..][k - 1..] == l[k..];
      assert Pointer(NextOf(l[0]), l[1..], k - 1) == Pointer(c, l, k);
    }
  }

  /** `g` is `h` after the cell that points at the bucket at position `k` has been made to point behind it. */
  ghost predicate Bypassed(h: Heap, g: Heap, c: Cell, l: seq<nat>, double: bool, k: nat)
    requires k < |l|
  {
    var next := At(h, NextOf(l[k]));
    && g.cells == h.cells[Pointer(c, l, k) := next]
    && (double ==> g.previous == if next != 0 then h.previous[next := Pointer(c, l, k)] else h.previous)
  }

  lemma BypassHead(h: Heap, g: Heap, c: Cell, l: seq<nat>, double: bool)
    requires Hangs(h, c, l, double) && |l| > 0 && NoRepeat(l)
    requires c.NextOf? ==> c.bucket !in l
    requires Bypassed(h, g, c, l, double, 0)
    ensures Hangs(g, c, l[1..], double)
  {
    ChainAt(h, c, l, double, 1);
    if |l| > 1 {
      ChainAt(h, c, l, double, 2);
      assert l[1] !in l[2..] by {
        assert forall j :: 2 <= j < |l| ==> l[j] != l[1];
      }
      Frame(h, g, NextOf(l[1]), l[2..], double);
      assert l[1..][1..] == l[2..];
    }
  }

  /** Making the cell that points at a bucket point behind it takes exactly that bucket out of the chain. */
  lemma {:induction false} BypassRemoves(h: Heap, g: Heap, c: Cell, l: seq<nat>, double: bool, k: nat)
    requires Hangs(h, c, l, double) && k < |l| && NoRepeat(l)
    requires c.NextOf? ==> c.bucket !in l
    requires Bypassed(h, g, c, l, double, k)
    ensures Hangs(g, c, Without(l, k), double)
    decreases k
  {
    if k == 0 {
      assert Without(l, 0) == l[1..];
      BypassHead(h, g, c, l, double);
    } else {
      ChainAt(h, c, l, double, k + 1);
      assert l[0] !in l[1..];
      assert Pointer(NextOf(l[0]), l[1..], k - 1) == Pointer(c, l, k);
      BypassRemoves(h, g, NextOf(l[0]), l[1..], double, k - 1);
      var r := Without(l[1..], k - 1);
      assert Without(l, k)[0] == l[0] && Without(l, k)[1..] == r;
    }
  }

  /** A doubly linked bucket leaves its chain without anybody naming the chain. */
  lemma UnlinkRemoves(h: Heap, c: Cell, l: seq<nat>, k: nat)
    requires Hangs(h, c, l, true) && k < |l| && NoRepeat(l) && c.Slot?
    ensures l[k] in h.previous && Hangs(Unlink(h, l[k]), c, Without(l, k), true)
  {
    ChainAt(h, c, l, true, k);
    BypassRemoves(h, Unlink(h, l[k]), c, l, true, k);
  }

  /** A singly linked bucket leaves its chain through the cell that points at it. */
  lemma UnlinkFromRemoves(h: Heap, c: Cell, l: seq<nat>, k: nat)
    requires Hangs(h, c, l, false) && k < |l| && NoRepeat(l) && c.Slot?
    ensures Hangs(UnlinkFrom(h, l[k], Pointer(c, l, k)), c, Without(l, k), false)
  {
    BypassRemoves(h, UnlinkFrom(h, l[k], Pointer(c, l, k)), c, l, false, k);
  }

  /** Taking a bucket out of one chain leaves a disjoint chain alone. */
  lemma BypassElsewhere(h: Heap, g: Heap, c: Cell, l: seq<nat>, double: bool, k: nat, d: Cell, m: seq<nat>)
    requires Hangs(h, c, l, double) && k < |l| && Bypassed(h, g, c, l, double, k)
    requires Hangs(h, d, m, double) && c.Slot? && d.Slot? && d != c
    requires forall x :: x in l ==> x !in m
    ensures Hangs(g, d, m, double)
  {
    ChainAt(h, c, l, double, k + 1);
    assert k > 0 ==> l[k - 1] in l;
    assert k + 1 < |l| ==> l[k + 1] in l;
    Frame(h, g, d, m, double);
  }
}
