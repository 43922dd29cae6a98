/** What an operation on one hash table leaves alone: entries of other arrays, and buckets of other tables. */
module Frames {
  import opened Words
  import opened Linkable
  import opened BucketModel
  import opened BucketRuns
  import opened Relink

  predicate Touched(c: Cell, tables: set<nat>, xs: set<nat>) {
    match c
    case Slot(table, i) => table in tables
    case NextOf(b) => b in xs
  }

  /** `g` is `h` but for entries of the arrays `tables` and links of the buckets `xs`. */
  ghost predicate Within(h: Heap, g: Heap, tables: set<nat>, xs: set<nat>) {
    && (forall c :: c in h.cells && !Touched(c, tables, xs) ==> c in g.cells && g.cells[c] == h.cells[c])
    && (forall x :: x in h.previous && x !in xs ==> x in g.previous && g.previous[x] == h.previous[x])
    && g.info == h.info
  }

  lemma WithinTrans(h: Heap, g: Heap, k: Heap, tables: set<nat>, xs: set<nat>)
    requires Within(h, g, tables, xs) && Within(g, k, tables, xs)
    ensures Within(h, k, tables, xs)
  {
  }

  lemma WithinMore(h: Heap, g: Heap, tables: set<nat>, xs: set<nat>, more: set<nat>, ys: set<nat>)
    requires Within(h, g, tables, xs) && tables <= more && xs <= ys
    ensures Within(h, g, more, ys)
  {
  }

  /** A chain that hangs from an entry of another array and has other buckets is as it was. */
  lemma ChainKept(h: Heap, g: Heap, tables: set<nat>, xs: set<nat>, c: Cell, l: seq<nat>, double: bool)
    requires Within(h, g, tables, xs) && Hangs(h, c, l, double)
    requires c.Slot? && c.table !in tables && forall x :: x in l ==> x !in xs
    ensures Hangs(g, c, l, double)
  {
    Frame(h, g, c, l, double);
  }

  /** Another table is as it was. */
  lemma TableKept(h: Heap, g: Heap, tables: set<nat>, xs: set<nat>, table: nat, chains: seq<seq<nat>>, double: bool)
    requires Within(h, g, tables, xs) && Stored(h, table, 0, chains, 0, double)
    requires table !in tables && Members(chains) !! xs
    ensures Stored(g, table, 0, chains, 0, double)
  {
    forall j | 0 <= j < |chains|
      ensures Hangs(g, Slot(table, 0 + j), chains[j], double)
    {
      assert Hangs(h, Slot(table, 0 + j), chains[j], double);
      forall x | x in chains[j]
        ensures x !in xs
      {
        assert x in Members(chains);
      }
      ChainKept(h, g, tables, xs, Slot(table, 0 + j), chains[j], double);
    }
  }

  // ---- the elementary moves ----

  lemma LinkWithin(h: Heap, b: nat, from: Cell, double: bool, tables: set<nat>, xs: set<nat>)
    requires from.Slot? && from.table in tables && b in xs
    requires At(h, from) == 0 || At(h, from) in xs
    ensures Within(h, Link(h, b, from, double), tables, xs)
  {
  }

  lemma FilledWithin(h: Heap, table: nat, start: nat, end: nat)
    requires start <= end
    ensures Within(h, h.(cells := Filled(h.cells, table, start, end)), {table}, {})
  {
    forall c | c in h.cells && !Touched(c, {table}, {})
      ensures c in Filled(h.cells, table, start, end) && Filled(h.cells, table, start, end)[c] == h.cells[c]
    {
      FilledAt(h.cells, table, start, end, c);
    }
  }

  lemma ClearedWithin(h: Heap, table: nat, i: nat)
    ensures Within(h, Cleared(h, Slot(table, i)), {table}, {})
  {
  }

  /** Taking a bucket out of a chain touches the entry of the chain and its buckets. */
  lemma BypassWithin(h: Heap, g: Heap, table: nat, i: nat, l: seq<nat>, double: bool, k: nat, xs: set<nat>)
    requires Hangs(h, Slot(table, i), l, double) && k < |l| && Bypassed(h, g, Slot(table, i), l, double, k)
    requires g.info == h.info && (forall x :: x in l ==> x in xs) && (!double ==> g.previous == h.previous)
    ensures Within(h, g, {table}, xs)
  {
    ChainAt(h, Slot(table, i), l, double, k + 1);
    assert k > 0 ==> l[k - 1] in l;
    assert k + 1 < |l| ==> l[k + 1] in l;
  }

  /** What the entry that a bucket is moved to points at is a bucket of the table. */
  lemma TargetWithin(h: Heap, s: Stage, double: bool, high: bool, bucket: nat, g: Heap)
    requires StageShape(s) && StageStored(h, s, double) && bucket in s.chains[s.i]
    requires g == Link(h, bucket, Target(s, high), double)
    ensures Within(h, g, {s.newTable}, Members(s.chains))
  {
    TargetHolds(h, s, double, high);
    var x := At(h, Target(s, high));
    assert x != 0 ==> x in s.chains[s.i];
    LinkWithin(h, bucket, Target(s, high), double, {s.newTable}, Members(s.chains));
  }

  lemma MovingStored(h: Heap, s: Stage, hash: map<nat, nat>, double: bool, bucket: nat)
    requires Moving(h, s, hash, double, bucket)
    ensures StageShape(s) && StageStored(h, s, double)
  {
  }

  /** The state at the head of the inner loop, and how far the heap is from what it was. */
  ghost predicate MovedTo(h: Heap, s: Stage, g: Heap, t: Stage, hash: map<nat, nat>, double: bool, next: nat) {
    && Moving(g, t, hash, double, next)
    && t.oldTable == s.oldTable && t.newTable == s.newTable && t.chains == s.chains && t.i == s.i
    && |t.r| < |s.r|
  }

  lemma NextMoved(h: Heap, s: Stage, hash: map<nat, nat>, double: bool, bucket: nat, high: bool, g: Heap, next: nat)
    requires Moving(h, s, hash, double, bucket) && s.r != []
    requires high == GoesHigh(s.r[0], h.info, |s.chains|)
    requires g == Link(h, bucket, Target(s, high), double) && next == At(h, NextOf(bucket))
    ensures s.i < |s.lows| && s.i < |s.highs| && MovedTo(h, s, g, Moved(s, high), hash, double, next)
  {
    MovingStored(h, s, hash, double, bucket);
    MovedGoesOn(h, s, hash, double, bucket, high);
  }

  /** One iteration of the inner loop of rehash, with all that it keeps. */
  lemma NextStage(h: Heap, s: Stage, hash: map<nat, nat>, double: bool, bucket: nat)
    returns (g: Heap, t: Stage, next: nat)
    requires Moving(h, s, hash, double, bucket) && bucket != 0
    ensures bucket in h.info && next == At(h, NextOf(bucket))
    ensures g == Link(h, bucket, Slot(s.newTable, s.i + And(h.info[bucket], |s.chains|)), double)
    ensures MovedTo(h, s, g, t, hash, double, next)
    ensures Within(h, g, {s.newTable}, Members(s.chains))
  {
    NextMove(h, s, hash, double, bucket);
    MovingStored(h, s, hash, double, bucket);
    var high := GoesHigh(bucket, h.info, |s.chains|);
    g := Link(h, bucket, Target(s, high), double);
    next := At(h, NextOf(bucket));
    t := Moved(s, high);
    NextMoved(h, s, hash, double, bucket, high, g, next);
    TargetWithin(h, s, double, high, bucket, g);
  }
}
