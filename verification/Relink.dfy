/** Relinking the buckets of a chain one by one into a table of twice the size (src/hash/tables.cpp, the two
    rehash functions), on memory cells. */
module Relink {
  import opened Lists
  import opened Words
  import opened Linkable
  import opened BucketModel
  import opened Splitting

  ghost predicate ChainsApart(chains: seq<seq<nat>>) {
    forall i, j, x :: 0 <= i < |chains| && 0 <= j < |chains| && i != j && x in chains[i] ==> x !in chains[j]
  }

  /** The chains of a table are in memory: `chains[j]` hangs from entry `base + j` for each `j` from `from` on. */
  ghost predicate Stored(h: Heap, table: nat, base: nat, chains: seq<seq<nat>>, from: nat, double: bool) {
    forall j :: from <= j < |chains| ==> Hangs(h, Slot(table, base + j), chains[j], double)
  }

  /** The buckets still to be moved: the first is at hand, the others hang behind it. */
  ghost predicate AtHand(h: Heap, r: seq<nat>) {
    r != [] ==> r[0] != 0 && Hangs(h, NextOf(r[0]), r[1..], false)
  }

  /** While chain `i` is being moved: `r` is left of it, the chains behind it are still in the old table, and
      the new table holds `lows` in its lower and `highs` in its upper half. */
  datatype Stage = Stage(oldTable: nat, newTable: nat, chains: seq<seq<nat>>, i: nat,
                         lows: seq<seq<nat>>, highs: seq<seq<nat>>, r: seq<nat>)

  ghost predicate StageShape(s: Stage) {
    && s.oldTable != s.newTable
    && s.i < |s.chains| == |s.highs| && |s.lows| == s.i + 1
    && ChainsApart(s.chains)
    && (forall j, x :: 0 <= j <= s.i && x in s.lows[j] ==> x in s.chains[j])
    && (forall j, x :: 0 <= j < |s.highs| && x in s.highs[j] ==> x in s.chains[j])
    && (forall x :: x in s.r ==> x in s.chains[s.i] && x !in s.lows[s.i] && x !in s.highs[s.i])
    && NoRepeat(s.r) && NoRepeat(s.lows[s.i]) && NoRepeat(s.highs[s.i])
    && (forall x :: x in s.lows[s.i] ==> x !in s.highs[s.i])
  }

  ghost predicate StageStored(h: Heap, s: Stage, double: bool)
    requires StageShape(s)
  {
    && Stored(h, s.oldTable, 0, s.chains, s.i + 1, false)
    && Stored(h, s.newTable, 0, s.lows, 0, double)
    && Stored(h, s.newTable, |s.chains|, s.highs, 0, double)
    && AtHand(h, s.r)
  }

  /** The bucket at hand goes in front of one of the two new chains. */
  function Moved(s: Stage, high: bool): Stage
    requires s.r != [] && s.i < |s.lows| && s.i < |s.highs|
  {
    var b := s.r[0];
    if high then s.(r := s.r[1..], highs := s.highs[s.i := [b] + s.highs[s.i]])
    else s.(r := s.r[1..], lows := s.lows[s.i := [b] + s.lows[s.i]])
  }

  function Target(s: Stage, high: bool): Cell {
    Slot(s.newTable, if high then |s.chains| + s.i else s.i)
  }

  lemma MovedShape(s: Stage, high: bool)
    requires StageShape(s) && s.r != []
    ensures StageShape(Moved(s, high))
  {
    var b := s.r[0];
    assert b in s.r && b !in s.r[1..];
    assert NoRepeat([b] + s.lows[s.i]) && NoRepeat([b] + s.highs[s.i]);
    var t := Moved(s, high);
    assert forall x :: x in t.r ==> x in s.r && x != b;
  }

  /** What the target points at is the first bucket of its chain. */
  lemma TargetHolds(h: Heap, s: Stage, double: bool, high: bool)
    requires StageShape(s) && StageStored(h, s, double)
    ensures var l := if high then s.highs[s.i] else s.lows[s.i];
            && Hangs(h, Target(s, high), l, double)
            && At(h, Target(s, high)) == (if l == [] then 0 else l[0])
            && (At(h, Target(s, high)) != 0 ==> At(h, Target(s, high)) in l)
  {
    var l := if high then s.highs[s.i] else s.lows[s.i];
    assert Hangs(h, Target(s, high), l, double);
  }

  lemma OthersKept(h: Heap, s: Stage, double: bool, high: bool, c: Cell, l: seq<nat>, d: bool)
    requires StageShape(s) && s.r != [] && StageStored(h, s, double)
    requires Hangs(h, c, l, d) && c.Slot? && c != Target(s, high)
    requires s.r[0] !in l
    requires forall x :: x in (if high then s.highs[s.i] else s.lows[s.i]) ==> x !in l
    requires 0 !in l
    ensures Hangs(Link(h, s.r[0], Target(s, high), double), c, l, d)
  {
    TargetHolds(h, s, double, high);
    Frame(h, Link(h, s.r[0], Target(s, high), double), c, l, d);
  }

  lemma {:induction false} NoNullInChain(h: Heap, c: Cell, l: seq<nat>, d: bool)
    requires Hangs(h, c, l, d)
    ensures 0 !in l
    decreases |l|
  {
    if l != [] {
      NoNullInChain(h, NextOf(l[0]), l[1..], d);
    }
  }

  lemma OldKept(h: Heap, s: Stage, double: bool, high: bool)
    requires StageShape(s) && s.r != [] && StageStored(h, s, double)
    ensures Stored(Link(h, s.r[0], Target(s, high), double), s.oldTable, 0, s.chains, s.i + 1, false)
  {
    forall j | s.i + 1 <= j < |s.chains|
      ensures Hangs(Link(h, s.r[0], Target(s, high), double), Slot(s.oldTable, 0 + j), s.chains[j], false)
    {
      assert Hangs(h, Slot(s.oldTable, 0 + j), s.chains[j], false);
      assert s.r[0] in s.r;
      NoNullInChain(h, Slot(s.oldTable, 0 + j), s.chains[j], false);
      OthersKept(h, s, double, high, Slot(s.oldTable, 0 + j), s.chains[j], false);
    }
  }

  lemma LowsKept(h: Heap, s: Stage, double: bool, high: bool, j: nat)
    requires StageShape(s) && s.r != [] && StageStored(h, s, double) && j <= s.i && (j < s.i || high)
    ensures Hangs(Link(h, s.r[0], Target(s, high), double), Slot(s.newTable, 0 + j), s.lows[j], double)
  {
    assert Hangs(h, Slot(s.newTable, 0 + j), s.lows[j], double);
    assert s.r[0] in s.r;
    NoNullInChain(h, Slot(s.newTable, 0 + j), s.lows[j], double);
    OthersKept(h, s, double, high, Slot(s.newTable, 0 + j), s.lows[j], double);
  }

  lemma HighsKept(h: Heap, s: Stage, double: bool, high: bool, j: nat)
    requires StageShape(s) && s.r != [] && StageStored(h, s, double) && j < |s.highs| && (j != s.i || !high)
    ensures Hangs(Link(h, s.r[0], Target(s, high), double), Slot(s.newTable, |s.chains| + j), s.highs[j], double)
  {
    assert Hangs(h, Slot(s.newTable, |s.chains| + j), s.highs[j], double);
    assert s.r[0] in s.r;
    NoNullInChain(h, Slot(s.newTable, |s.chains| + j), s.highs[j], double);
    OthersKept(h, s, double, high, Slot(s.newTable, |s.chains| + j), s.highs[j], double);
  }

  lemma TailAtHand(h: Heap, b: nat, from: Cell, double: bool, q: seq<nat>)
    requires Hangs(h, NextOf(b), q, false) && b !in q && from.Slot?
    ensures AtHand(Link(h, b, from, double), q)
    ensures At(h, NextOf(b)) == if q == [] then 0 else q[0]
  {
    if q != [] {
      assert Hangs(h, NextOf(q[0]), q[1..], false);
      Frame(h, Link(h, b, from, double), NextOf(q[0]), q[1..], false);
    }
  }

  lemma RestKept(h: Heap, s: Stage, double: bool, high: bool)
    requires StageShape(s) && s.r != [] && StageStored(h, s, double)
    ensures AtHand(Link(h, s.r[0], Target(s, high), double), s.r[1..])
    ensures At(h, NextOf(s.r[0])) == if |s.r| > 1 then s.r[1] else 0
  {
    assert s.r[0] !in s.r[1..];
    TailAtHand(h, s.r[0], Target(s, high), double, s.r[1..]);
  }

  lemma TargetGrows(h: Heap, s: Stage, double: bool, high: bool)
    requires StageShape(s) && s.r != [] && StageStored(h, s, double)
    ensures var l := if high then s.highs[s.i] else s.lows[s.i];
            Hangs(Link(h, s.r[0], Target(s, high), double), Target(s, high), [s.r[0]] + l, double)
  {
    var l := if high then s.highs[s.i] else s.lows[s.i];
    assert s.r[0] in s.r;
    TargetHolds(h, s, double, high);
    LinkHere(h, s.r[0], Target(s, high), double, l);
  }

  /** One iteration of the inner loop of rehash. */
  lemma MoveKeepsStage(h: Heap, s: Stage, double: bool, high: bool)
    requires StageShape(s) && s.r != [] && StageStored(h, s, double)
    ensures StageShape(Moved(s, high))
    ensures StageStored(Link(h, s.r[0], Target(s, high), double), Moved(s, high), double)
  {
    MovedShape(s, high);
    OldKept(h, s, double, high);
    RestKept(h, s, double, high);
    TargetGrows(h, s, double, high);
    var g, t := Link(h, s.r[0], Target(s, high), double), Moved(s, high);
    forall j | 0 <= j < |t.lows|
      ensures Hangs(g, Slot(s.newTable, 0 + j), t.lows[j], double)
    {
      if j < s.i || high {
        LowsKept(h, s, double, high, j);
      }
    }
    forall j | 0 <= j < |t.highs|
      ensures Hangs(g, Slot(s.newTable, |s.chains| + j), t.highs[j], double)
    {
      if j != s.i || !high {
        HighsKept(h, s, double, high, j);
      }
    }
  }

  // ---- from one chain to the next ----

  function LowsUpTo(chains: seq<seq<nat>>, info: map<nat, nat>, n: nat): (r: seq<seq<nat>>)
    requires n <= |chains|
    ensures |r| == n && forall j :: 0 <= j < n ==> r[j] == Spill(chains[j], [], High(info, |chains|), false)
  {
    seq(n, (j: nat) => if j < |chains| then Spill(chains[j], [], High(info, |chains|), false) else [])
  }

  function HighsUpTo(chains: seq<seq<nat>>, info: map<nat, nat>, n: nat): (r: seq<seq<nat>>)
    ensures |r| == |chains|
    ensures forall j :: 0 <= j < |r| ==> r[j] == if j < n then Spill(chains[j], [], High(info, |chains|), true) else []
  {
    seq(|chains|, (j: nat) => if j < n && j < |chains| then Spill(chains[j], [], High(info, |chains|), true) else [])
  }

  /** Between two chains: the first `n` have been moved. */
  ghost predicate Between(h: Heap, oldTable: nat, newTable: nat, chains: seq<seq<nat>>, n: nat, double: bool)
    requires n <= |chains|
  {
    && Stored(h, oldTable, 0, chains, n, false)
    && Stored(h, newTable, 0, LowsUpTo(chains, h.info, n), 0, double)
    && Stored(h, newTable, |chains|, HighsUpTo(chains, h.info, n), 0, double)
  }

  function Cleared(h: Heap, c: Cell): Heap {
    h.(cells := h.cells[c := 0])
  }

  /** Before its chain is moved, the new entry is cleared. */
  function FirstStage(oldTable: nat, newTable: nat, chains: seq<seq<nat>>, info: map<nat, nat>, i: nat): Stage
    requires i < |chains|
  {
    Stage(oldTable, newTable, chains, i, LowsUpTo(chains, info, i) + [[]], HighsUpTo(chains, info, i), chains[i])
  }

  lemma FirstStageShape(oldTable: nat, newTable: nat, chains: seq<seq<nat>>, info: map<nat, nat>, i: nat)
    requires i < |chains| && ChainsApart(chains) && NoRepeat(chains[i]) && oldTable != newTable
    ensures StageShape(FirstStage(oldTable, newTable, chains, info, i))
  {
    var s := FirstStage(oldTable, newTable, chains, info, i);
    forall j, x | 0 <= j <= i && x in s.lows[j]
      ensures x in chains[j]
    {
      if j < i {
        SpillMembers(chains[j], [], High(info, |chains|), false, x);
      }
    }
    forall j, x | 0 <= j < |chains| && x in s.highs[j]
      ensures x in chains[j]
    {
      if j < i {
        SpillMembers(chains[j], [], High(info, |chains|), true, x);
      }
    }
  }

  lemma ClearKeeps(h: Heap, c: Cell, table: nat, base: nat, chains: seq<seq<nat>>, from: nat, double: bool)
    requires Stored(h, table, base, chains, from, double)
    requires c.Slot? && (c.table != table || c.i < base || base + |chains| <= c.i)
    ensures Stored(Cleared(h, c), table, base, chains, from, double)
  {
    forall j | from <= j < |chains|
      ensures Hangs(Cleared(h, c), Slot(table, base + j), chains[j], double)
    {
      Frame(h, Cleared(h, c), Slot(table, base + j), chains[j], double);
    }
  }

  lemma FirstStageStored(h: Heap, oldTable: nat, newTable: nat, chains: seq<seq<nat>>, i: nat, double: bool)
    requires i < |chains| && ChainsApart(chains) && NoRepeat(chains[i]) && oldTable != newTable
    requires Between(h, oldTable, newTable, chains, i, double)
    ensures var s := FirstStage(oldTable, newTable, chains, h.info, i);
            StageShape(s) && StageStored(Cleared(h, Slot(newTable, i)), s, double)
    ensures At(Cleared(h, Slot(newTable, i)), Slot(oldTable, i)) == if chains[i] == [] then 0 else chains[i][0]
  {
    var c := Slot(newTable, i);
    var g := Cleared(h, c);
    var s := FirstStage(oldTable, newTable, chains, h.info, i);
    FirstStageShape(oldTable, newTable, chains, h.info, i);
    ClearKeeps(h, c, oldTable, 0, chains, i, false);
    ClearKeeps(h, c, newTable, 0, LowsUpTo(chains, h.info, i), 0, double);
    ClearKeeps(h, c, newTable, |chains|, HighsUpTo(chains, h.info, i), 0, double);
    assert Hangs(g, Slot(oldTable, 0 + i), chains[i], false);
    forall j | 0 <= j < |s.lows|
      ensures Hangs(g, Slot(newTable, 0 + j), s.lows[j], double)
    {
      if j < i {
        assert Hangs(g, Slot(newTable, 0 + j), LowsUpTo(chains, h.info, i)[j], double);
      }
    }
  }

  /** A stage with nothing left is the state before the next chain. */
  lemma LastStageIsBetween(h: Heap, s: Stage, double: bool)
    requires StageShape(s) && StageStored(h, s, double) && s.r == []
    requires s.lows == LowsUpTo(s.chains, h.info, s.i + 1) && s.highs == HighsUpTo(s.chains, h.info, s.i + 1)
    ensures Between(h, s.oldTable, s.newTable, s.chains, s.i + 1, double)
  {
  }

  /** With all chains moved, the new table is the rehashed one. */
  lemma AllMoved(h: Heap, oldTable: nat, newTable: nat, chains: seq<seq<nat>>, double: bool)
    requires Between(h, oldTable, newTable, chains, |chains|, double)
    ensures Stored(h, newTable, 0, Rehashed(chains, h.info), 0, double)
  {
    var r := Rehashed(chains, h.info);
    forall j | 0 <= j < |r|
      ensures Hangs(h, Slot(newTable, 0 + j), r[j], double)
    {
      if j < |chains| {
        assert Hangs(h, Slot(newTable, 0 + j), LowsUpTo(chains, h.info, |chains|)[j], double);
      } else {
        var k := j - |chains|;
        assert Hangs(h, Slot(newTable, |chains| + k), HighsUpTo(chains, h.info, |chains|)[k], double);
      }
    }
  }

  // ---- the new array ----

  /** Entries `start` to `end` of an array set to null. */
  function Filled(cells: map<Cell, nat>, table: nat, start: nat, end: nat): map<Cell, nat>
    requires start <= end
    decreases end
  {
    if start == end then cells else Filled(cells, table, start, end - 1)[Slot(table, end - 1) := 0]
  }

  lemma {:induction false} FilledAt(cells: map<Cell, nat>, table: nat, start: nat, end: nat, c: Cell)
    requires start <= end
    ensures c.Slot? && c.table == table && start <= c.i < end ==>
              c in Filled(cells, table, start, end) && Filled(cells, table, start, end)[c] == 0
    ensures !(c.Slot? && c.table == table && start <= c.i < end) ==>
              (c in Filled(cells, table, start, end) <==> c in cells)
              && (c in cells ==> Filled(cells, table, start, end)[c] == cells[c])
    decreases end
  {
    if start < end {
      FilledAt(cells, table, start, end - 1, c);
    }
  }

  lemma {:induction false} ChainOnly(h: Heap, c: Cell, l: seq<nat>, double: bool)
    requires Hangs(h, c, l, double)
    ensures Hangs(h, c, l, false)
  {
  }

  lemma FilledIsBetween(h: Heap, oldTable: nat, newTable: nat, chains: seq<seq<nat>>, double: bool)
    requires oldTable != newTable && Stored(h, oldTable, 0, chains, 0, double)
    ensures Between(h.(cells := Filled(h.cells, newTable, |chains|, 2 * |chains|)), oldTable, newTable, chains, 0,
                    double)
  {
    var s := |chains|;
    var g := h.(cells := Filled(h.cells, newTable, s, 2 * s));
    forall j | 0 <= j < s
      ensures Hangs(g, Slot(oldTable, 0 + j), chains[j], false)
    {
      ChainOnly(h, Slot(oldTable, 0 + j), chains[j], double);
      FilledAt(h.cells, newTable, s, 2 * s, Slot(oldTable, 0 + j));
      forall x | x in chains[j]
        ensures NextOf(x) in h.cells ==> NextOf(x) in g.cells && g.cells[NextOf(x)] == h.cells[NextOf(x)]
      {
        FilledAt(h.cells, newTable, s, 2 * s, NextOf(x));
      }
      Frame(h, g, Slot(oldTable, 0 + j), chains[j], false);
    }
    forall j | 0 <= j < s
      ensures Hangs(g, Slot(newTable, s + j), HighsUpTo(chains, h.info, 0)[j], double)
    {
      FilledAt(h.cells, newTable, s, 2 * s, Slot(newTable, s + j));
    }
  }

  lemma ChainsAreApart(chains: seq<seq<nat>>, hash: map<nat, nat>, info: map<nat, nat>)
    requires ChainsOk(chains, hash, info)
    ensures ChainsApart(chains)
  {
    forall i, j, x | 0 <= i < |chains| && 0 <= j < |chains| && i != j && x in chains[i]
      ensures x !in chains[j]
    {
      assert Belongs(x, i, |chains|, hash, info);
    }
  }

  // ---- the inner loop ----

  /** What is left to move, put on what has been moved, makes up the chains of the rehashed table. */
  ghost predicate Goal(s: Stage, info: map<nat, nat>)
    requires StageShape(s)
  {
    var size := |s.chains|;
    && s.lows[..s.i] == LowsUpTo(s.chains, info, s.i)
    && s.highs[s.i := []] == HighsUpTo(s.chains, info, s.i)
    && Spill(s.r, s.lows[s.i], High(info, size), false) == Spill(s.chains[s.i], [], High(info, size), false)
    && Spill(s.r, s.highs[s.i], High(info, size), true) == Spill(s.chains[s.i], [], High(info, size), true)
  }

  ghost predicate MovingParts(h: Heap, s: Stage, hash: map<nat, nat>, double: bool, bucket: nat) {
    && SizeOk(|s.chains|) && ChainsOk(s.chains, hash, h.info)
    && StageShape(s) && StageStored(h, s, double) && Goal(s, h.info)
    && bucket == if s.r == [] then 0 else s.r[0]
  }

  /** The state at the head of the inner loop; `bucket` is the program variable. The comparison lets the verifier
      carry the parts as one fact, where it would otherwise prove each of them anew. */
  ghost predicate Moving(h: Heap, s: Stage, hash: map<nat, nat>, double: bool, bucket: nat) {
    MovingParts(h, s, hash, double, bucket) == true
  }

  lemma MovingStarts(h: Heap, oldTable: nat, newTable: nat, chains: seq<seq<nat>>, i: nat, hash: map<nat, nat>,
                     double: bool)
    requires i < |chains| && oldTable != newTable
    requires SizeOk(|chains|) && ChainsOk(chains, hash, h.info)
    requires Between(h, oldTable, newTable, chains, i, double)
    ensures Moving(Cleared(h, Slot(newTable, i)), FirstStage(oldTable, newTable, chains, h.info, i), hash, double,
                   At(h, Slot(oldTable, i)))
  {
    ChainsAreApart(chains, hash, h.info);
    FirstStageStored(h, oldTable, newTable, chains, i, double);
    var s := FirstStage(oldTable, newTable, chains, h.info, i);
    assert s.lows[..i] == LowsUpTo(chains, h.info, i);
    assert s.highs[i := []] == HighsUpTo(chains, h.info, i);
  }

  lemma GoalKept(s: Stage, info: map<nat, nat>)
    requires StageShape(s) && s.r != [] && Goal(s, info)
    ensures var t := Moved(s, GoesHigh(s.r[0], info, |s.chains|)); StageShape(t) && Goal(t, info)
  {
    var high := GoesHigh(s.r[0], info, |s.chains|);
    MovedShape(s, high);
    var t := Moved(s, high);
    assert t.lows[..s.i] == s.lows[..s.i];
    assert t.highs[s.i := []] == s.highs[s.i := []];
  }

  /** The bucket at hand, and the entry that its stored bit selects. */
  lemma NextMove(h: Heap, s: Stage, hash: map<nat, nat>, double: bool, bucket: nat)
    requires Moving(h, s, hash, double, bucket) && bucket != 0
    ensures s.r != [] && bucket == s.r[0] && bucket in h.info && s.i < |s.chains| && bucket in s.chains[s.i]
    ensures Slot(s.newTable, s.i + And(h.info[bucket], |s.chains|)) == Target(s, GoesHigh(bucket, h.info, |s.chains|))
  {
    assert bucket in s.r && bucket in s.chains[s.i];
    assert Belongs(bucket, s.i, |s.chains|, hash, h.info);
    HighBit(bucket, s.i, |s.chains|, hash, h.info);
  }

  lemma MovedGoesOn(h: Heap, s: Stage, hash: map<nat, nat>, double: bool, bucket: nat, high: bool)
    requires Moving(h, s, hash, double, bucket) && s.r != []
    requires high == GoesHigh(s.r[0], h.info, |s.chains|)
    ensures Moving(Link(h, bucket, Target(s, high), double), Moved(s, high), hash, double, At(h, NextOf(bucket)))
  {
    RestKept(h, s, double, high);
    MoveKeepsStage(h, s, double, high);
    GoalKept(s, h.info);
    var g := Link(h, bucket, Target(s, high), double);
    assert g.info == h.info;
  }

  lemma MovingEnds(h: Heap, s: Stage, hash: map<nat, nat>, double: bool)
    requires Moving(h, s, hash, double, 0)
    ensures Between(h, s.oldTable, s.newTable, s.chains, s.i + 1, double)
  {
    assert s.lows == s.lows[..s.i] + [s.lows[s.i]];
    assert s.lows == LowsUpTo(s.chains, h.info, s.i + 1);
    assert s.highs == s.highs[s.i := []][s.i := s.highs[s.i]];
    assert s.highs == HighsUpTo(s.chains, h.info, s.i + 1);
    LastStageIsBetween(h, s, double);
  }
}
