/** Whole runs of the pointer table: when it is a set, and what its equality decides. */
module PointerRuns {
  import opened Words
  import opened PointerModel
  import opened PointerProofs

  datatype Op = OpAdd(p: nat) | OpDel(p: nat) | OpClear {
    predicate Valid() {
      OpClear? || IsPtr(p)
    }
  }

  /** One call: the new table and what the call returns. */
  function Step(t: Table, op: Op): (r: (Table, bool))
    requires |t.slots| > 0
    requires op.OpAdd? ==> Probe(t.slots, Home(|t.slots|, op.p), 0, op.p, true) < |t.slots|
    requires op.OpDel? && Found(t.slots, op.p) ==> t.count > 0
  {
    match op
    case OpAdd(p) => Add(t, p)
    case OpDel(p) => Del(t, p)
    case OpClear => (Clear(t), true)
  }

  lemma StepIsOk(t: Table, op: Op)
    requires Inv(t) && op.Valid()
    ensures op.OpAdd? ==> Probe(t.slots, Home(|t.slots|, op.p), 0, op.p, true) < |t.slots|
    ensures op.OpDel? && Found(t.slots, op.p) ==> t.count > 0
    ensures Inv(Step(t, op).0)
  {
    match op
    case OpAdd(p) => AddIsExact(t, p);
    case OpDel(p) => DelIsExact(t, p);
    case OpClear => ClearIsOk(t);
  }

  /** The table after a run, and the results of its calls. */
  ghost function Run(t: Table, ops: seq<Op>): (r: (Table, seq<bool>))
    requires Inv(t) && forall k :: 0 <= k < |ops| ==> ops[k].Valid()
    ensures Inv(r.0)
    decreases |ops|
  {
    if ops == [] then (t, [])
    else
      StepIsOk(t, ops[0]);
      var (u, b) := Step(t, ops[0]);
      var (v, bs) := Run(u, ops[1..]);
      (v, [b] + bs)
  }

  // ---- the same run on a set ----

  function SetStep(s: set<nat>, op: Op): (set<nat>, bool) {
    match op
    case OpAdd(p) => (s + {p}, p !in s)
    case OpDel(p) => (s - {p}, p in s)
    case OpClear => ({}, true)
  }

  function SetRun(s: set<nat>, ops: seq<Op>): (set<nat>, seq<bool>)
    decreases |ops|
  {
    if ops == [] then (s, [])
    else
      var (u, b) := SetStep(s, ops[0]);
      var (v, bs) := SetRun(u, ops[1..]);
      (v, [b] + bs)
  }

  /** The table holds exactly the members of `s`, once each. */
  ghost predicate Holds(t: Table, s: set<nat>) {
    Bag(t.slots) == multiset(s)
  }

  lemma HoldsMember(t: Table, s: set<nat>, p: nat)
    requires Holds(t, s) && IsPtr(p)
    ensures p in t.slots <==> p in s
  {
    BagHas(t.slots, p);
  }

  lemma AddOnSetIff(t: Table, s: set<nat>, p: nat)
    requires Inv(t) && Holds(t, s) && IsPtr(p)
    ensures Probe(t.slots, Home(|t.slots|, p), 0, p, true) < |t.slots|
    ensures Holds(Add(t, p).0, s + {p}) && Add(t, p).1 == (p !in s) <==> !Behind(t, p)
  {
    AddIsExact(t, p);
    HoldsMember(t, s, p);
    if p in s {
      assert s + {p} == s;
    } else {
      assert multiset(s + {p}) == multiset(s) + multiset{p};
    }
  }

  lemma DelOnSet(t: Table, s: set<nat>, p: nat)
    requires Inv(t) && Holds(t, s) && IsPtr(p)
    ensures Found(t.slots, p) ==> t.count > 0
    ensures Holds(Del(t, p).0, s - {p}) && Del(t, p).1 == (p in s)
  {
    DelIsExact(t, p);
    HoldsMember(t, s, p);
    if p in s {
      var (u, removed) := Del(t, p);
      assert multiset(s) == multiset(s - {p}) + multiset{p};
      Cancel(Bag(u.slots), multiset(s - {p}), multiset{p});
    } else {
      assert s - {p} == s;
    }
  }

  lemma Cancel(a: multiset<nat>, b: multiset<nat>, c: multiset<nat>)
    requires a + c == b + c
    ensures a == b
  {
    assert a + c - c == a && b + c - c == b;
  }

  /** A call on a table that holds a set behaves as on the set, unless it adds a pointer that is behind a
      tombstone; then, and only then, the pointer is stored twice. */
  lemma StepOnSetIff(t: Table, s: set<nat>, op: Op)
    requires Inv(t) && Holds(t, s) && op.Valid()
    ensures op.OpAdd? ==> Probe(t.slots, Home(|t.slots|, op.p), 0, op.p, true) < |t.slots|
    ensures op.OpDel? && Found(t.slots, op.p) ==> t.count > 0
    ensures Holds(Step(t, op).0, SetStep(s, op).0) && Step(t, op).1 == SetStep(s, op).1
       <==> !(op.OpAdd? && Behind(t, op.p))
  {
    match op
    case OpAdd(p) => AddOnSetIff(t, s, p);
    case OpDel(p) => DelOnSet(t, s, p);
    case OpClear => ClearIsOk(t);
  }

  /** No call of the run adds a pointer that is behind a tombstone. Adding only absent pointers, or adding
      while there are no tombstones, is enough. */
  ghost predicate CleanRun(t: Table, ops: seq<Op>)
    requires Inv(t) && forall k :: 0 <= k < |ops| ==> ops[k].Valid()
    decreases |ops|
  {
    if ops == [] then true
    else
      StepIsOk(t, ops[0]);
      !(ops[0].OpAdd? && Behind(t, ops[0].p)) && CleanRun(Step(t, ops[0]).0, ops[1..])
  }

  /** Every clean run is a run on a set: same members, same results, and `size()` is the cardinality. */
  lemma {:induction false} CleanRunIsSetRun(t: Table, s: set<nat>, ops: seq<Op>)
    requires Inv(t) && Holds(t, s) && forall k :: 0 <= k < |ops| ==> ops[k].Valid()
    requires CleanRun(t, ops)
    ensures var (u, bs) := Run(t, ops);
            Holds(u, SetRun(s, ops).0) && bs == SetRun(s, ops).1 && u.count == |SetRun(s, ops).0|
    decreases |ops|
  {
    if ops != [] {
      StepIsOk(t, ops[0]);
      StepOnSetIff(t, s, ops[0]);
      CleanRunIsSetRun(Step(t, ops[0]).0, SetStep(s, ops[0]).0, ops[1..]);
    }
  }

  /** After every call of the run the table holds the set and the call has returned what it returns on sets. */
  ghost predicate FollowsSet(t: Table, s: set<nat>, ops: seq<Op>)
    requires Inv(t) && forall k :: 0 <= k < |ops| ==> ops[k].Valid()
    decreases |ops|
  {
    if ops == [] then true
    else
      StepIsOk(t, ops[0]);
      var (u, b) := Step(t, ops[0]);
      && Holds(u, SetStep(s, ops[0]).0) && b == SetStep(s, ops[0]).1
      && FollowsSet(u, SetStep(s, ops[0]).0, ops[1..])
  }

  /** A run follows the run on a set all the way exactly when it is clean. */
  lemma {:induction false} CleanRunIff(t: Table, s: set<nat>, ops: seq<Op>)
    requires Inv(t) && Holds(t, s) && forall k :: 0 <= k < |ops| ==> ops[k].Valid()
    ensures FollowsSet(t, s, ops) <==> CleanRun(t, ops)
    decreases |ops|
  {
    if ops != [] {
      StepIsOk(t, ops[0]);
      StepOnSetIff(t, s, ops[0]);
      if !(ops[0].OpAdd? && Behind(t, ops[0].p)) {
        CleanRunIff(Step(t, ops[0]).0, SetStep(s, ops[0]).0, ops[1..]);
      }
    }
  }

  /** A run that adds each pointer only while it is absent is clean; so is one without deletions. */
  lemma {:induction false} WithoutDeletionsClean(t: Table, ops: seq<Op>)
    requires Inv(t) && TOMBSTONE !in t.slots
    requires forall k :: 0 <= k < |ops| ==> ops[k].Valid() && !ops[k].OpDel?
    ensures CleanRun(t, ops)
    decreases |ops|
  {
    if ops != [] {
      StepIsOk(t, ops[0]);
      if ops[0].OpAdd? {
        AddIsExact(t, ops[0].p);
      }
      WithoutDeletionsClean(Step(t, ops[0]).0, ops[1..]);
    }
  }

  ghost predicate AddsAbsentOnly(s: set<nat>, ops: seq<Op>)
    decreases |ops|
  {
    ops == [] || ((ops[0].OpAdd? ==> ops[0].p !in s) && AddsAbsentOnly(SetStep(s, ops[0]).0, ops[1..]))
  }

  lemma {:induction false} AddingAbsentClean(t: Table, s: set<nat>, ops: seq<Op>)
    requires Inv(t) && Holds(t, s) && forall k :: 0 <= k < |ops| ==> ops[k].Valid()
    requires AddsAbsentOnly(s, ops)
    ensures CleanRun(t, ops)
    decreases |ops|
  {
    if ops != [] {
      StepIsOk(t, ops[0]);
      StepOnSetIff(t, s, ops[0]);
      if ops[0].OpAdd? {
        HoldsMember(t, s, ops[0].p);
      }
      AddingAbsentClean(Step(t, ops[0]).0, SetStep(s, ops[0]).0, ops[1..]);
    }
  }

  // ---- equality ----

  /** operator== compares the sizes and looks for each pointer of the first table in the second. */
  lemma EqualMeans(t: Table, u: Table)
    requires Inv(t) && Inv(u)
    ensures Equal(t, u) <==>
              |Bag(t.slots)| == |Bag(u.slots)| && forall x :: x in Bag(t.slots) ==> x in Bag(u.slots)
  {
    forall x | IsPtr(x)
      ensures x in t.slots <==> x in Bag(t.slots)
      ensures Found(u.slots, x) <==> x in Bag(u.slots)
    {
      BagHas(t.slots, x);
      BagHas(u.slots, x);
      FoundIffPresent(u.slots, x);
    }
    forall x | x in Bag(t.slots)
      ensures IsPtr(x)
    {
    }
    if Equal(t, u) {
      forall x | x in Bag(t.slots)
        ensures x in Bag(u.slots)
      {
        var i :| 0 <= i < |t.slots| && t.slots[i] == x;
      }
    }
  }

  /** No pointer is stored twice. */
  ghost predicate Single(t: Table) {
    forall x :: Bag(t.slots)[x] <= 1
  }

  /** The tables contain the same set of pointers. */
  ghost predicate SameMembers(t: Table, u: Table) {
    forall x :: x in Bag(t.slots) <==> x in Bag(u.slots)
  }

  lemma SameSizeInclusion(a: multiset<nat>, b: multiset<nat>)
    requires forall x :: a[x] <= 1
    ensures (|a| == |b| && forall x :: x in a ==> x in b) <==> a == b
  {
    if |a| == |b| && forall x :: x in a ==> x in b {
      assert a <= b;
      assert b == a + (b - a);
      assert |b - a| == 0;
    }
  }

  lemma SingleBags(a: multiset<nat>, b: multiset<nat>)
    requires (forall x :: a[x] <= 1) && (forall x :: x in a <==> x in b)
    ensures a == b <==> forall x :: b[x] <= 1
  {
    if forall x :: b[x] <= 1 {
      forall x
        ensures a[x] == b[x]
      {
        assert x in a <==> x in b;
      }
    }
  }

  /** For a table without repetition, `operator==` tells whether the sets of pointers are the same, with the
      exception of a table that holds the same pointers, some of them more than once. */
  lemma EqualIsSameMembersIff(t: Table, u: Table)
    requires Inv(t) && Inv(u) && Single(t)
    ensures (Equal(t, u) <==> SameMembers(t, u)) <==> (SameMembers(t, u) ==> Single(u))
  {
    EqualMeans(t, u);
    SameSizeInclusion(Bag(t.slots), Bag(u.slots));
    if SameMembers(t, u) {
      SingleBags(Bag(t.slots), Bag(u.slots));
    }
  }

  /** `operator==` tells whether a table has the same set of pointers as any table without repetition exactly
      when it has no repetition itself. */
  lemma EqualDecidesIff(t: Table)
    requires Inv(t)
    ensures Single(t) <==> forall u :: Inv(u) && Single(u) ==> (Equal(t, u) <==> SameMembers(t, u))
  {
    if Single(t) {
      forall u | Inv(u) && Single(u)
        ensures Equal(t, u) <==> SameMembers(t, u)
      {
        EqualIsSameMembersIff(t, u);
      }
    } else {
      var s := set x | x in Bag(t.slots);
      var u := TableOf(s);
      assert SameMembers(t, u) && Single(u);
      EqualMeans(t, u);
      SameSizeInclusion(Bag(u.slots), Bag(t.slots));
      var p :| Bag(t.slots)[p] > 1;
      assert !Equal(t, u);
    }
  }

  /** Against every table that satisfies the invariant, repetitions included, it does so for the empty table only. */
  lemma EqualDecidesAllIff(t: Table)
    requires Inv(t)
    ensures Bag(t.slots) == multiset{} <==> forall u :: Inv(u) ==> (Equal(t, u) <==> SameMembers(t, u))
  {
    if Bag(t.slots) == multiset{} {
      forall u | Inv(u)
        ensures Equal(t, u) <==> SameMembers(t, u)
      {
        EqualMeans(t, u);
        if SameMembers(t, u) {
          assert Bag(u.slots) == multiset{};
        }
      }
    } else {
      var p :| p in Bag(t.slots);
      var u := Rebuilt(t.slots + [p]);
      BagAppend(t.slots, p);
      assert SameMembers(t, u) && |Bag(u.slots)| == |Bag(t.slots)| + 1;
      assert !Equal(t, u);
    }
  }

  /** Equality of the contents, repetitions counted, is decided exactly for tables without repetition. */
  lemma EqualDecidesContentsIff(t: Table)
    requires Inv(t)
    ensures Single(t) <==> forall u :: Inv(u) ==> (Equal(t, u) <==> Bag(t.slots) == Bag(u.slots))
  {
    if Single(t) {
      forall u | Inv(u)
        ensures Equal(t, u) <==> Bag(t.slots) == Bag(u.slots)
      {
        EqualMeans(t, u);
        SameSizeInclusion(Bag(t.slots), Bag(u.slots));
      }
    } else {
      var p :| Bag(t.slots)[p] > 1;
      var u := OneReplaced(t, p);
      assert Inv(u) && Equal(t, u) && Bag(t.slots) != Bag(u.slots);
    }
  }

  // ---- tables with given contents ----

  lemma {:induction false} BelowPow2(n: nat)
    ensures n < Pow2(n)
  {
    if n > 0 {
      BelowPow2(n - 1);
    }
  }

  lemma BagAppend(l: seq<nat>, p: nat)
    requires IsPtr(p)
    ensures Bag(l + [p]) == Bag(l) + multiset{p}
  {
    assert multiset(l + [p]) == multiset(l) + multiset{p};
  }

  lemma BagPadded(l: seq<nat>, n: nat)
    ensures Bag(l + seq(n, _ => 0)) == Bag(l)
  {
    var z := seq(n, _ => 0);
    NullsHoldNothing(n);
    assert multiset(l + z) == multiset(l) + multiset(z);
    assert Bag(l + z) == Bag(l) + Bag(z);
  }

  lemma BagBound(l: seq<nat>)
    ensures |Bag(l)| <= |l|
  {
    assert Bag(l) <= multiset(l);
    assert multiset(l) == Bag(l) + (multiset(l) - Bag(l));
  }

  /** The pointers of `l`, in a table of their own. */
  lemma Rebuilt(l: seq<nat>) returns (u: Table)
    ensures Inv(u) && Bag(u.slots) == Bag(l)
  {
    BelowPow2(|l|);
    var t := l + seq(Pow2(|l|) - |l|, _ => 0);
    BagPadded(l, Pow2(|l|) - |l|);
    BagBound(t);
    RehashKeepsAll(t);
    assert SizeOk(|t|) by {
      assert |t| == Pow2(|l|);
    }
    DoubleSize(|t|);
    u := Table(Rehash(t), |Bag(t)|);
  }

  lemma {:induction false} TableOf(s: set<nat>) returns (u: Table)
    requires forall x :: x in s ==> IsPtr(x)
    ensures Inv(u) && Bag(u.slots) == multiset(s)
    decreases |s|
  {
    if s == {} {
      u := New();
      NewIsOk();
    } else {
      var x :| x in s;
      var v := TableOf(s - {x});
      AddOnSetIff(v, s - {x}, x);
      AddIsExact(v, x);
      HoldsMember(v, s - {x}, x);
      u := Add(v, x).0;
      assert multiset(s) == multiset(s - {x}) + multiset{x};
    }
  }

  lemma ReplaceOne(a: multiset<nat>, b: multiset<nat>, p: nat, q: nat)
    requires a[p] > 1 && p != q && b + multiset{p} == a + multiset{q}
    ensures |a| == |b| && a != b && forall x :: x in a ==> x in b
  {
    assert (b + multiset{p})[p] == (a + multiset{q})[p];
    assert |b + multiset{p}| == |a + multiset{q}|;
    forall x | x in a
      ensures x in b
    {
      assert (b + multiset{p})[x] == (a + multiset{q})[x];
    }
  }

  /** A table like `t`, with one of the copies of `p` replaced by another pointer, compares equal to it. */
  lemma OneReplaced(t: Table, p: nat) returns (u: Table)
    requires Inv(t) && Bag(t.slots)[p] > 1
    ensures Inv(u) && Equal(t, u) && Bag(t.slots) != Bag(u.slots)
  {
    assert p in multiset(t.slots);
    var i :| 0 <= i < |t.slots| && t.slots[i] == p;
    var q: nat := if p == 8 then 16 else 8;
    BagUpdate(t.slots, i, q);
    u := Rebuilt(t.slots[i := q]);
    ReplaceOne(Bag(t.slots), Bag(u.slots), p, q);
    EqualMeans(t, u);
  }

  // ---- a pointer stored twice ----

  lemma FirstAdd()
    ensures Probe([0, 0], 1, 0, 8, true) == 0 && Add(New(), 8) == (Table([0, 8], 1), true)
  {
    assert [0, 0][Slot(2, 1, 0)] == 0;
    assert [0, 0][1 := 8] == [0, 8];
  }

  lemma SecondAdd()
    ensures Probe([0, 8], 1, 0, 40, true) == 1 && Add(Table([0, 8], 1), 40) == (Table([0, 40, 8, 0], 2), true)
  {
    assert [0, 8][Slot(2, 1, 0)] == 8 && [0, 8][Slot(2, 1, 1)] == 0;
    assert Probe([0, 8], 1, 1, 40, true) == 1;
    assert [0, 8][0 := 40] == [40, 8];
    var e := [0, 0, 0, 0];
    assert seq(4, _ => 0) == e;
    assert e[Slot(4, 1, 0)] == 0 && Probe(e, 1, 0, 0, false) == 0;
    assert Place(e, 40) == [0, 40, 0, 0];
    var f := [0, 40, 0, 0];
    assert f[Slot(4, 1, 0)] == 40 && f[Slot(4, 1, 1)] == 0 && Probe(f, 1, 1, 0, false) == 1;
    assert Place(f, 8) == [0, 40, 8, 0];
    assert PlaceAll([40, 8], 1, f) == PlaceAll([40, 8], 2, [0, 40, 8, 0]);
  }

  lemma LastAdd()
    ensures Probe([0, TOMBSTONE, 8, 0], 1, 0, 8, true) == 0
    ensures Add(Table([0, TOMBSTONE, 8, 0], 1), 8) == (Table([0, 8, 8, 0], 2), true)
  {
    var t := [0, TOMBSTONE, 8, 0];
    assert t[Slot(4, 1, 0)] == TOMBSTONE;
    assert t[1 := 8] == [0, 8, 8, 0];
  }

  lemma MiddleDel()
    ensures Found([0, 40, 8, 0], 40)
    ensures Del(Table([0, 40, 8, 0], 2), 40) == (Table([0, TOMBSTONE, 8, 0], 1), true)
  {
    var t := [0, 40, 8, 0];
    assert t[Slot(4, 1, 0)] == 40 && Probe(t, 1, 0, 40, false) == 0;
    assert t[1 := TOMBSTONE] == [0, TOMBSTONE, 8, 0];
  }

  /** A new table, then adding 8 and 40, deleting 40 and adding 8 again: both pointers hash to slot 1 of 4,
      and the last call stops at the tombstone that 40 has left in front of 8, and stores 8 twice. */
  lemma StoredTwice()
    ensures Probe([0, 0], 1, 0, 8, true) == 0 && Probe([0, 8], 1, 0, 40, true) == 1
    ensures Found([0, 40, 8, 0], 40) && Probe([0, TOMBSTONE, 8, 0], 1, 0, 8, true) == 0
    ensures var (t1, b1) := Add(New(), 8);
            t1.slots == [0, 8] && t1.count == 1 && b1 &&
            var (t2, b2) := Add(t1, 40);
            t2.slots == [0, 40, 8, 0] && t2.count == 2 && b2 &&
            var (t3, b3) := Del(t2, 40);
            t3.slots == [0, TOMBSTONE, 8, 0] && t3.count == 1 && b3 &&
            Add(t3, 8) == (Table([0, 8, 8, 0], 2), true)
  {
    FirstAdd();
    SecondAdd();
    MiddleDel();
    LastAdd();
  }

  /** A new table holds nothing, and yet `has` of null is true. */
  lemma NullIsFound()
    ensures Inv(New()) && Bag(New().slots)[0] == 0 && Found(New().slots, 0)
  {
    NewIsOk();
    FoundIffPresent(New().slots, 0);
    assert New().slots[0] == 0;
  }

  lemma EightDeleted()
    ensures Found([0, 8], 8) && Del(Table([0, 8], 1), 8) == (Table([0, TOMBSTONE], 0), true)
  {
    assert [0, 8][Slot(2, 1, 0)] == 8 && Probe([0, 8], 1, 0, 8, false) == 0;
    assert [0, 8][1 := TOMBSTONE] == [0, TOMBSTONE];
  }

  lemma TombstoneAtHome(t: seq<nat>)
    requires t == [0, TOMBSTONE]
    ensures TombstoneAhead(t)
  {
    assert t[Slot(2, Home(2, TOMBSTONE), 0)] == TOMBSTONE;
  }

  /** A new table, then adding and deleting 8: nothing is left, and yet `has` of the tombstone is true. */
  lemma TombstoneIsFound()
    ensures Probe([0, 0], 1, 0, 8, true) == 0 && Found([0, 8], 8)
    ensures var (t1, b1) := Add(New(), 8);
            t1.slots == [0, 8] && t1.count == 1 && b1 &&
            var (t2, b2) := Del(t1, 8);
            t2 == Table([0, TOMBSTONE], 0) && b2 && Bag(t2.slots)[TOMBSTONE] == 0 && Found(t2.slots, TOMBSTONE)
  {
    FirstAdd();
    EightDeleted();
    TombstoneAtHome([0, TOMBSTONE]);
    FoundTombstoneIff([0, TOMBSTONE]);
  }

  lemma AddSixteen()
    ensures Probe([0, 8], 0, 0, 16, true) == 0 && Add(Table([0, 8], 1), 16) == (Table([0, 8, 16, 0], 2), true)
  {
    assert [0, 8][Slot(2, 0, 0)] == 0;
    assert [0, 8][0 := 16] == [16, 8];
    var e := [0, 0, 0, 0];
    assert seq(4, _ => 0) == e;
    assert e[Slot(4, 2, 0)] == 0 && Probe(e, 2, 0, 0, false) == 0;
    assert Place(e, 16) == [0, 0, 16, 0];
    var f := [0, 0, 16, 0];
    assert f[Slot(4, 1, 0)] == 0 && Probe(f, 1, 0, 0, false) == 0;
    assert Place(f, 8) == [0, 8, 16, 0];
    assert PlaceAll([16, 8], 1, f) == PlaceAll([16, 8], 2, [0, 8, 16, 0]);
  }

  lemma Added(t: Table, u: Table, p: nat)
    requires Inv(t) && IsPtr(p) && Probe(t.slots, Home(|t.slots|, p), 0, p, true) < |t.slots|
    ensures Add(t, p) == (u, true) ==> Inv(u) && Bag(u.slots) == Bag(t.slots) + multiset{p}
  {
    AddIsExact(t, p);
  }

  lemma Deleted(t: Table, u: Table, p: nat)
    requires Inv(t) && IsPtr(p) && Found(t.slots, p) && t.count > 0
    ensures Del(t, p) == (u, true) ==> Inv(u) && Bag(t.slots) == Bag(u.slots) + multiset{p}
  {
    DelIsExact(t, p);
  }

  lemma EightOnce()
    ensures Inv(Table([0, 8], 1)) && Bag([0, 8]) == multiset{8}
  {
    NewIsOk();
    FirstAdd();
    Added(New(), Table([0, 8], 1), 8);
  }

  lemma EightAndForty()
    ensures Inv(Table([0, 40, 8, 0], 2)) && Bag([0, 40, 8, 0]) == multiset{8} + multiset{40}
  {
    EightOnce();
    SecondAdd();
    Added(Table([0, 8], 1), Table([0, 40, 8, 0], 2), 40);
  }

  lemma EightBehind()
    ensures Inv(Table([0, TOMBSTONE, 8, 0], 1)) && Bag([0, TOMBSTONE, 8, 0]) == multiset{8}
  {
    EightAndForty();
    MiddleDel();
    Deleted(Table([0, 40, 8, 0], 2), Table([0, TOMBSTONE, 8, 0], 1), 40);
    Cancel(Bag([0, TOMBSTONE, 8, 0]), multiset{8}, multiset{40});
  }

  /** The table after the four calls of StoredTwice. */
  lemma EightTwice()
    ensures Inv(Table([0, 8, 8, 0], 2)) && Bag([0, 8, 8, 0]) == multiset{8, 8}
  {
    EightBehind();
    LastAdd();
    Added(Table([0, TOMBSTONE, 8, 0], 1), Table([0, 8, 8, 0], 2), 8);
  }

  /** The table after adding 8 and 16. */
  lemma EightAndSixteen()
    ensures Inv(Table([0, 8, 16, 0], 2)) && Bag([0, 8, 16, 0]) == multiset{8, 16}
  {
    EightOnce();
    AddSixteen();
    Added(Table([0, 8], 1), Table([0, 8, 16, 0], 2), 16);
  }

  /** {8} against 8 stored twice: the same set, reported different. */
  lemma SameSetUnequal()
    ensures var t, u := Table([0, 8], 1), Table([0, 8, 8, 0], 2);
            Inv(t) && Inv(u) && Single(t) && SameMembers(t, u) && !Equal(t, u)
  {
    EightOnce();
    EightTwice();
  }

  /** 8 stored twice against {8, 16}: different sets, reported the same. */
  lemma DifferentSetsEqual()
    ensures var t, u := Table([0, 8, 8, 0], 2), Table([0, 8, 16, 0], 2);
            Inv(t) && Inv(u) && Single(u) && !SameMembers(t, u) && Equal(t, u)
  {
    var t, u := Table([0, 8, 8, 0], 2), Table([0, 8, 16, 0], 2);
    EightTwice();
    EightAndSixteen();
    EqualMeans(t, u);
    assert 16 in Bag(u.slots) && 16 !in Bag(t.slots);
  }
}
