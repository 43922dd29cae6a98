/** The pointer table keeps its probing invariant and is exact (src/hash/PointerTable.cpp). */
module PointerProofs {
  import opened Words
  import opened PointerModel

  // ---- probing ----

  /** The probe returns the first stop: nothing stopped it before, and a stop at `e` bounds it. */
  lemma {:induction false} ProbeIsFirst(t: seq<nat>, h: nat, d: nat, p: nat, adding: bool)
    requires h < |t|
    ensures forall e :: d <= e < Probe(t, h, d, p, adding) && e < |t| ==> !Stops(t[Slot(|t|, h, e)], p, adding)
    ensures forall e :: d <= e < |t| && Stops(t[Slot(|t|, h, e)], p, adding) ==> Probe(t, h, d, p, adding) <= e
    decreases |t| - d
  {
    if d < |t| && !Stops(t[Slot(|t|, h, d)], p, adding) {
      ProbeIsFirst(t, h, d + 1, p, adding);
    }
  }

  /** A slot that stops the probe anywhere in the table makes it end. */
  lemma ProbeEnds(t: seq<nat>, p: nat, adding: bool, h: nat, i: nat)
    requires h < |t| && i < |t| && Stops(t[i], p, adding)
    ensures Probe(t, h, 0, p, adding) <= Offset(|t|, h, i)
  {
    ProbeIsFirst(t, h, 0, p, adding);
    assert Slot(|t|, h, Offset(|t|, h, i)) == i;
  }

  /** The probe of `has` finds what some slot holds, null slots included. */
  lemma FoundIffPresent(t: seq<nat>, p: nat)
    requires |t| > 0 && Reachable(t) && p != TOMBSTONE
    ensures Found(t, p) <==> p in t
  {
    var h := Home(|t|, p);
    if p in t {
      var i :| 0 <= i < |t| && t[i] == p;
      ProbeEnds(t, p, false, h, i);
      var e := Probe(t, h, 0, p, false);
      assert e < Offset(|t|, h, i) && p != 0 ==> t[Slot(|t|, h, e)] != 0;
    }
  }

  // ---- contents ----

  lemma BagUpdate(t: seq<nat>, i: nat, v: nat)
    requires i < |t|
    ensures Bag(t[i := v]) + (if IsPtr(t[i]) then multiset{t[i]} else multiset{})
         == Bag(t) + (if IsPtr(v) then multiset{v} else multiset{})
  {
    assert multiset(t[i := v]) + multiset{t[i]} == multiset(t) + multiset{v};
  }

  lemma BagHas(t: seq<nat>, p: nat)
    requires IsPtr(p)
    ensures p in t <==> Bag(t)[p] > 0
  {
    assert p in t <==> p in multiset(t);
  }

  /** A tombstone comes before the first null slot of its own probe. */
  ghost predicate TombstoneAhead(t: seq<nat>)
    requires |t| > 0
  {
    exists d | 0 <= d < |t| ::
      && t[Slot(|t|, Home(|t|, TOMBSTONE), d)] == TOMBSTONE
      && forall e :: 0 <= e < d ==> t[Slot(|t|, Home(|t|, TOMBSTONE), e)] != 0
  }

  lemma FoundTombstoneIff(t: seq<nat>)
    requires |t| > 0
    ensures Found(t, TOMBSTONE) <==> TombstoneAhead(t)
  {
    var h := Home(|t|, TOMBSTONE);
    var e := Probe(t, h, 0, TOMBSTONE, false);
    ProbeIsFirst(t, h, 0, TOMBSTONE, false);
    if TombstoneAhead(t) {
      var d :| 0 <= d < |t| && t[Slot(|t|, h, d)] == TOMBSTONE && forall e :: 0 <= e < d ==> t[Slot(|t|, h, e)] != 0;
      assert e <= d;
    } else if e < |t| {
      assert forall c :: 0 <= c < e ==> t[Slot(|t|, h, c)] != 0;
    }
  }

  /** `has` says whether a pointer is in the table for every valid pointer. It does not assert that its argument
      is one: for null it is right exactly in a table without null slots, and for the tombstone exactly when its
      probe meets no tombstone before a null slot. */
  lemma HasIsExactIff(t: seq<nat>, p: nat)
    requires |t| > 0 && Reachable(t)
    ensures (Found(t, p) <==> Bag(t)[p] > 0)
       <==> IsPtr(p) || (p == 0 && 0 !in t) || (p == TOMBSTONE && !TombstoneAhead(t))
  {
    if p == TOMBSTONE {
      FoundTombstoneIff(t);
    } else {
      FoundIffPresent(t, p);
      if p != 0 {
        BagHas(t, p);
      }
    }
  }

  lemma FullTable(t: seq<nat>)
    requires forall i :: 0 <= i < |t| ==> IsPtr(t[i])
    ensures |Bag(t)| == |t|
  {
    assert 0 !in t && TOMBSTONE !in t;
    assert Bag(t) == multiset(t);
  }

  /** If every slot held a pointer, the bag would be as large as the table. */
  lemma FreeSlotExists(t: seq<nat>)
    requires |Bag(t)| < |t|
    ensures exists i :: 0 <= i < |t| && !IsPtr(t[i])
  {
    if forall i :: 0 <= i < |t| ==> IsPtr(t[i]) {
      FullTable(t);
    }
  }

  lemma NullsHoldNothing(n: nat)
    ensures Bag(seq(n, _ => 0)) == multiset{}
  {
    var t := seq(n, _ => 0);
    assert forall x :: x in multiset(t) ==> x in t;
  }

  // ---- placing a pointer ----

  lemma WriteKeepsReachable(t: seq<nat>, i: nat, v: nat, d: nat)
    requires |t| > 0 && Reachable(t) && i < |t| && v != 0 && (v == TOMBSTONE || t[i] == v || !IsPtr(t[i]))
    requires d < |t| && forall e :: 0 <= e < d ==> t[Slot(|t|, Home(|t|, v), e)] != 0
    requires IsPtr(v) ==> i == Slot(|t|, Home(|t|, v), d)
    ensures Reachable(t[i := v])
  {
  }

  /** Without tombstones, a table that is not full has a null slot on every probe. */
  lemma NullAhead(t: seq<nat>, h: nat)
    requires h < |t| && |Bag(t)| < |t| && TOMBSTONE !in t
    ensures Probe(t, h, 0, 0, false) < |t|
  {
    FreeSlotExists(t);
    var j :| 0 <= j < |t| && !IsPtr(t[j]);
    assert t[j] in t;
    ProbeEnds(t, 0, false, h, j);
  }

  /** Placing a pointer in a table that has a null slot but no tombstone. */
  lemma PlaceKeepsAll(t: seq<nat>, p: nat)
    requires |t| > 0 && Reachable(t) && IsPtr(p) && |Bag(t)| < |t| && TOMBSTONE !in t
    ensures Reachable(Place(t, p)) && Bag(Place(t, p)) == Bag(t) + multiset{p} && TOMBSTONE !in Place(t, p)
  {
    var h := Home(|t|, p);
    NullAhead(t, h);
    var d := Probe(t, h, 0, 0, false);
    ProbeIsFirst(t, h, 0, 0, false);
    WriteKeepsReachable(t, Slot(|t|, h, d), p, d);
    BagUpdate(t, Slot(|t|, h, d), p);
  }

  lemma BagStep(t: seq<nat>, i: nat)
    requires i < |t|
    ensures Bag(t[i..]) == (if IsPtr(t[i]) then multiset{t[i]} else multiset{}) + Bag(t[i + 1..])
  {
    assert t[i..] == [t[i]] + t[i + 1..];
  }

  /** Regrouping the three parts of a bag. */
  lemma Regroup(a: multiset<nat>, b: multiset<nat>, c: multiset<nat>)
    ensures (a + b) + c == a + (b + c)
  {
  }

  lemma {:induction false} PlaceAllKeepsAll(t: seq<nat>, i: nat, into: seq<nat>)
    requires i <= |t| && |into| > 0 && Reachable(into) && TOMBSTONE !in into
    requires |Bag(into)| + (|t| - i) <= |into|
    ensures Reachable(PlaceAll(t, i, into)) && TOMBSTONE !in PlaceAll(t, i, into)
    ensures Bag(PlaceAll(t, i, into)) == Bag(into) + Bag(t[i..])
    decreases |t| - i
  {
    if i < |t| {
      BagStep(t, i);
      if IsPtr(t[i]) {
        PlaceKeepsAll(into, t[i]);
        PlaceAllKeepsAll(t, i + 1, Place(into, t[i]));
        Regroup(Bag(into), multiset{t[i]}, Bag(t[i + 1..]));
      } else {
        PlaceAllKeepsAll(t, i + 1, into);
      }
    }
  }

  /** `rehash` doubles the table, keeps every pointer as often as it was there and drops the tombstones. */
  lemma RehashKeepsAll(t: seq<nat>)
    requires |t| > 0
    ensures var r := Rehash(t);
            |r| == 2 * |t| && Reachable(r) && TOMBSTONE !in r && Bag(r) == Bag(t)
  {
    NullsHoldNothing(2 * |t|);
    PlaceAllKeepsAll(t, 0, seq(2 * |t|, _ => 0));
    assert t[0..] == t;
  }

  // ---- the operations ----

  lemma NewIsOk()
    ensures Inv(New()) && Bag(New().slots) == multiset{} && |New().slots| == 2
  {
    assert Pow2(1) == 2;
    assert [0, 0] == seq(2, _ => 0);
    NullsHoldNothing(2);
  }

  lemma ClearIsOk(t: Table)
    requires Inv(t)
    ensures Inv(Clear(t)) && Bag(Clear(t).slots) == multiset{} && |Clear(t).slots| == |t.slots|
  {
    NullsHoldNothing(|t.slots|);
  }

  /** The probe of `add`, which has no wrap-around check, ends: at least half of the slots are free. */
  lemma AddTerminates(t: Table, p: nat)
    requires Inv(t) && IsPtr(p)
    ensures Probe(t.slots, Home(|t.slots|, p), 0, p, true) < |t.slots|
  {
    FreeSlotExists(t.slots);
    var i :| 0 <= i < |t.slots| && !IsPtr(t.slots[i]);
    ProbeEnds(t.slots, p, true, Home(|t.slots|, p), i);
  }

  /** A pointer that is present is counted. */
  lemma PresentIsCounted(t: Table, p: nat)
    requires Inv(t) && IsPtr(p) && p in t.slots
    ensures t.count > 0 && Bag(t.slots)[p] > 0
  {
    BagHas(t.slots, p);
    assert p in Bag(t.slots);
  }

  /** `add` stops at the first tombstone on its way, so a pointer further on is not seen. */
  predicate Behind(t: Table, p: nat)
    requires |t.slots| > 0 && Probe(t.slots, Home(|t.slots|, p), 0, p, true) < |t.slots|
  {
    p in t.slots && t.slots[Target(t.slots, p, true)] == TOMBSTONE
  }

  lemma StoreKeepsAll(t: seq<nat>, p: nat)
    requires |t| > 0 && Reachable(t) && IsPtr(p) && Probe(t, Home(|t|, p), 0, p, true) < |t|
    requires t[Target(t, p, true)] != p
    ensures var s := t[Target(t, p, true) := p];
            Reachable(s) && Bag(s) == Bag(t) + multiset{p} && (TOMBSTONE !in t ==> TOMBSTONE !in s)
  {
    ProbeIsFirst(t, Home(|t|, p), 0, p, true);
    WriteKeepsReachable(t, Target(t, p, true), p, Probe(t, Home(|t|, p), 0, p, true));
    BagUpdate(t, Target(t, p, true), p);
  }

  lemma SettleIsOk(s: seq<nat>, count: nat, retries: nat)
    requires SizeOk(|s|) && |s| >= 2 && Reachable(s) && count == |Bag(s)| <= |s| / 2 + 1
    ensures var r := Settle(s, count, retries);
            Inv(Table(r, count)) && Bag(r) == Bag(s) && (TOMBSTONE !in s ==> TOMBSTONE !in r)
  {
    DoubleSize(|s|);
    RehashKeepsAll(s);
  }

  /** `add` keeps the invariant; it says false and changes nothing, or says true and adds one copy.
      It says false exactly for the pointers that are present and not behind a tombstone. */
  lemma AddIsExact(t: Table, p: nat)
    requires Inv(t) && IsPtr(p)
    ensures Probe(t.slots, Home(|t.slots|, p), 0, p, true) < |t.slots|
    ensures var (u, added) := Add(t, p);
            && Inv(u)
            && Bag(u.slots) == Bag(t.slots) + (if added then multiset{p} else multiset{})
            && (added <==> p !in t.slots || Behind(t, p))
            && (TOMBSTONE !in t.slots ==> TOMBSTONE !in u.slots && !Behind(t, p))
  {
    AddTerminates(t, p);
    var i := Target(t.slots, p, true);
    if t.slots[i] != p {
      StoreKeepsAll(t.slots, p);
      SettleIsOk(t.slots[i := p], t.count + 1, Probe(t.slots, Home(|t.slots|, p), 0, p, true));
      if p in t.slots {
        PresentStops(t.slots, p);
      }
    }
  }

  /** If the probe of `add` ends at a null slot, the pointer is absent. */
  lemma PresentStops(t: seq<nat>, p: nat)
    requires |t| > 0 && Reachable(t) && IsPtr(p) && p in t
    ensures Probe(t, Home(|t|, p), 0, p, true) < |t| && t[Target(t, p, true)] != 0
  {
    var h := Home(|t|, p);
    var i :| 0 <= i < |t| && t[i] == p;
    ProbeEnds(t, p, true, h, i);
    ProbeIsFirst(t, h, 0, p, true);
    var e := Probe(t, h, 0, p, true);
    if e < Offset(|t|, h, i) {
      assert t[Slot(|t|, h, e)] != 0;
    }
  }

  /** `del` keeps the invariant, removes one copy if there is one, and says whether there was. */
  lemma DelIsExact(t: Table, p: nat)
    requires Inv(t) && IsPtr(p)
    ensures Found(t.slots, p) ==> t.count > 0
    ensures var (u, removed) := Del(t, p);
            && Inv(u)
            && (removed <==> p in t.slots)
            && Bag(t.slots) == Bag(u.slots) + (if removed then multiset{p} else multiset{})
            && (removed ==> TOMBSTONE in u.slots)
  {
    FoundIffPresent(t.slots, p);
    if Found(t.slots, p) {
      PresentIsCounted(t, p);
      var i := Target(t.slots, p, false);
      WriteKeepsReachable(t.slots, i, TOMBSTONE, 0);
      BagUpdate(t.slots, i, TOMBSTONE);
      assert t.slots[i := TOMBSTONE][i] == TOMBSTONE;
    }
  }

  // ---- when add grows the table ----

  /** Slot number `d` of the probe for `p`. */
  lemma ProbeSlot(n: nat, p: nat, d: nat)
    requires d < n
    ensures Slot(n, Home(n, p), d) == (p / 8 + d) % n
  {
    var h, q := p / 8 % n, p / 8 / n;
    assert p / 8 + d == q * n + (h + d);
    if h + d < n {
      DivModUnique(p / 8 + d, n, q, h + d);
    } else {
      assert (q + 1) * n == q * n + n;
      DivModUnique(p / 8 + d, n, q + 1, h + d - n);
    }
  }

  /** What slot number `d` of the probe for `p` holds. */
  function Probed(t: seq<nat>, p: nat, d: nat): nat
    requires |t| > 0
  {
    t[(p / 8 + d) % |t|]
  }

  /** The first `e` slots of the probe for `p` hold other pointers. */
  ghost predicate TakenByOthers(t: seq<nat>, p: nat, e: nat)
    requires |t| > 0
  {
    forall d :: 0 <= d < e ==> IsPtr(Probed(t, p, d)) && Probed(t, p, d) != p
  }

  lemma ProbedStops(t: seq<nat>, p: nat, d: nat)
    requires d < |t| && IsPtr(p)
    ensures Stops(t[Slot(|t|, Home(|t|, p), d)], p, true) <==> !IsPtr(Probed(t, p, d)) || Probed(t, p, d) == p
  {
    ProbeSlot(|t|, p, d);
  }

  lemma ProbeTaken(t: seq<nat>, p: nat, e: nat)
    requires |t| > 0 && IsPtr(p) && e <= |t|
    ensures TakenByOthers(t, p, e) <==> Probe(t, Home(|t|, p), 0, p, true) >= e
  {
    var h := Home(|t|, p);
    var f := Probe(t, h, 0, p, true);
    ProbeIsFirst(t, h, 0, p, true);
    if f < e {
      ProbedStops(t, p, f);
    } else {
      forall d | 0 <= d < e
        ensures IsPtr(Probed(t, p, d)) && Probed(t, p, d) != p
      {
        ProbedStops(t, p, d);
      }
    }
  }

  /** A pointer that add stores goes to the first slot of its probe that is free, and the table doubles exactly if
      the first eight slots were taken or if more than half of the slots hold pointers now. */
  lemma AddGrowsIff(t: Table, p: nat)
    requires Inv(t) && IsPtr(p)
    ensures Probe(t.slots, Home(|t.slots|, p), 0, p, true) < |t.slots|
    ensures var (u, added) := Add(t, p); var n := |t.slots|;
            && (!added ==> u == t)
            && (added ==>
                  && u.count == t.count + 1
                  && |u.slots| == if (n >= 8 && TakenByOthers(t.slots, p, 8)) || t.count + 1 > n / 2 then 2 * n else n)
  {
    AddTerminates(t, p);
    if |t.slots| >= 8 {
      ProbeTaken(t.slots, p, 8);
    }
  }

  /** While the table does not grow, everything else stays where it is. */
  lemma AddStoresFirst(t: Table, p: nat)
    requires Inv(t) && IsPtr(p)
    ensures Probe(t.slots, Home(|t.slots|, p), 0, p, true) < |t.slots|
    ensures var (u, added) := Add(t, p);
            added && |u.slots| == |t.slots| ==>
              exists d :: 0 <= d < |t.slots| && TakenByOthers(t.slots, p, d)
                && !IsPtr(Probed(t.slots, p, d)) && u.slots == t.slots[(p / 8 + d) % |t.slots| := p]
  {
    AddTerminates(t, p);
    var d := Probe(t.slots, Home(|t.slots|, p), 0, p, true);
    ProbeTaken(t.slots, p, d);
    ProbeSlot(|t.slots|, p, d);
  }
}
