/** Runs of the chained hash table: where buckets are found, how large the table gets, and reference counters
    in the `info` words (include/hash/tables.h). */
module BucketRuns {
  import opened Lists
  import opened Words
  import opened BucketModel
  import opened Splitting
  import opened RefCounter

  /** A table, with the hash value and the `info` word of every bucket. */
  datatype World = World(t: Table, hash: map<nat, nat>, info: map<nat, nat>)

  datatype Op =
    | OpInsert(b: nat, h: Word, w: Word)
    | OpRemove(b: nat)
    | OpEnable
    | OpDisable
    | OpReset
    | OpIncRef(b: nat, n: nat)
    | OpDecRef(b: nat, n: nat)

  function Members(chains: seq<seq<nat>>): set<nat> {
    set i, x | 0 <= i < |chains| && x in chains[i] :: x
  }

  // ---- the operations ----

  /** needsRehash. */
  predicate NeedsRehash(size: nat, nb: nat, shift: nat)
    requires size > 0
  {
    nb > Shr(size - 1, shift)
  }

  /** incBuckets. */
  function IncBuckets(t: Table, info: map<nat, nat>): Table
    requires |t.chains| > 0
  {
    var u := t.(nbBuckets := t.nbBuckets + 1);
    if NeedsRehash(|u.chains|, u.nbBuckets, u.shiftThreshold) && u.mayRehash then
      u.(chains := Rehashed(u.chains, info), mayRehash := 2 * |u.chains| - 1 < MAX_TABLE_SIZE - 1)
    else u
  }

  function Enable(t: Table): Table {
    t.(mayRehash := |t.chains| - 1 < MAX_TABLE_SIZE - 1)
  }

  /** reset: forgets the buckets. */
  function Emptied(t: Table): Table {
    t.(nbBuckets := 0, chains := seq(|t.chains|, _ => []))
  }

  function Remove(l: seq<nat>, b: nat): seq<nat>
    decreases |l|
  {
    if l == [] then [] else if l[0] == b then l[1..] else [l[0]] + Remove(l[1..], b)
  }

  predicate Correct(s: World, op: Op)
    requires |s.t.chains| > 0
  {
    match op
    case OpInsert(b, h, w) => b != 0 && b !in Members(s.t.chains) && Agrees(w, h, |s.t.chains|)
    case OpRemove(b) => b in Members(s.t.chains) && b in s.hash && s.t.nbBuckets > 0
    case OpIncRef(b, n) => n <= 32 && b in s.info && s.info[b] < WORD && Pow2(n) <= |s.t.chains|
    case OpDecRef(b, n) =>
      n <= 32 && b in s.info && s.info[b] < WORD && Pow2(n) <= |s.t.chains| && Referenced(s.info[b], n)
    case _ => true
  }

  function Step(s: World, op: Op): World
    requires |s.t.chains| > 0 && Correct(s, op)
  {
    var size := |s.t.chains|;
    match op
    case OpInsert(b, h, w) =>
      var t := s.t.(chains := s.t.chains[h % size := [b] + s.t.chains[h % size]]);
      World(IncBuckets(t, s.info[b := w]), s.hash[b := h], s.info[b := w])
    case OpRemove(b) =>
      var i := s.hash[b] % size;
      s.(t := s.t.(chains := s.t.chains[i := Remove(s.t.chains[i], b)], nbBuckets := s.t.nbBuckets - 1))
    case OpEnable => s.(t := Enable(s.t))
    case OpDisable => s.(t := s.t.(mayRehash := false))
    case OpReset => s.(t := Emptied(s.t))
    case OpIncRef(b, n) => s.(info := s.info[b := IncRef(s.info[b], n)])
    case OpDecRef(b, n) => s.(info := s.info[b := DecRef(s.info[b], n)])
  }

  // ---- members ----

  /** A bucket of the table is found in the chain that the mask selects, and nowhere else. */
  lemma MemberIsFound(t: Table, hash: map<nat, nat>, info: map<nat, nat>, x: nat)
    requires Inv(t, hash, info)
    ensures x in Members(t.chains) ==> x in hash && x in t.chains[hash[x] % |t.chains|]
    ensures forall i :: 0 <= i < |t.chains| && x in t.chains[i] ==> x in hash && i == hash[x] % |t.chains|
  {
  }

  lemma {:induction false} LengthUpdate(chains: seq<seq<nat>>, i: nat, l: seq<nat>, n: nat)
    requires i < |chains| && n <= |chains|
    ensures Length(chains[i := l], n) == Length(chains, n) + if i < n then |l| - |chains[i]| else 0
  {
    if n > 0 {
      LengthUpdate(chains, i, l, n - 1);
    }
  }

  lemma {:induction false} RemoveOne(l: seq<nat>, b: nat)
    requires NoRepeat(l)
    ensures NoRepeat(Remove(l, b)) && forall x :: x in Remove(l, b) <==> x in l && x != b
    ensures |Remove(l, b)| == |l| - if b in l then 1 else 0
    decreases |l|
  {
    if l != [] {
      assert NoRepeat(l[1..]) && l[0] !in l[1..];
      assert l == [l[0]] + l[1..];
      RemoveOne(l[1..], b);
    }
  }

  lemma MembersOfUpdate(chains: seq<seq<nat>>, i: nat, l: seq<nat>)
    requires i < |chains|
    requires forall j, x :: 0 <= j < |chains| && j != i && x in chains[j] ==> x !in chains[i]
    ensures forall x :: x in Members(chains[i := l]) <==> x in l || (x in Members(chains) && x !in chains[i])
  {
    var r := chains[i := l];
    forall x | x in l
      ensures x in Members(r)
    {
      assert x in r[i];
    }
    forall x | x in Members(chains) && x !in chains[i]
      ensures x in Members(r)
    {
      var j :| 0 <= j < |chains| && x in chains[j];
      assert x in r[j];
    }
    forall x | x in Members(r)
      ensures x in l || (x in Members(chains) && x !in chains[i])
    {
      var j :| 0 <= j < |r| && x in r[j];
    }
  }

  lemma KeptByRehash(chains: seq<seq<nat>>, info: map<nat, nat>, x: nat)
    requires x in Members(chains)
    ensures x in Members(Rehashed(chains, info))
  {
    var r := Rehashed(chains, info);
    var i :| 0 <= i < |chains| && x in chains[i];
    SpillMembers(chains[i], [], High(info, |chains|), false, x);
    SpillMembers(chains[i], [], High(info, |chains|), true, x);
    assert x in r[i] || x in r[i + |chains|];
  }

  lemma OnlyFromRehash(chains: seq<seq<nat>>, info: map<nat, nat>, x: nat)
    requires x in Members(Rehashed(chains, info))
    ensures x in Members(chains)
  {
    var r := Rehashed(chains, info);
    var i :| 0 <= i < |r| && x in r[i];
    var j := if i < |chains| then i else i - |chains|;
    SpillMembers(chains[j], [], High(info, |chains|), i >= |chains|, x);
  }

  lemma MembersOfRehashed(chains: seq<seq<nat>>, info: map<nat, nat>)
    ensures Members(Rehashed(chains, info)) == Members(chains)
  {
    forall x | x in Members(chains)
      ensures x in Members(Rehashed(chains, info))
    {
      KeptByRehash(chains, info, x);
    }
    forall x | x in Members(Rehashed(chains, info))
      ensures x in Members(chains)
    {
      OnlyFromRehash(chains, info, x);
    }
  }

  // ---- one step ----

  lemma IncBucketsOk(t: Table, hash: map<nat, nat>, info: map<nat, nat>)
    requires |t.chains| > 0 && Inv(t.(nbBuckets := t.nbBuckets + 1), hash, info)
    ensures Inv(IncBuckets(t, info), hash, info)
    ensures Members(IncBuckets(t, info).chains) == Members(t.chains)
  {
    var u := t.(nbBuckets := t.nbBuckets + 1);
    RehashKeepsInv(u, hash, info);
    MembersOfRehashed(u.chains, info);
  }

  lemma LinkedIn(s: World, b: nat, h: Word, w: Word)
    requires Inv(s.t, s.hash, s.info) && Correct(s, OpInsert(b, h, w))
    ensures var i := h % |s.t.chains|;
            var t := s.t.(chains := s.t.chains[i := [b] + s.t.chains[i]]);
            && Inv(t.(nbBuckets := t.nbBuckets + 1), s.hash[b := h], s.info[b := w])
            && Members(t.chains) == Members(s.t.chains) + {b}
  {
    var size := |s.t.chains|;
    var i := h % size;
    var l := s.t.chains[i];
    forall j | 0 <= j < size
      ensures b !in s.t.chains[j]
    {
    }
    LengthUpdate(s.t.chains, i, [b] + l, size);
    MembersOfUpdate(s.t.chains, i, [b] + l);
    assert NoRepeat([b] + l);
    var chains := s.t.chains[i := [b] + l];
    forall j, x | 0 <= j < size && x in chains[j]
      ensures Belongs(x, j, size, s.hash[b := h], s.info[b := w])
    {
      assert x == b || x in s.t.chains[j];
    }
    assert forall x :: x in Members(chains) <==> x in Members(s.t.chains) + {b};
  }

  lemma TakenOut(s: World, b: nat)
    requires Inv(s.t, s.hash, s.info) && Correct(s, OpRemove(b))
    ensures Inv(Step(s, OpRemove(b)).t, s.hash, s.info)
    ensures Members(Step(s, OpRemove(b)).t.chains) == Members(s.t.chains) - {b}
  {
    var size := |s.t.chains|;
    var i := s.hash[b] % size;
    var l := s.t.chains[i];
    MemberIsFound(s.t, s.hash, s.info, b);
    RemoveOne(l, b);
    LengthUpdate(s.t.chains, i, Remove(l, b), size);
    MembersOfUpdate(s.t.chains, i, Remove(l, b));
    var chains := s.t.chains[i := Remove(l, b)];
    assert forall j, x :: 0 <= j < size && x in chains[j] ==> x in s.t.chains[j];
    assert forall x :: x in Members(chains) <==> x in Members(s.t.chains) - {b};
  }

  lemma EmptiedIsOk(t: Table, hash: map<nat, nat>, info: map<nat, nat>)
    requires Inv(t, hash, info)
    ensures Inv(Emptied(t), hash, info) && Members(Emptied(t).chains) == {}
  {
    var chains := Emptied(t).chains;
    LengthIsWeight(chains, |chains|);
    WeightEmpty(chains, |chains|, One);
  }

  /** Overwriting one `info` word by one with the same hash bits. */
  lemma InfoChanged(s: World, b: nat, w: nat)
    requires Inv(s.t, s.hash, s.info) && b in s.info && Agrees(w, s.info[b], |s.t.chains|)
    ensures Inv(s.t, s.hash, s.info[b := w])
  {
  }

  function MembersAfter(m: set<nat>, op: Op): set<nat> {
    match op
    case OpInsert(b, h, w) => m + {b}
    case OpRemove(b) => m - {b}
    case OpReset => {}
    case _ => m
  }

  /** Every operation keeps the invariant, and only insertion, removal and reset change what is in the table. */
  lemma StepKeepsInv(s: World, op: Op)
    requires Inv(s.t, s.hash, s.info) && Correct(s, op)
    ensures var r := Step(s, op);
            Inv(r.t, r.hash, r.info) && Members(r.t.chains) == MembersAfter(Members(s.t.chains), op)
  {
    match op
    case OpInsert(b, h, w) =>
      LinkedIn(s, b, h, w);
      var i := h % |s.t.chains|;
      IncBucketsOk(s.t.(chains := s.t.chains[i := [b] + s.t.chains[i]]), s.hash[b := h], s.info[b := w]);
    case OpRemove(b) => TakenOut(s, b);
    case OpIncRef(b, n) => CounterOk(s, b, n);
    case OpDecRef(b, n) => CounterOk(s, b, n);
    case OpReset => EmptiedIsOk(s.t, s.hash, s.info);
    case _ =>
  }

  lemma CounterOk(s: World, b: nat, n: nat)
    requires Inv(s.t, s.hash, s.info) && b in s.info && s.info[b] < WORD && Pow2(n) <= |s.t.chains|
    ensures n <= 32 ==> Inv(s.t, s.hash, s.info[b := IncRef(s.info[b], n)])
    ensures Referenced(s.info[b], n) ==> Inv(s.t, s.hash, s.info[b := DecRef(s.info[b], n)])
  {
    var k: nat :| |s.t.chains| == Pow2(k);
    Pow2Monotone(n, k);
    if n <= 32 {
      IncStays(s.info[b], n, Pow2(n));
      CoarserQuotient(s.info[b], IncRef(s.info[b], n), n, k);
      InfoChanged(s, b, IncRef(s.info[b], n));
    }
    if Referenced(s.info[b], n) {
      DecKeepsHashBits(s.info[b], n, k);
      InfoChanged(s, b, DecRef(s.info[b], n));
    }
  }

  // ---- runs ----

  /** Each operation is used as documented in the state it meets. */
  predicate CorrectRun(s: World, ops: seq<Op>)
    requires |s.t.chains| > 0
    decreases |ops|
  {
    ops == [] ||
    (Correct(s, ops[0]) && |Step(s, ops[0]).t.chains| > 0 && CorrectRun(Step(s, ops[0]), ops[1..]))
  }

  function After(s: World, ops: seq<Op>): World
    requires |s.t.chains| > 0 && CorrectRun(s, ops)
    decreases |ops|
  {
    if ops == [] then s else After(Step(s, ops[0]), ops[1..])
  }

  function MembersAfterAll(m: set<nat>, ops: seq<Op>): set<nat>
    decreases |ops|
  {
    if ops == [] then m else MembersAfterAll(MembersAfter(m, ops[0]), ops[1..])
  }

  /** Over every run: the size stays a power of two, `nbBuckets` is the total length of the chains, the
      buckets are those inserted and not removed, and each is found where the mask points. */
  lemma {:induction false} EveryRunIsOk(s: World, ops: seq<Op>)
    requires Inv(s.t, s.hash, s.info) && CorrectRun(s, ops)
    ensures var r := After(s, ops);
            && Inv(r.t, r.hash, r.info)
            && Members(r.t.chains) == MembersAfterAll(Members(s.t.chains), ops)
            && forall x :: x in Members(r.t.chains) ==> x in r.hash && x in r.t.chains[r.hash[x] % |r.t.chains|]
    decreases |ops|
  {
    if ops == [] {
      forall x | x in Members(s.t.chains)
        ensures x in s.hash && x in s.t.chains[s.hash[x] % |s.t.chains|]
      {
        MemberIsFound(s.t, s.hash, s.info, x);
      }
    } else {
      StepKeepsInv(s, ops[0]);
      EveryRunIsOk(Step(s, ops[0]), ops[1..]);
    }
  }
}
