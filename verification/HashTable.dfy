/** The chained hash tables as the source has them: cells and buckets updated in place
    (include/base/linkable.h, include/hash/tables.h, src/hash/tables.cpp). */
module HashTable {
  import opened Lists
  import opened Words
  import opened Linkable
  import opened BucketModel
  import opened BucketRuns
  import opened Relink
  import opened Frames
  import RefCounter

  /** Where a member is, and that it may be removed. */
  lemma Locate(s: World, b: nat) returns (k: nat)
    requires Inv(s.t, s.hash, s.info) && b in Members(s.t.chains)
    ensures b in s.hash && Correct(s, OpRemove(b))
    ensures var l := s.t.chains[s.hash[b] % |s.t.chains|]; k < |l| && l[k] == b
  {
    MemberIsFound(s.t, s.hash, s.info, b);
    var i := s.hash[b] % |s.t.chains|;
    k :| 0 <= k < |s.t.chains[i]| && s.t.chains[i][k] == b;
    LengthPositive(s.t.chains, i, |s.t.chains|);
  }

  lemma {:induction false} LengthPositive(chains: seq<seq<nat>>, i: nat, n: nat)
    requires i < n <= |chains| && chains[i] != []
    ensures Length(chains, n) > 0
  {
    if i < n - 1 {
      LengthPositive(chains, i, n - 1);
    }
  }

  /** The back-pointer invariant at one bucket: the cell it remembers points at it. */
  lemma DoublyLinked(h: Heap, table: nat, chains: seq<seq<nat>>, i: nat, k: nat)
    requires Stored(h, table, 0, chains, 0, true) && i < |chains| && k < |chains[i]| && NoRepeat(chains[i])
    ensures var b := chains[i][k];
            && b in h.previous && At(h, h.previous[b]) == b && h.previous[b] != NextOf(b)
            && h.previous[b] == Pointer(Slot(table, i), chains[i], k)
  {
    assert Hangs(h, Slot(table, 0 + i), chains[i], true);
    ChainAt(h, Slot(table, 0 + i), chains[i], true, k);
  }

  lemma {:induction false} RemoveIsWithout(l: seq<nat>, k: nat)
    requires k < |l| && NoRepeat(l)
    ensures Remove(l, l[k]) == Without(l, k)
    decreases |l|
  {
    if k > 0 {
      assert NoRepeat(l[1..]) && l[1..][k - 1] == l[k];
      RemoveIsWithout(l[1..], k - 1);
    }
  }

  /** Taking one bucket out of its chain leaves all chains of the table in memory. */
  lemma LeaveChain(h: Heap, g: Heap, table: nat, chains: seq<seq<nat>>, i: nat, k: nat, hash: map<nat, nat>,
                   double: bool)
    requires Stored(h, table, 0, chains, 0, double) && ChainsOk(chains, hash, h.info)
    requires i < |chains| && k < |chains[i]|
    requires Bypassed(h, g, Slot(table, i), chains[i], double, k)
    ensures Stored(g, table, 0, chains[i := Remove(chains[i], chains[i][k])], 0, double)
  {
    var l, c := chains[i], Slot(table, i);
    assert Hangs(h, Slot(table, 0 + i), l, double);
    RemoveIsWithout(l, k);
    BypassRemoves(h, g, c, l, double, k);
    ChainsAreApart(chains, hash, h.info);
    forall j | 0 <= j < |chains| && j != i
      ensures Hangs(g, Slot(table, 0 + j), chains[j], double)
    {
      BypassElsewhere(h, g, c, l, double, k, Slot(table, 0 + j), chains[j]);
    }
  }

  lemma EnterChain(h: Heap, table: nat, chains: seq<seq<nat>>, i: nat, b: nat, hash: map<nat, nat>, double: bool)
    requires Stored(h, table, 0, chains, 0, double) && ChainsOk(chains, hash, h.info)
    requires i < |chains| && b != 0 && b !in Members(chains)
    ensures Stored(Link(h, b, Slot(table, i), double), table, 0, chains[i := [b] + chains[i]], 0, double)
  {
    var c := Slot(table, i);
    var g := Link(h, b, c, double);
    forall j | 0 <= j < |chains|
      ensures b !in chains[j]
    {
    }
    assert Hangs(h, Slot(table, 0 + i), chains[i], double);
    LinkHere(h, b, c, double, chains[i]);
    forall j | 0 <= j < |chains| && j != i
      ensures Hangs(g, Slot(table, 0 + j), chains[j], double)
    {
      assert Hangs(h, Slot(table, 0 + j), chains[j], double);
      NoNullInChain(h, Slot(table, 0 + j), chains[j], double);
      ChainsAreApart(chains, hash, h.info);
      if chains[i] != [] {
        assert chains[i][0] in chains[i];
      }
      LinkElsewhere(h, b, c, double, Slot(table, 0 + j), chains[j]);
    }
  }

  /** Both operations stay within the array and the buckets of the table. */
  lemma EnterWithin(h: Heap, table: nat, chains: seq<seq<nat>>, i: nat, b: nat, double: bool)
    requires Stored(h, table, 0, chains, 0, double) && i < |chains|
    ensures Within(h, Link(h, b, Slot(table, i), double), {table}, Members(chains) + {b})
  {
    assert Hangs(h, Slot(table, 0 + i), chains[i], double);
    var x := At(h, Slot(table, i));
    assert x != 0 ==> x in chains[i];
    LinkWithin(h, b, Slot(table, i), double, {table}, Members(chains) + {b});
  }

  lemma LeaveWithin(h: Heap, g: Heap, table: nat, chains: seq<seq<nat>>, i: nat, k: nat, double: bool)
    requires Stored(h, table, 0, chains, 0, double) && i < |chains| && k < |chains[i]|
    requires Bypassed(h, g, Slot(table, i), chains[i], double, k)
    requires g.info == h.info && (!double ==> g.previous == h.previous)
    ensures Within(h, g, {table}, Members(chains))
  {
    assert Hangs(h, Slot(table, 0 + i), chains[i], double);
    BypassWithin(h, g, table, i, chains[i], double, k, Members(chains));
  }

  /** The memory that buckets and arrays of buckets live in. */
  class Memory {
    var cells: map<Cell, nat>
    var previous: map<nat, Cell>
    var info: map<nat, nat>

    function Model(): Heap
      reads this
    {
      Heap(cells, previous, info)
    }

    constructor ()
      ensures Model() == Heap(map[], map[], map[])
    {
      cells, previous, info := map[], map[], map[];
    }

    function Get(c: Cell): nat
      reads this
    {
      At(Model(), c)
    }

    method Set(c: Cell, b: nat)
      modifies this`cells
      ensures cells == old(cells)[c := b]
    {
      cells := cells[c := b];
    }

    /** SingleLinkable::link and DoubleLinkable::link. */
    method Link(b: nat, fromWhere: Cell, double: bool)
      requires b != 0
      modifies this`cells, this`previous
      ensures Model() == Linkable.Link(old(Model()), b, fromWhere, double)
    {
      if double {
        previous := previous[b := fromWhere];
      }
      var next := Get(fromWhere);
      Set(NextOf(b), next);
      if double && next != 0 {
        previous := previous[next := NextOf(b)];
      }
      Set(fromWhere, b);
    }

    /** SingleLinkable::unlink. */
    method UnlinkFrom(b: nat, fromWhere: Cell)
      requires Get(fromWhere) == b
      modifies this`cells
      ensures Model() == Linkable.UnlinkFrom(old(Model()), b, fromWhere)
    {
      Set(fromWhere, Get(NextOf(b)));
    }

    /** DoubleLinkable::unlink. Its assertion is a precondition here. */
    method Unlink(b: nat)
      requires b in previous && Get(previous[b]) == b && previous[b] != NextOf(b)
      modifies this`cells, this`previous
      ensures Model() == Linkable.Unlink(old(Model()), b)
    {
      var next := Get(NextOf(b));
      Set(previous[b], next);
      if next != 0 {
        previous := previous[next := previous[b]];
      }
    }

    /** incRef. The mask of the counter is 2^n - 1. */
    method IncRef(b: nat, n: nat)
      requires b in info && info[b] < WORD && n <= 32
      modifies this`info
      ensures info == old(info)[b := RefCounter.IncRef(old(info[b]), n)]
      ensures var w, p := old(info[b]), Pow2(n);
              info[b] / p == w / p && info[b] % p == if w % p == p - 1 then w % p else w % p + 1
    {
      RefCounter.Counts(info[b], n, Pow2(n));
      var mask := Pow2(n) - 1;
      if And(info[b], mask) != mask {
        info := info[b := (info[b] + 1) % WORD];
      }
    }

    /** decRef, which says whether the counter is down to zero. */
    method DecRef(b: nat, n: nat) returns (zero: bool)
      requires b in info && info[b] < WORD && n <= 32 && RefCounter.Referenced(info[b], n)
      modifies this`info
      ensures info == old(info)[b := RefCounter.DecRef(old(info[b]), n)]
      ensures var w, p := old(info[b]), Pow2(n);
              && info[b] / p == w / p && info[b] % p == (if w % p == p - 1 then w % p else w % p - 1)
              && (zero <==> n > 0 && info[b] % p == 0)
    {
      var mask := Pow2(n) - 1;
      ghost var w := info[b];
      RefCounter.Counts(w, n, Pow2(n));
      if And(info[b], mask) == mask {
        return false;
      }
      info := info[b := info[b] - 1];
      AndMask(info[b], n);
      zero := And(info[b], mask) == 0;
    }
  }

  /** `double` tells TableDouble from TableSingle. */
  class HashTable {
    const memory: Memory
    const double: bool
    var nbBuckets: nat
    var mask: nat
    var shiftThreshold: nat
    var mayRehash: bool
    var buckets: nat
    ghost var chains: seq<seq<nat>>

    ghost function Model(): Table
      reads this
    {
      Table(chains, nbBuckets, shiftThreshold, mayRehash)
    }

    /** The chains are in memory, hanging from the entries of the array. */
    ghost predicate InMemory()
      reads this, memory
    {
      mask + 1 == |chains| && Stored(memory.Model(), buckets, 0, chains, 0, double)
    }

    /** The invariant of the table, for the hash values with which its buckets were entered. */
    ghost predicate Valid(hash: map<nat, nat>)
      reads this, memory
    {
      InMemory() && Inv(Model(), hash, memory.info)
    }

    /** TableSingle and TableDouble: 2^sizePower2 null entries, in an array that the system places at `place`. */
    constructor (memory: Memory, double: bool, sizePower2: nat, aggressive: bool, place: nat)
      modifies memory`cells
      ensures this.memory == memory && this.double == double && buckets == place
      ensures memory.cells == Filled(old(memory.cells), place, 0, Pow2(sizePower2))
      ensures Model() == Table(seq(Pow2(sizePower2), _ => []), 0, if aggressive then 1 else 0, true)
      ensures InMemory() && Within(old(memory.Model()), memory.Model(), {place}, {})
    {
      this.memory := memory;
      this.double := double;
      nbBuckets := 0;
      mask := Pow2(sizePower2) - 1;
      shiftThreshold := if aggressive then 1 else 0;
      mayRehash := true;
      buckets := place;
      chains := seq(Pow2(sizePower2), _ => []);
      new;
      ghost var cells := memory.cells;
      Fill(place, 0, mask + 1);
      forall j | 0 <= j < |chains|
        ensures Hangs(memory.Model(), Slot(place, 0 + j), chains[j], double)
      {
        FilledAt(cells, place, 0, |chains|, Slot(place, 0 + j));
      }
    }

    /** `std::fill` with null pointers. */
    method Fill(table: nat, start: nat, end: nat)
      requires start <= end
      modifies memory`cells
      ensures memory.cells == Filled(old(memory.cells), table, start, end)
      ensures Within(old(memory.Model()), memory.Model(), {table}, {})
    {
      FilledWithin(memory.Model(), table, start, end);
      for i := start to end
        invariant memory.cells == Filled(old(memory.cells), table, start, i)
      {
        memory.Set(Slot(table, i), 0);
      }
    }

    /** One iteration of the inner loop of rehash. */
    method MoveBucket(bucket: nat, newBuckets: nat, oldSize: nat, i: nat) returns (next: nat)
      requires bucket != 0 && bucket in memory.info
      modifies memory`cells, memory`previous
      ensures memory.Model() == Linkable.Link(old(memory.Model()), bucket,
                                              Slot(newBuckets, i + And(memory.info[bucket], oldSize)), double)
      ensures next == old(memory.Get(NextOf(bucket)))
    {
      var root := Slot(newBuckets, i + And(memory.info[bucket], oldSize));
      next := memory.Get(NextOf(bucket));
      memory.Link(bucket, root, double);
    }

    /** The inner loop of rehash: relinks the buckets of entry `i` of the old array. */
    method MoveChain(oldBuckets: nat, newBuckets: nat, oldSize: nat, i: nat, ghost hash: map<nat, nat>)
      requires oldSize == |chains| && i < oldSize && oldBuckets != newBuckets
      requires SizeOk(oldSize) && ChainsOk(chains, hash, memory.info)
      requires Between(memory.Model(), oldBuckets, newBuckets, chains, i, double)
      modifies memory`cells, memory`previous
      ensures Between(memory.Model(), oldBuckets, newBuckets, chains, i + 1, double)
      ensures Within(old(memory.Model()), memory.Model(), {newBuckets}, Members(chains))
    {
      ghost var h := memory.Model();
      MovingStarts(h, oldBuckets, newBuckets, chains, i, hash, double);
      ClearedWithin(h, newBuckets, i);
      var bucket := memory.Get(Slot(oldBuckets, i));
      memory.Set(Slot(newBuckets, i), 0);
      ghost var g := memory.Model();
      MoveAll(bucket, newBuckets, oldSize, i, FirstStage(oldBuckets, newBuckets, chains, memory.info, i), hash);
      WithinMore(h, g, {newBuckets}, {}, {newBuckets}, Members(chains));
      WithinTrans(h, g, memory.Model(), {newBuckets}, Members(chains));
    }

    method MoveAll(first: nat, newBuckets: nat, oldSize: nat, i: nat, ghost s0: Stage, ghost hash: map<nat, nat>)
      requires Moving(memory.Model(), s0, hash, double, first)
      requires s0.newTable == newBuckets && |s0.chains| == oldSize && s0.i == i
      modifies memory`cells, memory`previous
      ensures i < |s0.chains| && Between(memory.Model(), s0.oldTable, newBuckets, s0.chains, i + 1, double)
      ensures Within(old(memory.Model()), memory.Model(), {newBuckets}, Members(s0.chains))
    {
      ghost var h, s := memory.Model(), s0;
      var bucket := first;
      while bucket != 0
        invariant Moving(memory.Model(), s, hash, double, bucket)
        invariant s.oldTable == s0.oldTable && s.newTable == newBuckets && s.chains == s0.chains && s.i == i
        invariant Within(h, memory.Model(), {newBuckets}, Members(s0.chains))
        decreases |s.r|
      {
        ghost var g := memory.Model();
        bucket, s := MoveNext(bucket, newBuckets, oldSize, i, s, hash);
        WithinTrans(h, g, memory.Model(), {newBuckets}, Members(s0.chains));
      }
      MovingEnds(memory.Model(), s, hash, double);
    }

    /** One iteration, on the stage of the move. */
    method MoveNext(bucket: nat, newBuckets: nat, oldSize: nat, i: nat, ghost s: Stage, ghost hash: map<nat, nat>)
      returns (next: nat, ghost t: Stage)
      requires bucket != 0 && Moving(memory.Model(), s, hash, double, bucket)
      requires s.newTable == newBuckets && |s.chains| == oldSize && s.i == i
      modifies memory`cells, memory`previous
      ensures Moving(memory.Model(), t, hash, double, next)
      ensures t.oldTable == s.oldTable && t.newTable == newBuckets && t.chains == s.chains && t.i == i
      ensures |t.r| < |s.r|
      ensures Within(old(memory.Model()), memory.Model(), {newBuckets}, Members(s.chains))
    {
      ghost var g, n;
      g, t, n := NextStage(memory.Model(), s, hash, double, bucket);
      next := MoveBucket(bucket, newBuckets, oldSize, i);
      assert memory.Model() == g && next == n;
    }

    /** The upper half of the new array; the lower half is written entry by entry. */
    method ClearUpper(oldBuckets: nat, newBuckets: nat, oldSize: nat, newSize: nat)
      requires oldBuckets != newBuckets && Stored(memory.Model(), oldBuckets, 0, chains, 0, double)
      requires oldSize == |chains| && newSize == 2 * |chains|
      modifies memory`cells
      ensures Between(memory.Model(), oldBuckets, newBuckets, chains, 0, double)
      ensures Within(old(memory.Model()), memory.Model(), {newBuckets}, Members(chains))
    {
      ghost var h := memory.Model();
      Fill(newBuckets, oldSize, newSize);
      FilledIsBetween(h, oldBuckets, newBuckets, chains, double);
      WithinMore(h, memory.Model(), {newBuckets}, {}, {newBuckets}, Members(chains));
    }

    /** rehash: an array of twice the size, placed by the system at `newBuckets`. */
    method Rehash(newBuckets: nat, ghost hash: map<nat, nat>)
      requires InMemory() && SizeOk(|chains|) && ChainsOk(chains, hash, memory.info) && newBuckets != buckets
      modifies this`mask, this`buckets, this`chains, memory`cells, memory`previous
      ensures chains == Rehashed(old(chains), memory.info) && buckets == newBuckets
      ensures InMemory()
      ensures Within(old(memory.Model()), memory.Model(), {newBuckets}, old(Members(chains)))
    {
      var oldSize := mask + 1;
      var newSize := oldSize * 2;
      mask := newSize - 1;
      var oldBuckets := buckets;
      buckets := newBuckets;
      ghost var info := memory.info;
      ChainsAreApart(chains, hash, info);
      ghost var h := memory.Model();
      ClearUpper(oldBuckets, newBuckets, oldSize, newSize);
      for i := 0 to oldSize
        invariant memory.info == info && chains == old(chains) && buckets == newBuckets && mask == newSize - 1
        invariant Between(memory.Model(), oldBuckets, newBuckets, chains, i, double)
        invariant Within(h, memory.Model(), {newBuckets}, Members(chains))
      {
        ghost var g := memory.Model();
        MoveChain(oldBuckets, newBuckets, oldSize, i, hash);
        WithinTrans(h, g, memory.Model(), {newBuckets}, Members(chains));
      }
      AllMoved(memory.Model(), oldBuckets, newBuckets, chains, double);
      chains := Rehashed(chains, info);
    }

    /** hashValue & mask; the size of the table is a power of two. */
    method IndexOf(h: nat) returns (i: nat)
      requires SizeOk(mask + 1)
      ensures i == h % (mask + 1)
    {
      ghost var k: nat :| mask + 1 == Pow2(k);
      AndMask(h, k);
      i := And(h, mask);
    }

    /** getAtBucket. */
    method GetAtBucket(h: nat) returns (c: Cell)
      requires SizeOk(mask + 1)
      ensures c == Slot(buckets, h % (mask + 1))
    {
      var i := IndexOf(h);
      c := Slot(buckets, i);
    }

    method EnableRehash()
      modifies this`mayRehash
      ensures InMemory() == old(InMemory())
      ensures old(InMemory()) ==> Model() == Enable(old(Model())) && (mayRehash <==> |chains| < 0x400_0000)
    {
      mayRehash := mask < MAX_TABLE_SIZE - 1;
    }

    method DisableRehash()
      modifies this`mayRehash
      ensures InMemory() == old(InMemory()) && Model() == old(Model()).(mayRehash := false)
    {
      mayRehash := false;
    }

    /** incBuckets. `place` is where the system would place a larger array. */
    method IncBuckets(place: nat, ghost hash: map<nat, nat>)
      requires InMemory() && SizeOk(|chains|) && ChainsOk(chains, hash, memory.info) && place != buckets
      modifies this, memory`cells, memory`previous
      ensures InMemory() && Model() == BucketRuns.IncBuckets(old(Model()), memory.info)
      ensures nbBuckets == old(nbBuckets) + 1
      ensures old(nbBuckets) + 1 <= Shr(old(mask), old(shiftThreshold)) || !old(mayRehash) ==> chains == old(chains)
      ensures old(nbBuckets) + 1 > Shr(old(mask), old(shiftThreshold)) && old(mayRehash) ==>
                chains == Rehashed(old(chains), memory.info) && (mayRehash <==> |chains| < MAX_TABLE_SIZE)
      ensures buckets == old(buckets) || buckets == place
      ensures Within(old(memory.Model()), memory.Model(), {place}, old(Members(chains)))
    {
      nbBuckets := nbBuckets + 1;
      if nbBuckets > Shr(mask, shiftThreshold) && mayRehash {
        Rehash(place, hash);
        mayRehash := mask < MAX_TABLE_SIZE - 1;
      }
    }

    /** decBuckets. */
    method DecBuckets()
      requires nbBuckets > 0
      modifies this`nbBuckets
      ensures nbBuckets == old(nbBuckets) - 1
    {
      nbBuckets := nbBuckets - 1;
    }

    /** How a bucket enters the table, as the documentation of incBuckets asks: it is linked first, from the
        entry of its hash value, and counted afterwards. */
    method Enter(b: nat, h: Word, place: nat, ghost hash: map<nat, nat>)
      requires Valid(hash) && b != 0 && b !in Members(chains) && place != buckets
      requires b in memory.info && memory.info[b] < WORD && Agrees(memory.info[b], h, |chains|)
      modifies this, memory`cells, memory`previous
      ensures Valid(hash[b := h])
      ensures Model() == Step(World(old(Model()), hash, memory.info), OpInsert(b, h, memory.info[b])).t
      ensures buckets == old(buckets) || buckets == place
      ensures Within(old(memory.Model()), memory.Model(), {old(buckets), place}, old(Members(chains)) + {b})
    {
      ghost var s, heap, xs := World(Model(), hash, memory.info), memory.Model(), Members(chains) + {b};
      StepKeepsInv(s, OpInsert(b, h, memory.info[b]));
      assert memory.info[b := memory.info[b]] == memory.info;
      LinkBucket(b, h, hash);
      ghost var g := memory.Model();
      IncBuckets(place, hash[b := h]);
      WithinMore(heap, g, {old(buckets)}, xs, {old(buckets), place}, xs);
      WithinMore(g, memory.Model(), {place}, xs, {old(buckets), place}, xs);
      WithinTrans(heap, g, memory.Model(), {old(buckets), place}, xs);
    }

    /** bucket->link(table.getAtBucket(hash)). The bucket is not counted yet. */
    method LinkBucket(b: nat, h: Word, ghost hash: map<nat, nat>)
      requires Valid(hash) && b != 0 && b !in Members(chains)
      requires b in memory.info && memory.info[b] < WORD && Agrees(memory.info[b], h, |chains|)
      modifies this`chains, memory`cells, memory`previous
      ensures InMemory() && SizeOk(|chains|) && ChainsOk(chains, hash[b := h], memory.info)
      ensures var i := h % |old(chains)|; chains == old(chains)[i := [b] + old(chains)[i]]
      ensures Members(chains) == old(Members(chains)) + {b}
      ensures Within(old(memory.Model()), memory.Model(), {buckets}, old(Members(chains)) + {b})
    {
      var c := GetAtBucket(h);
      ghost var i := h % |chains|;
      EnterChain(memory.Model(), buckets, chains, i, b, hash, double);
      EnterWithin(memory.Model(), buckets, chains, i, b, double);
      LinkedIn(World(Model(), hash, memory.info), b, h, memory.info[b]);
      assert memory.info[b := memory.info[b]] == memory.info;
      memory.Link(b, c, double);
      chains := chains[i := [b] + chains[i]];
    }

    /** TableDouble::remove: the bucket is unlinked without knowing its entry. */
    method RemoveDouble(b: nat, ghost hash: map<nat, nat>)
      requires double && Valid(hash) && b in Members(chains)
      modifies this`nbBuckets, this`chains, memory`cells, memory`previous
      ensures Valid(hash)
      ensures old(b in hash && nbBuckets > 0)
      ensures Within(old(memory.Model()), memory.Model(), {buckets}, old(Members(chains)))
      ensures Model() == Step(World(old(Model()), hash, memory.info), OpRemove(b)).t
    {
      ghost var s := World(Model(), hash, memory.info);
      ghost var k := Locate(s, b);
      ghost var i := hash[b] % |chains|;
      DoublyLinked(memory.Model(), buckets, chains, i, k);
      LeaveChain(memory.Model(), Linkable.Unlink(memory.Model(), b), buckets, chains, i, k, hash, double);
      LeaveWithin(memory.Model(), Linkable.Unlink(memory.Model(), b), buckets, chains, i, k, double);
      memory.Unlink(b);
      chains := chains[i := Remove(chains[i], b)];
      TakenOut(s, b);
      DecBuckets();
    }

    /** TableSingle::remove: the chain of the hash value is searched for the cell that points at the bucket. */
    method RemoveSingle(b: nat, h: nat, ghost hash: map<nat, nat>)
      requires !double && Valid(hash) && b in Members(chains) && b in hash && hash[b] == h
      modifies this`nbBuckets, this`chains, memory`cells
      ensures Valid(hash)
      ensures old(nbBuckets > 0)
      ensures Within(old(memory.Model()), memory.Model(), {buckets}, old(Members(chains)))
      ensures Model() == Step(World(old(Model()), hash, memory.info), OpRemove(b)).t
    {
      ghost var s := World(Model(), hash, memory.info);
      ghost var k := Locate(s, b);
      ghost var i := h % |chains|;
      var start := GetAtBucket(h);
      var entry := SearchCell(b, start, chains[i], k);
      LeaveChain(memory.Model(), Linkable.UnlinkFrom(memory.Model(), b, entry), buckets, chains, i, k, hash, double);
      LeaveWithin(memory.Model(), Linkable.UnlinkFrom(memory.Model(), b, entry), buckets, chains, i, k, double);
      memory.UnlinkFrom(b, entry);
      chains := chains[i := Remove(chains[i], b)];
      TakenOut(s, b);
      DecBuckets();
    }

    /** The loop of TableSingle::remove. */
    method SearchCell(b: nat, start: Cell, ghost l: seq<nat>, ghost k: nat) returns (entry: Cell)
      requires Hangs(memory.Model(), start, l, false) && k < |l| && l[k] == b && NoRepeat(l)
      ensures entry == Pointer(start, l, k) && memory.Get(entry) == b
    {
      entry := start;
      ghost var j: nat := 0;
      ChainAt(memory.Model(), start, l, false, 0);
      while memory.Get(entry) != b
        invariant j <= k && entry == Pointer(start, l, j) && memory.Get(entry) == l[j]
        decreases k - j
      {
        entry := NextOf(memory.Get(entry));
        j := j + 1;
        ChainAt(memory.Model(), start, l, false, j);
      }
    }

    /** reset: forgets the buckets. */
    method Reset()
      requires InMemory()
      modifies this`nbBuckets, this`chains, memory`cells
      ensures InMemory() && Model() == Emptied(old(Model()))
      ensures Within(old(memory.Model()), memory.Model(), {buckets}, {})
    {
      nbBuckets := 0;
      ghost var cells := memory.cells;
      Fill(buckets, 0, mask + 1);
      chains := seq(|chains|, _ => []);
      forall j | 0 <= j < |chains|
        ensures Hangs(memory.Model(), Slot(buckets, 0 + j), chains[j], double)
      {
        FilledAt(cells, buckets, 0, |chains|, Slot(buckets, 0 + j));
      }
    }

    /** swap: the arrays change hands, so what points at their entries stays right. */
    method Swap(arg: HashTable)
      requires arg.memory == memory && arg.double == double
      modifies this, arg
      ensures Model() == old(arg.Model()) && arg.Model() == old(Model())
      ensures buckets == old(arg.buckets) && arg.buckets == old(buckets)
      ensures InMemory() == old(arg.InMemory()) && arg.InMemory() == old(InMemory())
    {
      nbBuckets, arg.nbBuckets := arg.nbBuckets, nbBuckets;
      mask, arg.mask := arg.mask, mask;
      shiftThreshold, arg.shiftThreshold := arg.shiftThreshold, shiftThreshold;
      mayRehash, arg.mayRehash := arg.mayRehash, mayRehash;
      buckets, arg.buckets := arg.buckets, buckets;
      chains, arg.chains := arg.chains, chains;
    }
  }
}
