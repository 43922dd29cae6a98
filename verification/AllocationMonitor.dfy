/** The allocation monitor and its leak table as the source has them: counters and chains updated in place
    (src/debug/new.cpp). The chains are sequences of records; how linked buckets behave is the subject of the
    module Linkable. */
module AllocationMonitor {
  import opened Splitting
  import opened Words
  import opened MonitorModel
  import opened MonitorProofs
  import LeakReport

  lemma MaskIsIndex(p: nat, size: nat)
    requires SizeOk(size) && size > 0
    ensures And(HashPtr(p), size - 1) == Index(p, size)
  {
    var k: nat :| size == Pow2(k);
    AndMask(HashPtr(p), k);
  }

  lemma HighIsSize(r: Record, size: nat)
    requires SizeOk(size)
    ensures And(HashPtr(r.ptr), size) == if GoesHigh(r, size) then size else 0
  {
    var k: nat :| size == Pow2(k);
    AndPow2(HashPtr(r.ptr), k);
  }

  class StatsTable {
    var table: seq<seq<LeakReport.Leak>>

    constructor ()
      ensures table == seq(LeakReport.STATS_SIZE, _ => [])
    {
      table := seq(LeakReport.STATS_SIZE, _ => []);
    }

    /** addLeak: one more of a known kind, or a new entry in front of the chain. */
    method AddLeak(size: nat, where: LeakReport.Where)
      requires |table| == LeakReport.STATS_SIZE
      modifies this
      ensures table == LeakReport.AddLeak(old(table), LeakReport.Key(size, where))
    {
      var key := LeakReport.Key(size, where);
      var hashValue := LeakReport.HashOf(key);
      assert Pow2(8) == LeakReport.STATS_SIZE;
      AndMask(hashValue, 8);
      var entry := And(hashValue, LeakReport.STATS_SIZE - 1);
      var l := table[entry];
      var j := 0;
      while j < |l| && l[j].key != key
        invariant 0 <= j <= |l| && LeakReport.Locate(l, key) == j + LeakReport.Locate(l[j..], key)
        decreases |l| - j
      {
        assert l[j..][1..] == l[j + 1..];
        j := j + 1;
      }
      if j < |l| {
        table := table[entry := l[j := LeakReport.Leak(key, l[j].nb + 1)]];
      } else {
        table := table[entry := [LeakReport.Leak(key, 1)] + l];
      }
    }
  }

  class NewPointerTable {
    const y: Layout
    var table: seq<seq<Record>>
    var mask: nat
    var nbBuckets: nat
    var totalAlloc: int
    var peakAlloc: int
    var overhead: int
    var maxOverhead: int

    function Model(): Monitor
      reads this
    {
      Monitor(table, nbBuckets, totalAlloc, peakAlloc, overhead, maxOverhead)
    }

    ghost predicate Valid()
      reads this
    {
      mask + 1 == |table| && Inv(y, Model())
    }

    constructor (y: Layout)
      ensures this.y == y && Model() == New(y) && mask + 1 == |table|
    {
      this.y := y;
      table := seq(INIT_SIZE, _ => []);
      mask := INIT_SIZE - 1;
      nbBuckets := 0;
      totalAlloc := 0;
      peakAlloc := 0;
      overhead := Wrap(INIT_SIZE * y.pointer + y.self);
      maxOverhead := Wrap(INIT_SIZE * y.pointer + y.self);
    }

    method IndexOf(ptr: nat) returns (i: nat)
      requires mask + 1 == |table| && SizeOk(|table|)
      ensures i == Index(ptr, |table|)
    {
      MaskIsIndex(ptr, |table|);
      i := And(HashPtr(ptr), mask);
    }

    /** The loop at the start of remember. */
    method IsRegistered(l: seq<Record>, ptr: nat) returns (found: bool)
      ensures found <==> Registered(l, ptr)
    {
      for j := 0 to |l|
        invariant forall k :: 0 <= k < j ==> !(l[k].ptr == ptr && Sized(l[k]))
      {
        if l[j].ptr == ptr && BucketSize(l[j]) != NOSIZE {
          assert l[j] in l;
          return true;
        }
      }
      found := false;
    }

    /** The rest of remember: a new bucket in front of its chain. */
    method AddBucket(i: nat, r: Record, size: nat, memory: bool)
      requires mask + 1 == |table| && SizeOk(|table|) && i == Index(r.ptr, |table|)
      modifies this
      ensures Model() == Enter(y, old(Model()), r, size, memory) && mask + 1 == |table|
    {
      AddOverhead(MadeBytes(y, r));
      table := table[i := [r] + table[i]];
      AddSize(size);
      Inc(memory);
    }

    method AddOverhead(bytes: nat)
      modifies this`overhead, this`maxOverhead
      ensures overhead == Wrap(old(overhead) + bytes) && maxOverhead == Max(old(maxOverhead), overhead)
    {
      overhead := Wrap(overhead + bytes);
      if overhead > maxOverhead {
        maxOverhead := overhead;
      }
    }

    method AddSize(size: nat)
      modifies this`totalAlloc, this`peakAlloc
      ensures totalAlloc == if size != NOSIZE then Wrap(old(totalAlloc) + size) else old(totalAlloc)
      ensures peakAlloc == if size != NOSIZE then Max(old(peakAlloc), totalAlloc) else old(peakAlloc)
    {
      if size != NOSIZE {
        totalAlloc := Wrap(totalAlloc + size);
        if peakAlloc < totalAlloc {
          peakAlloc := totalAlloc;
        }
      }
    }

    /** inc: counts a bucket, and rehashes when more than half of the entries are outnumbered. */
    method Inc(memory: bool)
      requires mask + 1 == |table| && SizeOk(|table|)
      modifies this
      ensures var n := old(Model()).(nb := old(nbBuckets) + 1);
              Model() == if n.nb > (|n.chains| - 1) / 2 && memory then MonitorModel.Rehash(y, n) else n
      ensures mask + 1 == |table|
    {
      nbBuckets := nbBuckets + 1;
      if nbBuckets > mask / 2 {
        Rehash(memory);
      }
    }

    /** rehash; without memory for the larger table nothing happens. */
    method Rehash(memory: bool)
      requires mask + 1 == |table| && SizeOk(|table|)
      modifies this
      ensures Model() == (if memory then MonitorModel.Rehash(y, old(Model())) else old(Model()))
      ensures mask + 1 == |table|
    {
      if !memory {
        return;
      }
      var oldSize := mask + 1;
      var newSize := oldSize * 2;
      var oldBuckets := table;
      overhead := Wrap(overhead + newSize * y.pointer);
      mask := newSize - 1;
      table := seq(newSize, _ => []);
      MoveAll(oldBuckets);
      overhead := Wrap(overhead - oldSize * y.pointer);
      if overhead > maxOverhead {
        maxOverhead := overhead;
      }
    }

    /** The loops of rehash. */
    method MoveAll(oldBuckets: seq<seq<Record>>)
      requires SizeOk(|oldBuckets|) && table == seq(2 * |oldBuckets|, _ => [])
      modifies this`table
      ensures table == Rehashed(oldBuckets)
    {
      var s := |oldBuckets|;
      for i := 0 to s
        invariant |table| == 2 * s
        invariant forall k :: 0 <= k < i ==> table[k] == Spill(oldBuckets[k], [], High(s), false)
        invariant forall k :: 0 <= k < i ==> table[k + s] == Spill(oldBuckets[k], [], High(s), true)
        invariant forall k :: i <= k < s || i + s <= k < 2 * s ==> table[k] == []
      {
        MoveChain(oldBuckets[i], i, s);
      }
      assert forall k :: s <= k < 2 * s ==> table[k] == table[(k - s) + s];
    }

    method MoveChain(l: seq<Record>, i: nat, s: nat)
      requires SizeOk(s) && i < s && |table| == 2 * s && table[i] == table[i + s] == []
      modifies this`table
      ensures table == old(table)[i := Spill(l, [], High(s), false)][i + s := Spill(l, [], High(s), true)]
    {
      var rest := l;
      ghost var before := table;
      while rest != []
        invariant |table| == 2 * s && table == before[i := table[i]][i + s := table[i + s]]
        invariant Spill(rest, table[i], High(s), false) == Spill(l, [], High(s), false)
        invariant Spill(rest, table[i + s], High(s), true) == Spill(l, [], High(s), true)
        decreases |rest|
      {
        HighIsSize(rest[0], s);
        var entry := i + And(HashPtr(rest[0].ptr), s);
        table := table[entry := [rest[0]] + table[entry]];
        rest := rest[1..];
      }
    }

    /** The assertion of the source is the only condition on the size; the invariant is kept exactly if the size
        is storable or the pointer is registered. */
    method Remember(ptr: nat, size: nat, memory: bool)
      requires Valid() && size != NOSIZE
      modifies this
      ensures Model() == MonitorModel.Remember(y, old(Model()), ptr, size, memory) && mask + 1 == |table|
      ensures Valid() <==> old(Registered(table[Index(ptr, |table|)], ptr)) || Storable(size)
    {
      RememberKeepsInvIff(y, Model(), ptr, size, memory);
      var i := IndexOf(ptr);
      var registered := IsRegistered(table[i], ptr);
      if registered {
        return;
      }
      AddBucket(i, Mem(ptr, size), size, memory);
    }

    method RememberAt(ptr: nat, size: nat, pos: Position, memory: bool)
      requires Valid()
      modifies this
      ensures Model() == MonitorModel.RememberAt(y, old(Model()), ptr, size, pos, memory) && mask + 1 == |table|
      ensures Valid() <==> size == NOSIZE || old(Registered(table[Index(ptr, |table|)], ptr)) || Storable(size)
    {
      RememberAtKeepsInvIff(y, Model(), ptr, size, pos, memory);
      var i := IndexOf(ptr);
      if size != NOSIZE {
        var registered := IsRegistered(table[i], ptr);
        if registered {
          return;
        }
      }
      AddBucket(i, ExtMem(ptr, Or(size, EXTENSION_BIT), pos), size, memory);
    }

    /** The loop of forget: the first bucket of the pointer that is of the wanted kind. */
    method Search(l: seq<Record>, ptr: nat, nosize: bool) returns (k: nat)
      ensures k == Find(l, ptr, nosize)
    {
      k := 0;
      while k < |l|
        invariant k <= |l| && Find(l, ptr, nosize) == k + Find(l[k..], ptr, nosize)
        decreases |l| - k
      {
        if l[k].ptr == ptr
           && ((nosize && BucketSize(l[k]) == NOSIZE) || (!nosize && BucketSize(l[k]) != NOSIZE)) {
          return;
        }
        assert l[k..][1..] == l[k + 1..];
        k := k + 1;
      }
    }

    /** The end of forget, once the bucket is found. */
    method DropBucket(i: nat, k: nat, nosize: bool)
      requires i < |table| && k < |table[i]| && nbBuckets > 0
      modifies this
      ensures Model() == Drop(y, old(Model()), i, k, nosize) && mask == old(mask)
    {
      var l := table[i];
      if !nosize {
        totalAlloc := Wrap(totalAlloc - BucketSize(l[k]));
      }
      table := table[i := l[..k] + l[k + 1..]];
      overhead := Wrap(overhead - Bytes(y, l[k]));
      nbBuckets := nbBuckets - 1;
    }

    method Forget(ptr: nat, nosize: bool)
      requires Valid()
      modifies this
      ensures var m := old(Model()); var l := m.chains[Index(ptr, |m.chains|)]; Find(l, ptr, nosize) < |l| ==> m.nb > 0
      ensures Valid() && Model() == MonitorModel.Forget(y, old(Model()), ptr, nosize)
    {
      ForgetKeepsInv(y, Model(), ptr, nosize);
      if ptr == 0 {
        return;
      }
      var i := IndexOf(ptr);
      var k := Search(table[i], ptr, nosize);
      if k < |table[i]| {
        DropBucket(i, k, nosize);
      }
    }

    /** The gathering loop of the destructor. */
    method GatherLeaks() returns (stats: StatsTable)
      requires Valid()
      ensures fresh(stats) && stats.table == LeakReport.GatherAll(table, |table|)
      ensures LeakReport.ReportOk(stats.table)
      ensures LeakReport.ReportWeight(stats.table, LeakReport.STATS_SIZE, LeakReport.Always) == nbBuckets
      ensures Wrap(LeakReport.ReportWeight(stats.table, LeakReport.STATS_SIZE, LeakReport.KeySize)) == totalAlloc
    {
      stats := GatherTable();
      LeakReport.GatherAllOk(table, |table|);
      LeakReport.ReportAgrees(y, Model());
    }

    method GatherTable() returns (stats: StatsTable)
      requires Placed(table)
      ensures fresh(stats) && stats.table == LeakReport.GatherAll(table, |table|)
    {
      stats := new StatsTable();
      for i := 0 to |table|
        invariant fresh(stats) && stats.table == LeakReport.GatherAll(table, i)
      {
        assert AllAt(table[i], i, |table|);
        GatherChain(stats, table[i]);
      }
    }

    method GatherChain(stats: StatsTable, l: seq<Record>)
      requires |stats.table| == LeakReport.STATS_SIZE
      requires forall r :: r in l ==> RecordOk(r)
      modifies stats
      ensures stats.table == LeakReport.Gather(old(stats.table), l)
    {
      ghost var all := LeakReport.Gather(stats.table, l);
      var rest := l;
      while rest != []
        invariant |stats.table| == LeakReport.STATS_SIZE && all == LeakReport.Gather(stats.table, rest)
        invariant forall r :: r in rest ==> RecordOk(r)
        decreases |rest|
      {
        var bucket := rest[0];
        assert RecordOk(bucket);
        if And(bucket.size, EXTENSION_BIT) != 0 {
          stats.AddLeak(BucketSize(bucket), LeakReport.From(bucket.pos));
        } else {
          stats.AddLeak(bucket.size, LeakReport.Unknown);
        }
        rest := rest[1..];
      }
    }
  }
}
