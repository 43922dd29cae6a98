/** Every elementary move of the chunk allocator keeps its invariant. */
module PoolProofs {
  import opened Lists
  import opened PoolModel

  // ---- memory ----

  /** A write outside all listed blocks disturbs no free list. */
  lemma WriteKeepsThreads(mem: seq<nat>, table: seq<nat>, lists: seq<seq<nat>>, a: nat, v: nat)
    requires ThreadsOk(mem, table, lists)
    requires forall i :: 0 <= i < |lists| ==> a !in lists[i]
    ensures ThreadsOk(Write(mem, a, v), table, lists)
  {
    forall i | 0 <= i < |table|
      ensures Linked(Write(mem, a, v), table[i], lists[i])
    {
      assert Linked(mem, table[i], lists[i]);
      assert a !in lists[i];
    }
  }

  /** A listed block starts neither inside a live block nor in the bump space. */
  lemma ListedIsElsewhere(c: Build, s: State, g: Book, a: nat)
    requires Inv(c, s, g)
    requires s.freePtr <= a < s.endFree || exists b :: b in g.live && b <= a < b + g.owned[b]
    ensures forall i :: 0 <= i < |g.lists| ==> a !in g.lists[i]
  {
    assert a in g.owned && a !in g.live ==> 0 < g.owned[a];
  }

  // ---- taking the head of a free list ----

  lemma PopKeepsThreads(mem: seq<nat>, table: seq<nat>, lists: seq<seq<nat>>, n: nat)
    requires ThreadsOk(mem, table, lists) && n < |table| && table[n] != 0
    ensures |lists[n]| > 0 && lists[n][0] == table[n]
    ensures ThreadsOk(mem, table[n := Read(mem, table[n])], lists[n := lists[n][1..]])
  {
    assert Linked(mem, table[n], lists[n]);
    assert Linked(mem, Read(mem, table[n]), lists[n][1..]);
  }

  lemma PopKeepsFiled(g: Book, n: nat)
    requires FiledOk(g.lists, g.owned, g.live) && n < |g.lists| && |g.lists[n]| > 0
    ensures var h := BookPop(g, n);
            FiledOk(h.lists, h.owned, h.live) && forall i :: 0 <= i < |h.lists| ==> g.lists[n][0] !in h.lists[i]
  {
    var l, h := g.lists[n], BookPop(g, n);
    assert NoRepeat(l) && l[0] in l && g.owned[l[0]] == n;
    assert l == [l[0]] + l[1..];
    assert NoRepeat(l[1..]);
    assert forall i, x :: 0 <= i < |h.lists| && x in h.lists[i] ==> x in g.lists[i] && x != l[0];
  }

  lemma PopKeepsInv(c: Build, s: State, g: Book, n: nat)
    requires Inv(c, s, g) && n < |s.table| && s.table[n] != 0
    ensures |g.lists[n]| > 0 && g.lists[n][0] == s.table[n] && s.table[n] in g.owned && g.owned[s.table[n]] == n
    ensures Inv(c, Pop(c, s, n), BookPop(g, n))
  {
    PopKeepsThreads(s.mem, s.table, g.lists, n);
    PopKeepsFiled(g, n);
    var d, h := s.table[n], BookPop(g, n);
    assert d in g.lists[n];
    WriteKeepsThreads(s.mem, s.table[n := Read(s.mem, d)], h.lists, d, n);
  }

  // ---- taking words at the bump pointer ----

  lemma BumpKeepsBlocks(s: State, owned: map<nat, nat>, n: nat)
    requires PoolsOk(|s.mem|, s.pools, s.freePtr, s.endFree)
    requires BlocksOk(s.pools, s.freePtr, s.endFree, owned)
    requires 0 < n && s.freePtr + n <= s.endFree
    ensures s.freePtr !in owned
    ensures BlocksOk(s.pools, s.freePtr + n, s.endFree, owned[s.freePtr := n])
  {
    assert InPools(s.pools, s.freePtr, n) by {
      assert s.pools[0] <= s.freePtr && s.freePtr + n <= s.pools[0] + CHUNK;
    }
  }

  lemma BumpKeepsFiled(g: Book, d: nat, n: nat)
    requires FiledOk(g.lists, g.owned, g.live) && d !in g.owned
    ensures var h := BookBump(g, d, n); FiledOk(h.lists, h.owned, h.live)
  {
  }

  lemma BumpKeepsInv(c: Build, s: State, g: Book, n: nat)
    requires Inv(c, s, g) && 0 < n && s.freePtr + n <= s.endFree
    ensures s.freePtr !in g.owned
    ensures Inv(c, Bump(c, s, n), BookBump(g, s.freePtr, n))
  {
    BumpKeepsBlocks(s, g.owned, n);
    ListedIsElsewhere(c, s, g, s.freePtr);
    WriteKeepsThreads(s.mem, s.table, g.lists, s.freePtr, n);
    BumpKeepsFiled(g, s.freePtr, n);
  }

  // ---- filing a block in a free list ----

  /** Growing the table keeps the lists as long as the exposed heads are null. */
  lemma GrowthKeepsThreads(mem: seq<nat>, table: seq<nat>, lists: seq<seq<nat>>, i: nat, junk: nat -> nat)
    requires ThreadsOk(mem, table, lists)
    requires i < |table| || forall k :: |table| <= k < i + INC ==> junk(k) == 0
    ensures ThreadsOk(mem, Grown(table, i, junk), GrownLists(lists, i))
  {
    var t, l := Grown(table, i, junk), GrownLists(lists, i);
    forall k | 0 <= k < |t|
      ensures Linked(mem, t[k], l[k])
    {
      if k < |table| {
        assert Linked(mem, table[k], lists[k]);
      }
    }
  }

  lemma GrowthKeepsFiled(lists: seq<seq<nat>>, owned: map<nat, nat>, live: set<nat>, i: nat)
    requires FiledOk(lists, owned, live)
    ensures FiledOk(GrownLists(lists, i), owned, live)
  {
    var l := GrownLists(lists, i);
    assert forall k :: 0 <= k < |l| ==> l[k] == if k < |lists| then lists[k] else [];
  }

  lemma PushKeepsThreads(mem: seq<nat>, table: seq<nat>, lists: seq<seq<nat>>, i: nat, d: nat)
    requires ThreadsOk(mem, table, lists) && i < |table| && 0 < d < |mem|
    requires forall k :: 0 <= k < |lists| ==> d !in lists[k]
    ensures ThreadsOk(Write(mem, d, table[i]), table[i := d], lists[i := [d] + lists[i]])
  {
    WriteKeepsThreads(mem, table, lists, d, table[i]);
    var m, l := Write(mem, d, table[i]), [d] + lists[i];
    assert Linked(m, table[i], lists[i]);
    assert Linked(m, d, l);
  }

  /** Filing `d`, which was not listed, as a block of `i` words. */
  lemma PushKeepsFiled(lists: seq<seq<nat>>, owned: map<nat, nat>, live: set<nat>, i: nat, d: nat)
    requires i < |lists|
    requires FiledOk(lists, owned, live)
    requires d !in owned || d in live
    ensures FiledOk(lists[i := [d] + lists[i]], owned[d := i], live - {d})
  {
    assert forall k :: 0 <= k < |lists| ==> d !in lists[k];
    var l := lists[i := [d] + lists[i]];
    assert NoRepeat(lists[i]);
    assert NoRepeat([d] + lists[i]);
    assert forall k, x :: 0 <= k < |l| && x in l[k] ==> x in lists[k] || (k == i && x == d);
  }

  lemma PushKeepsLists(c: Build, s: State, g: Book, i: nat, d: nat, junk: nat -> nat)
    requires ThreadsOk(s.mem, s.table, g.lists) && FiledOk(g.lists, g.owned, g.live)
    requires HeadersOk(c, s.mem, g.owned, g.live)
    requires 0 < d < |s.mem| && (d !in g.owned || d in g.live)
    requires i < |s.table| || forall k :: |s.table| <= k < i + INC ==> junk(k) == 0
    ensures var t, h := Push(s, i, d, junk), BookPush(g, i, d);
            && ThreadsOk(t.mem, t.table, h.lists) && FiledOk(h.lists, h.owned, h.live)
            && HeadersOk(c, t.mem, h.owned, h.live)
  {
    GrowthKeepsThreads(s.mem, s.table, g.lists, i, junk);
    GrowthKeepsFiled(g.lists, g.owned, g.live, i);
    var lists := GrownLists(g.lists, i);
    forall k | 0 <= k < |lists|
      ensures d !in lists[k]
    {
    }
    PushKeepsThreads(s.mem, Grown(s.table, i, junk), lists, i, d);
    PushKeepsFiled(lists, g.owned, g.live, i, d);
  }

  /** `deallocate`, the free-list branch. */
  lemma PushKeepsInv(c: Build, s: State, g: Book, i: nat, d: nat, junk: nat -> nat)
    requires Inv(c, s, g) && d in g.live && g.owned[d] == i
    requires i < |s.table| || forall k :: |s.table| <= k < i + INC ==> junk(k) == 0
    ensures Inv(c, Push(s, i, d, junk), BookPush(g, i, d))
  {
    OwnedInMemory(c, s, g, d);
    PushKeepsLists(c, s, g, i, d, junk);
    assert g.owned[d := i] == g.owned;
  }

  lemma OwnedInMemory(c: Build, s: State, g: Book, b: nat)
    requires Inv(c, s, g) && b in g.owned
    ensures 0 < b && b + g.owned[b] <= |s.mem|
  {
    assert InPools(s.pools, b, g.owned[b]);
  }

  /** `deallocate`, the merge branch: the block ends at the bump pointer. */
  lemma MergeKeepsInv(c: Build, s: State, g: Book, d: nat)
    requires Inv(c, s, g) && d in g.live && d + g.owned[d] == s.freePtr
    ensures s.pools[0] <= d
    ensures Inv(c, s.(freePtr := d), BookMerge(g, d))
  {
    var n := g.owned[d];
    assert InPools(s.pools, d, n);
    var k :| 0 <= k < |s.pools| && s.pools[k] <= d && d + n <= s.pools[k] + CHUNK;
    assert k != 0 ==> PoolsApart(s.pools[0], s.pools[k]);
    MergeKeepsBlocks(s, g.owned, d);
  }

  lemma MergeKeepsBlocks(s: State, owned: map<nat, nat>, d: nat)
    requires BlocksOk(s.pools, s.freePtr, s.endFree, owned)
    requires d in owned && d + owned[d] == s.freePtr <= s.endFree
    ensures BlocksOk(s.pools, d, s.endFree, owned - {d})
  {
  }

  // ---- retiring a pool and making another ----

  lemma RetireKeepsInv(c: Build, s: State, g: Book, junk: nat -> nat)
    requires Inv(c, s, g)
    requires var i := c.ArchSize(s.endFree - s.freePtr);
             s.freePtr == s.endFree || i < |s.table| || forall k :: |s.table| <= k < i + INC ==> junk(k) == 0
    ensures Inv(c, Retire(c, s, junk), BookRetire(c, s, g))
  {
    if s.freePtr < s.endFree {
      var i := c.ArchSize(s.endFree - s.freePtr);
      BumpKeepsBlocks(s, g.owned, i);
      PushKeepsLists(c, s, g, i, s.freePtr, junk);
      RetiredBlocks(s.pools, s.freePtr + i, s.endFree, g.owned[s.freePtr := i]);
    }
  }

  lemma RetiredBlocks(pools: seq<nat>, freePtr: nat, endFree: nat, owned: map<nat, nat>)
    requires BlocksOk(pools, freePtr, endFree, owned) && freePtr <= endFree
    ensures BlocksOk(pools, endFree, endFree, owned)
  {
  }

  lemma AddPoolKeepsInv(c: Build, s: State, g: Book, base: nat)
    requires Inv(c, s, g) && s.freePtr == s.endFree && Fresh(|s.mem|, s.pools, base)
    ensures Inv(c, AddPool(s, base), g)
  {
    var pools := [base] + s.pools;
    forall b | b in g.owned
      ensures InPools(pools, b, g.owned[b]) && Apart(b, g.owned[b], base, CHUNK)
    {
      assert InPools(s.pools, b, g.owned[b]);
      var k :| 0 <= k < |s.pools| && s.pools[k] <= b && b + g.owned[b] <= s.pools[k] + CHUNK;
      assert pools[k + 1] == s.pools[k] && PoolsApart(base, s.pools[k]);
    }
  }

  // ---- starting and starting over ----

  lemma EmptyIsOk(c: Build, s: State)
    requires PoolsOk(|s.mem|, s.pools, s.freePtr, s.endFree)
    requires forall i :: 0 <= i < |s.table| ==> s.table[i] == 0
    ensures Inv(c, s, EmptyBook(|s.table|))
  {
  }

  // ---- the client ----

  /** The client may write anything into the words of a live block behind the debug word. */
  lemma ClientWriteKeepsInv(c: Build, s: State, g: Book, b: nat, a: nat, v: nat)
    requires Inv(c, s, g) && b in g.live && b + c.Offset() <= a < b + g.owned[b]
    ensures Inv(c, s.(mem := Write(s.mem, a, v)), g)
  {
    ListedIsElsewhere(c, s, g, a);
    WriteKeepsThreads(s.mem, s.table, g.lists, a, v);
    forall d | d in g.live
      ensures c.debug ==> d != a
    {
      if d != b {
        assert Apart(b, g.owned[b], d, g.owned[d]);
      }
    }
  }
}
