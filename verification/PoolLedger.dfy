/** Conservation of words in the chunk allocator. */
module PoolLedger {
  import opened PoolModel

  /** The words of the blocks in `s`. */
  ghost function Sum(m: map<nat, nat>, s: set<nat>): nat
    requires s <= m.Keys
  {
    if s == {} then 0
    else
      var x :| x in s;
      m[x] + Sum(m, s - {x})
  }

  /** The words in the free lists below `n`, counted as printStats does. */
  function FreeWords(lists: seq<seq<nat>>, n: nat): nat
    requires n <= |lists|
  {
    if n == 0 then 0 else FreeWords(lists, n - 1) + (n - 1) * |lists[n - 1]|
  }

  /** Every word of every pool is live, free-listed, still to be handed out, or rounded away. */
  ghost predicate Conserved(s: State, g: Book)
    requires g.live <= g.owned.Keys && s.freePtr <= s.endFree
  {
    Sum(g.owned, g.live) + FreeWords(g.lists, |g.lists|) + (s.endFree - s.freePtr) + g.loss == |s.pools| * CHUNK
  }

  lemma {:induction false} SumRemove(m: map<nat, nat>, s: set<nat>, x: nat)
    requires s <= m.Keys && x in s
    ensures Sum(m, s) == m[x] + Sum(m, s - {x})
    decreases s
  {
    var y :| y in s && Sum(m, s) == m[y] + Sum(m, s - {y});
    if y != x {
      SumRemove(m, s - {y}, x);
      SumRemove(m, s - {x}, y);
      assert s - {y} - {x} == s - {x} - {y};
    }
  }

  lemma {:induction false} SumAgree(m: map<nat, nat>, k: map<nat, nat>, s: set<nat>)
    requires s <= m.Keys && s <= k.Keys && forall x :: x in s ==> m[x] == k[x]
    ensures Sum(m, s) == Sum(k, s)
    decreases s
  {
    if s != {} {
      var x :| x in s;
      SumRemove(m, s, x);
      SumRemove(k, s, x);
      SumAgree(m, k, s - {x});
    }
  }

  lemma SumAdd(m: map<nat, nat>, s: set<nat>, d: nat, n: nat)
    requires s <= m.Keys && d !in s
    ensures Sum(m[d := n], s + {d}) == Sum(m, s) + n
  {
    SumRemove(m[d := n], s + {d}, d);
    assert s + {d} - {d} == s;
    SumAgree(m[d := n], m, s);
  }

  lemma {:induction false} FreeWordsUpdate(lists: seq<seq<nat>>, i: nat, l: seq<nat>, n: nat)
    requires i < |lists| && n <= |lists|
    ensures FreeWords(lists[i := l], n) == FreeWords(lists, n) + if i < n then i * |l| - i * |lists[i]| else 0
  {
    if n > 0 {
      FreeWordsUpdate(lists, i, l, n - 1);
    }
  }

  lemma {:induction false} FreeWordsGrown(lists: seq<seq<nat>>, i: nat, n: nat)
    requires n <= |GrownLists(lists, i)|
    ensures FreeWords(GrownLists(lists, i), n) == FreeWords(lists, if n <= |lists| then n else |lists|)
  {
    if n > 0 {
      FreeWordsGrown(lists, i, n - 1);
    }
  }

  lemma FreeWordsPush(lists: seq<seq<nat>>, i: nat, d: nat)
    ensures var l := GrownLists(lists, i);
            var r := l[i := [d] + l[i]];
            FreeWords(r, |r|) == FreeWords(lists, |lists|) + i
  {
    var l := GrownLists(lists, i);
    FreeWordsGrown(lists, i, |l|);
    FreeWordsUpdate(l, i, [d] + l[i], |l|);
    assert i * |[d] + l[i]| == i * |l[i]| + i;
  }

  lemma FreeWordsPop(lists: seq<seq<nat>>, i: nat)
    requires i < |lists| && |lists[i]| > 0
    ensures var r := lists[i := lists[i][1..]]; FreeWords(lists, |lists|) == FreeWords(r, |r|) + i
  {
    FreeWordsUpdate(lists, i, lists[i][1..], |lists|);
    assert i * |lists[i][1..]| == i * |lists[i]| - i;
  }

  lemma {:induction false} FreeWordsEmpty(lists: seq<seq<nat>>, n: nat)
    requires n <= |lists| && forall i :: 0 <= i < n ==> lists[i] == []
    ensures FreeWords(lists, n) == 0
  {
    if n > 0 {
      FreeWordsEmpty(lists, n - 1);
    }
  }

  // ---- the moves ----

  lemma PopConserves(c: Build, s: State, g: Book, n: nat)
    requires g.live <= g.owned.Keys && s.freePtr <= s.endFree && Conserved(s, g)
    requires n < |s.table| && n < |g.lists| && |g.lists[n]| > 0
    requires var d := g.lists[n][0]; d in g.owned && d !in g.live && g.owned[d] == n
    ensures BookPop(g, n).live <= g.owned.Keys && Conserved(Pop(c, s, n), BookPop(g, n))
  {
    var d := g.lists[n][0];
    SumAdd(g.owned, g.live, d, n);
    assert g.owned[d := n] == g.owned;
    FreeWordsPop(g.lists, n);
  }

  lemma BumpConserves(c: Build, s: State, g: Book, n: nat)
    requires g.live <= g.owned.Keys && s.freePtr + n <= s.endFree && Conserved(s, g) && s.freePtr !in g.live
    ensures Conserved(Bump(c, s, n), BookBump(g, s.freePtr, n))
  {
    SumAdd(g.owned, g.live, s.freePtr, n);
  }

  lemma PushConserves(s: State, g: Book, i: nat, d: nat, junk: nat -> nat)
    requires g.live <= g.owned.Keys && s.freePtr <= s.endFree && Conserved(s, g)
    requires d in g.live && g.owned[d] == i
    ensures Conserved(Push(s, i, d, junk), BookPush(g, i, d))
  {
    SumRemove(g.owned, g.live, d);
    assert g.owned[d := i] == g.owned;
    FreeWordsPush(g.lists, i, d);
  }

  lemma MergeConserves(s: State, g: Book, d: nat)
    requires g.live <= g.owned.Keys && s.freePtr <= s.endFree && Conserved(s, g)
    requires d in g.live && d + g.owned[d] == s.freePtr
    ensures Conserved(s.(freePtr := d), BookMerge(g, d))
  {
    SumRemove(g.owned, g.live, d);
    SumAgree(g.owned, g.owned - {d}, g.live - {d});
  }

  lemma RetireConserves(c: Build, s: State, g: Book, junk: nat -> nat)
    requires g.live <= g.owned.Keys && s.freePtr <= s.endFree && Conserved(s, g)
    requires s.freePtr < s.endFree ==> s.freePtr !in g.owned
    ensures BookRetire(c, s, g).live <= BookRetire(c, s, g).owned.Keys
    ensures Conserved(Retire(c, s, junk), BookRetire(c, s, g))
    ensures BookRetire(c, s, g).live == g.live
    ensures !c.wide ==> BookRetire(c, s, g).loss == g.loss
  {
    if s.freePtr < s.endFree {
      var i := c.ArchSize(s.endFree - s.freePtr);
      FreeWordsPush(g.lists, i, s.freePtr);
      SumAgree(g.owned, g.owned[s.freePtr := i], g.live);
      assert g.live - {s.freePtr} == g.live;
    }
  }

  lemma AddPoolConserves(s: State, g: Book, base: nat)
    requires g.live <= g.owned.Keys && s.freePtr == s.endFree && Conserved(s, g)
    ensures Conserved(AddPool(s, base), g)
  {
  }

  lemma EmptyConserves(s: State, n: nat)
    requires s.freePtr <= s.endFree && s.endFree - s.freePtr == CHUNK && |s.pools| == 1
    ensures Conserved(s, EmptyBook(n))
  {
    FreeWordsEmpty(EmptyBook(n).lists, n);
  }
}
