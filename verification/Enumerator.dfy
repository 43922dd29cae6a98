/** Enumerating the buckets of a table (src/base/Enumerator.cpp, include/base/Enumerator.h). */
module Enumerator {
  import opened Lists
  import opened Linkable
  import opened BucketModel
  import opened BucketRuns
  import opened Relink

  /** The fields: entries left including the current one, the current entry, and the bucket to return next. */
  datatype Cursor = Cursor(size: nat, pos: nat, current: nat)

  function Start(h: Heap, table: nat, size: nat): Cursor {
    Cursor(size, 0, At(h, Slot(table, 0)))
  }

  /** The do-while loop: on to the next entry that is not null, or to the end. */
  function Skip(h: Heap, table: nat, pos: nat, size: nat): (r: (nat, nat))
    requires size > 0
    ensures r.0 + r.1 == pos + size && r.1 < size
    ensures r.1 > 0 ==> At(h, Slot(table, r.0)) != 0
    decreases size
  {
    if size - 1 != 0 && At(h, Slot(table, pos + 1)) == 0 then Skip(h, table, pos + 1, size - 1)
    else (pos + 1, size - 1)
  }

  /** getNextLinkable. */
  function Next(h: Heap, table: nat, e: Cursor): (Cursor, nat) {
    if e.current != 0 then (e.(current := At(h, NextOf(e.current))), e.current)
    else if e.size == 0 then (e, 0)
    else
      var (pos, size) := Skip(h, table, e.pos, e.size);
      if size == 0 then (Cursor(size, pos, 0), 0)
      else
        var item := At(h, Slot(table, pos));
        (Cursor(size, pos, At(h, NextOf(item))), item)
  }

  // ---- what is still to be returned ----

  function Concat(chains: seq<seq<nat>>, n: nat): seq<nat>
    requires n <= |chains|
    decreases |chains| - n
  {
    if n == |chains| then [] else chains[n] + Concat(chains, n + 1)
  }

  /** `rest` is what the enumeration has yet to return; `cur` is the part of it in the current chain. */
  ghost predicate Ahead(h: Heap, table: nat, chains: seq<seq<nat>>, e: Cursor, cur: seq<nat>, rest: seq<nat>) {
    && Stored(h, table, 0, chains, 0, false)
    && AtHand(h, cur) && e.current == (if cur == [] then 0 else cur[0])
    && e.size <= |chains|
    && (e.size > 0 ==> e.pos + e.size == |chains| && rest == cur + Concat(chains, e.pos + 1))
    && (e.size == 0 ==> rest == cur == [])
  }

  lemma StartAhead(h: Heap, table: nat, chains: seq<seq<nat>>)
    requires Stored(h, table, 0, chains, 0, false) && |chains| > 0
    ensures Ahead(h, table, chains, Start(h, table, |chains|), chains[0], Concat(chains, 0))
  {
    assert Hangs(h, Slot(table, 0 + 0), chains[0], false);
  }

  lemma EntryHolds(h: Heap, table: nat, chains: seq<seq<nat>>, i: nat)
    requires Stored(h, table, 0, chains, 0, false) && i < |chains|
    ensures At(h, Slot(table, i)) == if chains[i] == [] then 0 else chains[i][0]
    ensures At(h, Slot(table, i)) == 0 <==> chains[i] == []
  {
    assert Hangs(h, Slot(table, 0 + i), chains[i], false);
  }

  lemma {:induction false} SkipEmpty(h: Heap, table: nat, chains: seq<seq<nat>>, pos: nat, size: nat)
    requires Stored(h, table, 0, chains, 0, false) && size > 0 && pos + size == |chains|
    ensures var (p, s) := Skip(h, table, pos, size);
            && Concat(chains, pos + 1) == Concat(chains, p)
            && (s > 0 ==> chains[p] != [] && At(h, Slot(table, p)) == chains[p][0])
    decreases size
  {
    if size > 1 {
      EntryHolds(h, table, chains, pos + 1);
      if At(h, Slot(table, pos + 1)) == 0 {
        assert Concat(chains, pos + 1) == [] + Concat(chains, pos + 2);
        SkipEmpty(h, table, chains, pos + 1, size - 1);
      }
    }
  }

  lemma HandOf(h: Heap, c: Cell, l: seq<nat>)
    requires Hangs(h, c, l, false)
    ensures AtHand(h, l) && At(h, c) == if l == [] then 0 else l[0]
  {
  }

  lemma TakeWithinChain(h: Heap, table: nat, chains: seq<seq<nat>>, e: Cursor, cur: seq<nat>, rest: seq<nat>)
    requires Ahead(h, table, chains, e, cur, rest) && cur != []
    ensures Next(h, table, e).1 == rest[0]
    ensures Ahead(h, table, chains, Next(h, table, e).0, cur[1..], rest[1..])
  {
    HandOf(h, NextOf(cur[0]), cur[1..]);
    assert rest[1..] == cur[1..] + Concat(chains, e.pos + 1);
  }

  lemma TakeNextChain(h: Heap, table: nat, chains: seq<seq<nat>>, e: Cursor, p: nat, rest: seq<nat>)
    requires Ahead(h, table, chains, e, [], rest) && e.size > 0
    requires Skip(h, table, e.pos, e.size).0 == p && Skip(h, table, e.pos, e.size).1 > 0
    ensures p < |chains| && chains[p] != [] && rest != [] && Next(h, table, e).1 == rest[0]
    ensures Ahead(h, table, chains, Next(h, table, e).0, chains[p][1..], rest[1..])
  {
    SkipEmpty(h, table, chains, e.pos, e.size);
    assert Hangs(h, Slot(table, 0 + p), chains[p], false);
    HandOf(h, NextOf(chains[p][0]), chains[p][1..]);
    assert rest == chains[p] + Concat(chains, p + 1);
    assert rest[1..] == chains[p][1..] + Concat(chains, p + 1);
  }

  /** Each call returns the first of the buckets ahead and leaves the others ahead; when there are none, it
      returns null and there are none for ever after. */
  lemma NextTakesFirst(h: Heap, table: nat, chains: seq<seq<nat>>, e: Cursor, cur: seq<nat>, rest: seq<nat>)
    returns (cur': seq<nat>)
    requires Ahead(h, table, chains, e, cur, rest)
    ensures Next(h, table, e).1 == (if rest == [] then 0 else rest[0])
    ensures Ahead(h, table, chains, Next(h, table, e).0, cur', if rest == [] then [] else rest[1..])
  {
    cur' := [];
    if cur != [] {
      cur' := cur[1..];
      TakeWithinChain(h, table, chains, e, cur, rest);
    } else if e.size > 0 {
      SkipEmpty(h, table, chains, e.pos, e.size);
      var (p, s) := Skip(h, table, e.pos, e.size);
      if s > 0 {
        cur' := chains[p][1..];
        TakeNextChain(h, table, chains, e, p, rest);
      }
    }
  }

  /** The result of call number `k`, counted from 0. */
  function Returned(h: Heap, table: nat, e: Cursor, k: nat): nat
    decreases k
  {
    if k == 0 then Next(h, table, e).1 else Returned(h, table, Next(h, table, e).0, k - 1)
  }

  lemma {:induction false} ReturnedAhead(h: Heap, table: nat, chains: seq<seq<nat>>, e: Cursor, cur: seq<nat>,
                                         rest: seq<nat>, k: nat)
    requires Ahead(h, table, chains, e, cur, rest)
    ensures Returned(h, table, e, k) == if k < |rest| then rest[k] else 0
    decreases k
  {
    var cur' := NextTakesFirst(h, table, chains, e, cur, rest);
    if k > 0 {
      ReturnedAhead(h, table, chains, Next(h, table, e).0, cur', if rest == [] then [] else rest[1..], k - 1);
    }
  }

  lemma {:induction false} ConcatMembers(chains: seq<seq<nat>>, n: nat, x: nat)
    requires n <= |chains|
    ensures x in Concat(chains, n) <==> exists i :: n <= i < |chains| && x in chains[i]
    decreases |chains| - n
  {
    if n < |chains| {
      ConcatMembers(chains, n + 1, x);
    }
  }

  lemma NoRepeatConcat(a: seq<nat>, b: seq<nat>)
    requires NoRepeat(a) && NoRepeat(b) && forall x :: x in a ==> x !in b
    ensures NoRepeat(a + b)
  {
    forall j, k | 0 <= j < k < |a + b|
      ensures (a + b)[j] != (a + b)[k]
    {
      if j < |a| <= k {
        assert a[j] in a && b[k - |a|] in b;
      }
    }
  }

  /** No bucket is returned twice: it is in one chain, once. */
  lemma {:induction false} EachOnce(chains: seq<seq<nat>>, n: nat, hash: map<nat, nat>, info: map<nat, nat>)
    requires n <= |chains| && ChainsOk(chains, hash, info)
    ensures NoRepeat(Concat(chains, n))
    decreases |chains| - n
  {
    if n < |chains| {
      EachOnce(chains, n + 1, hash, info);
      forall x | x in chains[n]
        ensures x !in Concat(chains, n + 1)
      {
        ConcatMembers(chains, n + 1, x);
        assert Belongs(x, n, |chains|, hash, info);
      }
      NoRepeatConcat(chains[n], Concat(chains, n + 1));
    }
  }

  /** Repeated calls return exactly the chains of the table one after the other, then null for ever. */
  lemma EnumeratesTable(h: Heap, table: nat, chains: seq<seq<nat>>, k: nat)
    requires Stored(h, table, 0, chains, 0, false) && |chains| > 0
    ensures Returned(h, table, Start(h, table, |chains|), k)
         == if k < |Concat(chains, 0)| then Concat(chains, 0)[k] else 0
  {
    StartAhead(h, table, chains);
    ReturnedAhead(h, table, chains, Start(h, table, |chains|), chains[0], Concat(chains, 0), k);
  }

  /** In a table that satisfies its invariant: every bucket of the table is returned by one call and no more. */
  lemma EnumeratesEachOnce(h: Heap, table: nat, chains: seq<seq<nat>>, hash: map<nat, nat>, x: nat)
    requires Stored(h, table, 0, chains, 0, false) && ChainsOk(chains, hash, h.info) && x in Members(chains)
    ensures var e := Start(h, table, |chains|);
            exists k :: Returned(h, table, e, k) == x && forall j :: Returned(h, table, e, j) == x ==> j == k
  {
    var all := Concat(chains, 0);
    EachOnce(chains, 0, hash, h.info);
    ConcatMembers(chains, 0, x);
    var i :| 0 <= i < |chains| && x in chains[i];
    assert Belongs(x, i, |chains|, hash, h.info);
    var k :| 0 <= k < |all| && all[k] == x;
    EnumeratesTable(h, table, chains, k);
    forall j | Returned(h, table, Start(h, table, |chains|), j) == x
      ensures j == k
    {
      EnumeratesTable(h, table, chains, j);
    }
  }
}
