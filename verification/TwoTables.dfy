/** Two hash tables in one memory, as the source has them: work on one leaves the chains of the other alone, and
    swap may come in between (include/hash/tables.h). */
module TwoTables {
  import opened Words
  import opened Linkable
  import opened BucketRuns
  import opened Relink
  import opened Frames
  import opened SwapRuns
  import opened HashTable

  ghost function PairOf(a: HashTable, b: HashTable, hash: map<nat, nat>): Pair
    requires a.memory == b.memory
    reads a, b, a.memory
  {
    Pair(a.Model(), b.Model(), hash, a.memory.info)
  }

  /** Both tables are in the memory, in arrays of their own, and have no bucket in common. */
  ghost predicate Sharing(a: HashTable, b: HashTable)
    reads a, b, a.memory, b.memory
  {
    && a != b && a.memory == b.memory && a.double == b.double && a.buckets != b.buckets
    && a.InMemory() && b.InMemory()
  }

  /** The `info` words do not matter for what hangs where. */
  lemma InfoIsApart(h: Heap, info: map<nat, nat>, table: nat, chains: seq<seq<nat>>, double: bool)
    requires Stored(h, table, 0, chains, 0, double)
    ensures Stored(h.(info := info), table, 0, chains, 0, double)
  {
    forall j | 0 <= j < |chains|
      ensures Hangs(h.(info := info), Slot(table, 0 + j), chains[j], double)
    {
      assert Hangs(h, Slot(table, 0 + j), chains[j], double);
    }
  }

  /** The client writes the word of a bucket that it has not linked yet. */
  method WriteInfo(a: HashTable, b: HashTable, x: nat, w: Word)
    requires Sharing(a, b)
    modifies a.memory`info
    ensures Sharing(a, b) && a.memory.info == old(a.memory.info)[x := w]
    ensures a.Model() == old(a.Model()) && b.Model() == old(b.Model())
  {
    InfoIsApart(a.memory.Model(), a.memory.info[x := w], a.buckets, a.chains, a.double);
    InfoIsApart(a.memory.Model(), a.memory.info[x := w], b.buckets, b.chains, b.double);
    a.memory.info := a.memory.info[x := w];
  }

  method Insert(a: HashTable, b: HashTable, x: nat, h: Word, w: Word, place: nat, ghost hash: map<nat, nat>)
    requires Sharing(a, b) && Ok(PairOf(a, b, hash)) && CorrectA(PairOf(a, b, hash), OpInsert(x, h, w))
    requires place != a.buckets && place != b.buckets
    modifies a, a.memory
    ensures Sharing(a, b)
    ensures PairOf(a, b, hash[x := h]) == StepA(old(PairOf(a, b, hash)), OpInsert(x, h, w))
  {
    ghost var p := PairOf(a, b, hash);
    OtherInv(a.Model(), hash, a.memory.info, hash, a.memory.info[x := w]);
    WriteInfo(a, b, x, w);
    ghost var heap := a.memory.Model();
    a.Enter(x, h, place, hash);
    TableKept(heap, a.memory.Model(), {old(a.buckets), place}, Members(p.a.chains) + {x},
              b.buckets, b.chains, b.double);
    assert a.memory.info[x := w] == a.memory.info;
    assert hash[x := h] == p.hash[x := h];
  }

  method Remove(a: HashTable, b: HashTable, x: nat, hash: map<nat, nat>)
    requires Sharing(a, b) && Ok(PairOf(a, b, hash)) && CorrectA(PairOf(a, b, hash), OpRemove(x))
    modifies a, a.memory
    ensures Sharing(a, b)
    ensures PairOf(a, b, hash) == StepA(old(PairOf(a, b, hash)), OpRemove(x))
  {
    ghost var heap, xs := a.memory.Model(), Members(a.chains);
    if a.double {
      a.RemoveDouble(x, hash);
    } else {
      a.RemoveSingle(x, hash[x], hash);
    }
    TableKept(heap, a.memory.Model(), {a.buckets}, xs, b.buckets, b.chains, b.double);
  }

  /** Counting references, `up` or down. */
  method Count(a: HashTable, b: HashTable, x: nat, n: nat, up: bool, ghost hash: map<nat, nat>)
    requires Sharing(a, b) && Ok(PairOf(a, b, hash)) && n <= 32
    requires CorrectA(PairOf(a, b, hash), if up then OpIncRef(x, n) else OpDecRef(x, n))
    modifies a.memory`info
    ensures Sharing(a, b)
    ensures PairOf(a, b, hash) == StepA(old(PairOf(a, b, hash)), if up then OpIncRef(x, n) else OpDecRef(x, n))
  {
    ghost var heap := a.memory.Model();
    if up {
      a.memory.IncRef(x, n);
    } else {
      var zero := a.memory.DecRef(x, n);
    }
    InfoIsApart(heap, a.memory.info, a.buckets, a.chains, a.double);
    InfoIsApart(heap, a.memory.info, b.buckets, b.chains, b.double);
  }

  method Reset(a: HashTable, b: HashTable, ghost hash: map<nat, nat>)
    requires Sharing(a, b) && Ok(PairOf(a, b, hash))
    modifies a, a.memory
    ensures Sharing(a, b) && PairOf(a, b, hash) == StepA(old(PairOf(a, b, hash)), OpReset)
  {
    ghost var heap := a.memory.Model();
    a.Reset();
    TableKept(heap, a.memory.Model(), {a.buckets}, {}, b.buckets, b.chains, b.double);
  }

  /** One operation on the first of two tables; returns the hash values with which buckets were entered. */
  method OneCall(a: HashTable, b: HashTable, op: Op, place: nat, hash0: map<nat, nat>) returns (hash: map<nat, nat>)
    requires Sharing(a, b) && Ok(PairOf(a, b, hash0)) && CorrectA(PairOf(a, b, hash0), op)
    requires place != a.buckets && place != b.buckets
    modifies a, a.memory
    ensures Sharing(a, b) && PairOf(a, b, hash) == StepA(old(PairOf(a, b, hash0)), op)
  {
    hash := hash0;
    match op
    case OpInsert(x, h, w) =>
      Insert(a, b, x, h, w, place, hash0);
      hash := hash0[x := h];
    case OpRemove(x) => Remove(a, b, x, hash0);
    case OpEnable => a.EnableRehash();
    case OpDisable => a.DisableRehash();
    case OpReset => Reset(a, b, hash0);
    case OpIncRef(x, n) => Count(a, b, x, n, true, hash0);
    case OpDecRef(x, n) => Count(a, b, x, n, false, hash0);
  }

  /** One call on either table, or on both. */
  method PairCall(a: HashTable, b: HashTable, call: Call, place: nat, hash0: map<nat, nat>)
    returns (hash: map<nat, nat>)
    requires Sharing(a, b) && Ok(PairOf(a, b, hash0)) && SwapRuns.Correct(PairOf(a, b, hash0), call)
    requires place != a.buckets && place != b.buckets
    modifies a, b, a.memory
    ensures Sharing(a, b) && PairOf(a, b, hash) == SwapRuns.Step(old(PairOf(a, b, hash0)), call)
  {
    match call
    case OnA(op) => hash := OneCall(a, b, op, place, hash0);
    case OnB(op) => hash := OneCall(b, a, op, place, hash0);
    case Swap =>
      a.Swap(b);
      hash := hash0;
  }

  lemma NextCall(p: Pair, calls: seq<Call>, i: nat)
    requires i < |calls| && Ok(p) && SwapRuns.CorrectRun(p, calls[i..])
    ensures SwapRuns.Correct(p, calls[i])
    ensures var q := SwapRuns.Step(p, calls[i]);
            && Ok(q) && SwapRuns.CorrectRun(q, calls[i + 1..])
            && SwapRuns.After(p, calls[i..]) == SwapRuns.After(q, calls[i + 1..])
  {
    assert calls[i..][0] == calls[i] && calls[i..][1..] == calls[i + 1..];
    StepKeepsOk(p, calls[i]);
  }

  /** Any sequence of calls on two tables in one memory. `place` tells where the system puts the array that call
      number `i` may need: anywhere but on an array in use. */
  method Run(a: HashTable, b: HashTable, calls: seq<Call>, place: (nat, nat, nat) -> nat, hash0: map<nat, nat>)
    returns (hash: map<nat, nat>)
    requires Sharing(a, b) && Ok(PairOf(a, b, hash0)) && SwapRuns.CorrectRun(PairOf(a, b, hash0), calls)
    requires forall i, x, y :: place(i, x, y) != x && place(i, x, y) != y
    modifies a, b, a.memory
    ensures Sharing(a, b) && Ok(PairOf(a, b, hash))
    ensures PairOf(a, b, hash) == SwapRuns.After(old(PairOf(a, b, hash0)), calls)
  {
    ghost var p := PairOf(a, b, hash0);
    ghost var end := SwapRuns.After(p, calls);
    hash := hash0;
    for i := 0 to |calls|
      invariant Sharing(a, b) && p == PairOf(a, b, hash) && Ok(p)
      invariant SwapRuns.CorrectRun(p, calls[i..]) && SwapRuns.After(p, calls[i..]) == end
    {
      NextCall(p, calls, i);
      p := SwapRuns.Step(p, calls[i]);
      hash := PairCall(a, b, calls[i], place(i, a.buckets, b.buckets), hash);
    }
  }
}
