/** Runs of the allocation monitor, and deletions that undo allocations. */
module MonitorRuns {
  import opened Splitting
  import opened Words
  import opened MonitorModel
  import opened MonitorProofs

  datatype Op =
    | OpRemember(ptr: nat, size: nat, memory: bool)
    | OpRememberAt(ptr: nat, size: nat, pos: Position, memory: bool)
    | OpForget(ptr: nat, nosize: bool)
  {
    /** What the source asserts: only the second form records user pointers, with NOSIZE. */
    predicate Valid() {
      OpRemember? ==> size != NOSIZE
    }
  }

  function Step(y: Layout, m: Monitor, op: Op): Monitor
    requires |m.chains| > 0
    requires op.OpForget? ==>
               var l := m.chains[Index(op.ptr, |m.chains|)]; Find(l, op.ptr, op.nosize) < |l| ==> m.nb > 0
  {
    match op
    case OpRemember(ptr, size, memory) => Remember(y, m, ptr, size, memory)
    case OpRememberAt(ptr, size, pos, memory) => RememberAt(y, m, ptr, size, pos, memory)
    case OpForget(ptr, nosize) => Forget(y, m, ptr, nosize)
  }

  /** The size is storable, or it is not looked at. */
  predicate Clean(m: Monitor, op: Op)
    requires |m.chains| > 0
  {
    match op
    case OpRemember(ptr, size, memory) => Registered(m.chains[Index(ptr, |m.chains|)], ptr) || Storable(size)
    case OpRememberAt(ptr, size, pos, memory) =>
      size == NOSIZE || Registered(m.chains[Index(ptr, |m.chains|)], ptr) || Storable(size)
    case OpForget(ptr, nosize) => true
  }

  /** A call that meets the assertions keeps the invariant exactly if its size is storable or ignored. */
  lemma StepKeepsInvIff(y: Layout, m: Monitor, op: Op)
    requires Inv(y, m) && op.Valid()
    ensures op.OpForget? ==>
              var l := m.chains[Index(op.ptr, |m.chains|)]; Find(l, op.ptr, op.nosize) < |l| ==> m.nb > 0
    ensures Inv(y, Step(y, m, op)) <==> Clean(m, op)
  {
    match op
    case OpRemember(ptr, size, memory) => RememberKeepsInvIff(y, m, ptr, size, memory);
    case OpRememberAt(ptr, size, pos, memory) => RememberAtKeepsInvIff(y, m, ptr, size, pos, memory);
    case OpForget(ptr, nosize) => ForgetKeepsInv(y, m, ptr, nosize);
  }

  /** All sizes that the run records are storable. */
  ghost predicate CleanRun(y: Layout, m: Monitor, ops: seq<Op>)
    requires Inv(y, m)
    decreases |ops|
  {
    ops == [] ||
    (ops[0].Valid() && Clean(m, ops[0]) &&
     (StepKeepsInvIff(y, m, ops[0]);
      CleanRun(y, Step(y, m, ops[0]), ops[1..])))
  }

  lemma NewIsOk(y: Layout)
    ensures Inv(y, New(y)) && WeightAll(New(y).chains, INIT_SIZE, Amount) == 0
    ensures |New(y).chains| == 1024 && forall i :: 0 <= i < 1024 ==> New(y).chains[i] == []
    ensures New(y).nb == 0 == New(y).total == New(y).peak
    ensures New(y).overhead == New(y).maxOverhead == Wrap(y.self + 1024 * y.pointer)
  {
    var m := New(y);
    assert SizeOk(INIT_SIZE) by {
      assert Pow2(10) == 1024;
    }
    WeightEmpty(m.chains, INIT_SIZE, One);
    WeightEmpty(m.chains, INIT_SIZE, Amount);
    WeightEmpty(m.chains, INIT_SIZE, BytesOf(y));
  }

  // ---- forget undoes remember ----

  lemma {:induction false} FindSized(l: seq<Record>, r: Record, j: nat)
    requires OneSized(l) && j < |l| && l[j] == r && Sized(r)
    ensures Find(l, r.ptr, false) == j
    decreases |l|
  {
    if j > 0 {
      assert l[0].ptr != r.ptr || !Sized(l[0]);
      assert OneSized(l[1..]) && l[1..][j - 1] == r;
      FindSized(l[1..], r, j - 1);
    }
  }

  /** forget finds a record exactly when the pointer is registered. */
  lemma FoundIffRegistered(l: seq<Record>, ptr: nat)
    requires OneSized(l)
    ensures Find(l, ptr, false) < |l| <==> Registered(l, ptr)
  {
    var k := Find(l, ptr, false);
    if k < |l| {
      assert l[k] in l;
    }
    if Registered(l, ptr) {
      var r :| r in l && r.ptr == ptr && Sized(r);
      var j :| 0 <= j < |l| && l[j] == r;
      FindSized(l, r, j);
    }
  }

  lemma OthersUnregistered(l: seq<Record>, k: nat)
    requires OneSized(l) && k < |l| && Sized(l[k])
    ensures !Registered(l[..k] + l[k + 1..], l[k].ptr)
  {
    var q := l[..k] + l[k + 1..];
    forall r | r in q && Sized(r)
      ensures r.ptr != l[k].ptr
    {
      var j :| 0 <= j < |q| && q[j] == r;
      assert q[j] == l[if j < k then j else j + 1];
    }
  }

  /** After forget the pointer is no longer registered. */
  lemma ForgetUnregisters(y: Layout, m: Monitor, ptr: nat)
    requires Inv(y, m) && ptr != 0
    ensures var l := m.chains[Index(ptr, |m.chains|)];
            && (Find(l, ptr, false) < |l| <==> Registered(l, ptr))
            && (Find(l, ptr, false) < |l| ==> m.nb > 0)
    ensures !Registered(Forget(y, m, ptr, false).chains[Index(ptr, |m.chains|)], ptr)
  {
    FoundIsCounted(y, m, ptr, false);
    var l := m.chains[Index(ptr, |m.chains|)];
    FoundIffRegistered(l, ptr);
    if Registered(l, ptr) {
      OthersUnregistered(l, Find(l, ptr, false));
    }
  }

  /** Only the new record can be a sized record of a pointer that was not registered. */
  lemma MatchIsEntered(y: Layout, m: Monitor, r: Record, size: nat, memory: bool, x: Record)
    requires SizeOk(|m.chains|) && |m.chains| > 0 && !Registered(m.chains[Index(r.ptr, |m.chains|)], r.ptr)
    requires var n := Enter(y, m, r, size, memory); x in n.chains[Index(r.ptr, |n.chains|)]
    requires x.ptr == r.ptr && Sized(x)
    ensures x == r
  {
    var s := |m.chains|;
    var i := Index(r.ptr, s);
    var c := m.chains[i := [r] + m.chains[i]];
    SpillMembers(c[i], [], High(s), false, x);
    SpillMembers(c[i], [], High(s), true, x);
    HighIndex(r, s);
    EnterChains(y, m, r, size, memory);
    assert x in c[i];
    assert x !in m.chains[i];
  }

  lemma EnteredIsThere(y: Layout, m: Monitor, r: Record, size: nat, memory: bool)
    requires SizeOk(|m.chains|) && |m.chains| > 0
    ensures var n := Enter(y, m, r, size, memory); r in n.chains[Index(r.ptr, |n.chains|)]
  {
    var s := |m.chains|;
    var i := Index(r.ptr, s);
    var c := m.chains[i := [r] + m.chains[i]];
    assert r in c[i];
    SpillMembers(c[i], [], High(s), false, r);
    SpillMembers(c[i], [], High(s), true, r);
    HighIndex(r, s);
    EnterChains(y, m, r, size, memory);
  }

  /** What has just been remembered is what forget finds. */
  lemma RememberedIsFound(y: Layout, m: Monitor, r: Record, size: nat, memory: bool)
    requires Inv(y, m) && MadeFor(r, size) && size != NOSIZE && Storable(size)
    requires !Registered(m.chains[Index(r.ptr, |m.chains|)], r.ptr)
    ensures var n := Enter(y, m, r, size, memory);
            var l := n.chains[Index(r.ptr, |n.chains|)];
            && Inv(y, n) && n.nb > 0
            && Find(l, r.ptr, false) < |l| && l[Find(l, r.ptr, false)] == r
  {
    var n := Enter(y, m, r, size, memory);
    var i := Index(r.ptr, |n.chains|);
    SizedEnterIff(y, m, r, size, memory);
    AmountKeptIff(r, size);
    EnteredIsThere(y, m, r, size, memory);
    var j :| 0 <= j < |n.chains[i]| && n.chains[i][j] == r;
    FindSized(n.chains[i], r, j);
    FoundIsCounted(y, n, r.ptr, false);
  }

  /** The records and counters are as before, except for what a larger table takes. */
  predicate Restored(y: Layout, m: Monitor, n: Monitor) {
    && n.nb == m.nb && n.total == m.total
    && n.overhead == Wrap(m.overhead + (|n.chains| - |m.chains|) * y.pointer)
  }

  /** Forgetting what has just been remembered restores every sum over the records, with or without a rehash
      in between. */
  lemma ForgetUndoesRemember(y: Layout, m: Monitor, r: Record, size: nat, memory: bool, w: Record -> nat)
    requires Inv(y, m) && r.ptr != 0 && MadeFor(r, size) && size != NOSIZE && Storable(size)
    requires !Registered(m.chains[Index(r.ptr, |m.chains|)], r.ptr)
    ensures var n := Enter(y, m, r, size, memory);
            Find(n.chains[Index(r.ptr, |n.chains|)], r.ptr, false) < |n.chains[Index(r.ptr, |n.chains|)]| && n.nb > 0
    ensures var n := Forget(y, Enter(y, m, r, size, memory), r.ptr, false);
            WeightAll(n.chains, |n.chains|, w) == WeightAll(m.chains, |m.chains|, w)
  {
    var n := Enter(y, m, r, size, memory);
    RememberedIsFound(y, m, r, size, memory);
    EnterWeight(y, m, r, size, memory, w);
    ForgetDrops(y, n, r.ptr, Index(r.ptr, |n.chains|), r, w);
  }

  lemma ForgetDrops(y: Layout, n: Monitor, ptr: nat, i: nat, r: Record, w: Record -> nat)
    requires |n.chains| > 0 && i == Index(ptr, |n.chains|) && ptr != 0 && n.nb > 0
    requires Find(n.chains[i], ptr, false) < |n.chains[i]| && n.chains[i][Find(n.chains[i], ptr, false)] == r
    ensures var q := Forget(y, n, ptr, false);
            WeightAll(n.chains, |n.chains|, w) == WeightAll(q.chains, |q.chains|, w) + w(r)
  {
    ForgetWeight(n.chains, i, Find(n.chains[i], ptr, false), w);
  }

  lemma TableGrowth(rest: int, s: nat, q: nat, p: nat)
    ensures Wrap(Wrap(rest + s * p) + (q - s) * p) == Wrap(rest + q * p)
  {
    WrapAdd(rest + s * p, (q - s) * p);
    assert s * p + (q - s) * p == q * p;
  }

  lemma SameOverhead(y: Layout, s: nat, q: nat, bytes: nat)
    ensures OverheadOf(y, q, bytes) == Wrap(OverheadOf(y, s, bytes) + (q - s) * y.pointer)
  {
    TableGrowth(y.self + bytes, s, q, y.pointer);
  }

  /** Equal sums make equal counters. */
  lemma SameSums(y: Layout, m: Monitor, n: Monitor)
    requires Counted(y, m) && Counted(y, n)
    requires WeightAll(n.chains, |n.chains|, One) == WeightAll(m.chains, |m.chains|, One)
    requires WeightAll(n.chains, |n.chains|, Amount) == WeightAll(m.chains, |m.chains|, Amount)
    requires WeightAll(n.chains, |n.chains|, BytesOf(y)) == WeightAll(m.chains, |m.chains|, BytesOf(y))
    ensures Restored(y, m, n)
  {
    SameOverhead(y, |m.chains|, |n.chains|, WeightAll(m.chains, |m.chains|, BytesOf(y)));
  }

  lemma RestoredIfStorable(y: Layout, m: Monitor, r: Record, size: nat, memory: bool)
    requires Inv(y, m) && r.ptr != 0 && MadeFor(r, size) && size != NOSIZE && Storable(size)
    requires !Registered(m.chains[Index(r.ptr, |m.chains|)], r.ptr)
    ensures Enter(y, m, r, size, memory).nb > 0
    ensures Restored(y, m, Forget(y, Enter(y, m, r, size, memory), r.ptr, false))
  {
    SizedEnterIff(y, m, r, size, memory);
    ForgetUndoesRemember(y, m, r, size, memory, One);
    ForgetUndoesRemember(y, m, r, size, memory, Amount);
    ForgetUndoesRemember(y, m, r, size, memory, BytesOf(y));
    ForgetKeepsInv(y, Enter(y, m, r, size, memory), r.ptr, false);
    SameSums(y, m, Forget(y, Enter(y, m, r, size, memory), r.ptr, false));
  }

  /** `t` was added and `b` is taken away again. */
  lemma TotalRestored(total: int, t: nat, b: nat)
    requires b < WORD && Wrap(total) == total && Wrap(Wrap(total + t) - b) == total
    ensures t % WORD == b
  {
    WrapAdd(total + t, -(b as int));
    WrapCongruentIff(total - b, t, b);
    DivModUnique(b, WORD, 0, b);
  }

  lemma TotalAfterForget(y: Layout, n: Monitor, ptr: nat, i: nat)
    requires |n.chains| > 0 && ptr != 0 && i == Index(ptr, |n.chains|) && n.nb > 0
    ensures var k := Find(n.chains[i], ptr, false);
            k < |n.chains[i]| ==> Forget(y, n, ptr, false).total == Wrap(n.total - BucketSize(n.chains[i][k]))
    ensures Find(n.chains[i], ptr, false) == |n.chains[i]| ==> Forget(y, n, ptr, false).nb == n.nb
  {
  }

  /** If the number of records is restored, forget has found the new record. */
  lemma EnteredIfRestored(y: Layout, m: Monitor, r: Record, size: nat, memory: bool)
    requires SizeOk(|m.chains|) && |m.chains| > 0 && r.ptr != 0
    requires !Registered(m.chains[Index(r.ptr, |m.chains|)], r.ptr)
    requires var n := Enter(y, m, r, size, memory);
             n.nb > 0 && Forget(y, n, r.ptr, false).nb == m.nb
    ensures Sized(r)
    ensures var n := Enter(y, m, r, size, memory); Forget(y, n, r.ptr, false).total == Wrap(n.total - BucketSize(r))
  {
    var n := Enter(y, m, r, size, memory);
    var i := Index(r.ptr, |n.chains|);
    var k := Find(n.chains[i], r.ptr, false);
    EnterChains(y, m, r, size, memory);
    TotalAfterForget(y, n, r.ptr, i);
    MatchIsEntered(y, m, r, size, memory, n.chains[i][k]);
  }

  lemma StorableIfRestored(y: Layout, m: Monitor, r: Record, size: nat, memory: bool)
    requires Inv(y, m) && r.ptr != 0 && MadeFor(r, size) && size != NOSIZE
    requires !Registered(m.chains[Index(r.ptr, |m.chains|)], r.ptr)
    ensures Enter(y, m, r, size, memory).nb > 0
    ensures Restored(y, m, Forget(y, Enter(y, m, r, size, memory), r.ptr, false)) ==> Storable(size)
  {
    EnterChains(y, m, r, size, memory);
    if Restored(y, m, Forget(y, Enter(y, m, r, size, memory), r.ptr, false)) {
      EnteredIfRestored(y, m, r, size, memory);
      AmountKeptIff(r, size);
      SizeParts(r.size);
      WrapWrap(WeightAll(m.chains, |m.chains|, Amount));
      TotalRestored(m.total, size, BucketSize(r));
      DivModUnique(BucketSize(r), WORD, 0, BucketSize(r));
    }
  }

  lemma WrapWrap(x: int)
    ensures Wrap(Wrap(x)) == Wrap(x)
  {
    WrapAdd(x, 0);
  }

  // ---- every call of remember ----

  /** Forgetting a pointer that was registered already takes its older record away. */
  lemma RegisteredIsLost(y: Layout, m: Monitor, ptr: nat)
    requires Inv(y, m) && Registered(m.chains[Index(ptr, |m.chains|)], ptr)
    ensures m.nb > 0 && (Restored(y, m, Forget(y, m, ptr, false)) <==> ptr == 0)
  {
    FoundIffRegistered(m.chains[Index(ptr, |m.chains|)], ptr);
    FoundIsCounted(y, m, ptr, false);
    NothingForgotten(y, m);
  }

  lemma NothingForgotten(y: Layout, m: Monitor)
    requires Inv(y, m)
    ensures Restored(y, m, m)
  {
    WrapWrap(y.self + |m.chains| * y.pointer + WeightAll(m.chains, |m.chains|, BytesOf(y)));
  }

  /** forget ignores the null pointer, which remember has recorded. */
  lemma NullIsKept(y: Layout, m: Monitor, r: Record, size: nat, memory: bool, nosize: bool)
    requires |m.chains| > 0 && r.ptr == 0
    ensures Enter(y, m, r, size, memory).nb > 0
    ensures !Restored(y, m, Forget(y, Enter(y, m, r, size, memory), 0, nosize))
  {
    EnterChains(y, m, r, size, memory);
  }

  lemma EnteredRestoredIff(y: Layout, m: Monitor, r: Record, size: nat, memory: bool)
    requires Inv(y, m) && MadeFor(r, size) && size != NOSIZE
    requires !Registered(m.chains[Index(r.ptr, |m.chains|)], r.ptr)
    ensures Enter(y, m, r, size, memory).nb > 0
    ensures Restored(y, m, Forget(y, Enter(y, m, r, size, memory), r.ptr, false)) <==> r.ptr != 0 && Storable(size)
  {
    EnterChains(y, m, r, size, memory);
    if r.ptr == 0 {
      NullIsKept(y, m, r, size, memory, false);
    } else if Storable(size) {
      RestoredIfStorable(y, m, r, size, memory);
    } else {
      StorableIfRestored(y, m, r, size, memory);
    }
  }

  /** For every pointer, and every size but NOSIZE, which the source asserts: forgetting what has just been
      remembered restores the counters exactly if the size is storable and the pointer is neither null nor
      registered before. Of a null pointer that is registered, neither call changes anything. */
  lemma ForgetRestoresIff(y: Layout, m: Monitor, ptr: nat, size: nat, memory: bool)
    requires Inv(y, m) && size != NOSIZE
    ensures Remember(y, m, ptr, size, memory).nb > 0
    ensures Restored(y, m, Forget(y, Remember(y, m, ptr, size, memory), ptr, false))
       <==> if Registered(m.chains[Index(ptr, |m.chains|)], ptr) then ptr == 0 else ptr != 0 && Storable(size)
  {
    if Registered(m.chains[Index(ptr, |m.chains|)], ptr) {
      RegisteredIsLost(y, m, ptr);
    } else {
      EnteredRestoredIff(y, m, Mem(ptr, size), size, memory);
    }
  }

  /** A record of the size NOSIZE is not found by the forget of sized pointers. */
  lemma UserIsKept(y: Layout, m: Monitor, ptr: nat, pos: Position, memory: bool)
    requires Inv(y, m) && !Registered(m.chains[Index(ptr, |m.chains|)], ptr)
    ensures RememberAt(y, m, ptr, NOSIZE, pos, memory).nb > 0
    ensures !Restored(y, m, Forget(y, RememberAt(y, m, ptr, NOSIZE, pos, memory), ptr, false))
  {
    var r := ExtMem(ptr, Or(NOSIZE, EXTENSION_BIT), pos);
    UserRecord(ptr, pos);
    EnterChains(y, m, r, NOSIZE, memory);
    if ptr == 0 {
      NullIsKept(y, m, r, NOSIZE, memory, false);
    } else if Restored(y, m, Forget(y, Enter(y, m, r, NOSIZE, memory), ptr, false)) {
      EnteredIfRestored(y, m, r, NOSIZE, memory);
    }
  }

  /** The same for the second form of remember, whatever the size. */
  lemma ForgetRestoresAtIff(y: Layout, m: Monitor, ptr: nat, size: nat, pos: Position, memory: bool)
    requires Inv(y, m) && (size == NOSIZE ==> !Registered(m.chains[Index(ptr, |m.chains|)], ptr))
    ensures RememberAt(y, m, ptr, size, pos, memory).nb > 0
    ensures Restored(y, m, Forget(y, RememberAt(y, m, ptr, size, pos, memory), ptr, false))
       <==> if Registered(m.chains[Index(ptr, |m.chains|)], ptr) then ptr == 0 else ptr != 0 && Storable(size)
  {
    if size == NOSIZE {
      UserIsKept(y, m, ptr, pos, memory);
      UserSize(size);
    } else if Registered(m.chains[Index(ptr, |m.chains|)], ptr) {
      RegisteredIsLost(y, m, ptr);
    } else {
      EnteredRestoredIff(y, m, ExtMem(ptr, Or(size, EXTENSION_BIT), pos), size, memory);
    }
  }

  // ---- user pointers ----

  lemma UserSize(size: nat)
    requires size == NOSIZE
    ensures !Storable(size)
  {
    SizeParts(size);
    DivModUnique(size, EXTENSION_BIT, 0, size);
  }

  lemma UserRecord(ptr: nat, pos: Position)
    ensures var r := ExtMem(ptr, Or(NOSIZE, EXTENSION_BIT), pos); RecordOk(r) && !Sized(r)
  {
    RecordKeeps(NOSIZE, ptr, pos);
    DivModUnique(NOSIZE, EXTENSION_BIT, 0, NOSIZE);
  }

  /** All records of user pointers weigh the same. */
  ghost predicate SameForUsers(w: Record -> nat, v: nat) {
    forall x: Record :: Extended(x) && !Sized(x) ==> w(x) == v
  }

  lemma UserWeights(y: Layout)
    ensures SameForUsers(One, 1) && SameForUsers(Amount, 0) && SameForUsers(BytesOf(y), y.ext)
  {
  }

  lemma {:induction false} FindsSome(l: seq<Record>, ptr: nat, nosize: bool, j: nat)
    requires j < |l| && Matches(l[j], ptr, nosize)
    ensures Find(l, ptr, nosize) <= j
    decreases |l|
  {
    if j > 0 {
      FindsSome(l[1..], ptr, nosize, j - 1);
    }
  }

  /** forget finds a record of the user pointer: this one or an older one. */
  lemma UserIsFound(y: Layout, m: Monitor, r: Record, memory: bool)
    requires SizeOk(|m.chains|) && |m.chains| > 0 && !Sized(r)
    ensures var n := Enter(y, m, r, NOSIZE, memory);
            var l := n.chains[Index(r.ptr, |n.chains|)]; Find(l, r.ptr, true) < |l| && n.nb > 0
  {
    var n := Enter(y, m, r, NOSIZE, memory);
    var l := n.chains[Index(r.ptr, |n.chains|)];
    EnterChains(y, m, r, NOSIZE, memory);
    EnteredIsThere(y, m, r, NOSIZE, memory);
    var j :| 0 <= j < |l| && l[j] == r;
    FindsSome(l, r.ptr, true, j);
  }

  lemma UserDrops(y: Layout, n: Monitor, ptr: nat, i: nat, k: nat, w: Record -> nat, v: nat)
    requires Placed(n.chains) && |n.chains| > 0 && i == Index(ptr, |n.chains|) && ptr != 0 && n.nb > 0
    requires k == Find(n.chains[i], ptr, true) && k < |n.chains[i]| && SameForUsers(w, v)
    ensures var q := Forget(y, n, ptr, true);
            WeightAll(n.chains, |n.chains|, w) == WeightAll(q.chains, |q.chains|, w) + v
  {
    UnsizedIsExtended(n.chains[i][k]);
    ForgetWeight(n.chains, i, k, w);
  }

  lemma UserUndone(y: Layout, m: Monitor, r: Record, memory: bool, w: Record -> nat, v: nat)
    requires Inv(y, m) && r.ptr != 0 && RecordOk(r) && !Sized(r) && SameForUsers(w, v)
    requires Placed(Enter(y, m, r, NOSIZE, memory).chains)
    ensures Enter(y, m, r, NOSIZE, memory).nb > 0
    ensures var n := Forget(y, Enter(y, m, r, NOSIZE, memory), r.ptr, true);
            WeightAll(n.chains, |n.chains|, w) == WeightAll(m.chains, |m.chains|, w)
  {
    var n := Enter(y, m, r, NOSIZE, memory);
    var i := Index(r.ptr, |n.chains|);
    UserIsFound(y, m, r, memory);
    UnsizedIsExtended(r);
    EnterWeight(y, m, r, NOSIZE, memory, w);
    UserDrops(y, n, r.ptr, i, Find(n.chains[i], r.ptr, true), w, v);
  }

  /** debug_forget undoes debug_remember for every user pointer but null, registered or recorded before or not;
      null is recorded for ever. */
  lemma UserRestoredIff(y: Layout, m: Monitor, ptr: nat, pos: Position, memory: bool)
    requires Inv(y, m)
    ensures RememberAt(y, m, ptr, NOSIZE, pos, memory).nb > 0
    ensures Restored(y, m, Forget(y, RememberAt(y, m, ptr, NOSIZE, pos, memory), ptr, true)) <==> ptr != 0
  {
    var r := ExtMem(ptr, Or(NOSIZE, EXTENSION_BIT), pos);
    EnterChains(y, m, r, NOSIZE, memory);
    if ptr == 0 {
      NullIsKept(y, m, r, NOSIZE, memory, true);
    } else {
      RememberAtKeepsInvIff(y, m, ptr, NOSIZE, pos, memory);
      UserRecord(ptr, pos);
      UserSumsKept(y, m, r, memory);
    }
  }

  lemma UserSumsKept(y: Layout, m: Monitor, r: Record, memory: bool)
    requires Inv(y, m) && r.ptr != 0 && RecordOk(r) && !Sized(r) && Inv(y, Enter(y, m, r, NOSIZE, memory))
    ensures Enter(y, m, r, NOSIZE, memory).nb > 0
    ensures Restored(y, m, Forget(y, Enter(y, m, r, NOSIZE, memory), r.ptr, true))
  {
    UserWeights(y);
    UserUndone(y, m, r, memory, One, 1);
    UserUndone(y, m, r, memory, Amount, 0);
    UserUndone(y, m, r, memory, BytesOf(y), y.ext);
    ForgetKeepsInv(y, Enter(y, m, r, NOSIZE, memory), r.ptr, true);
    SameSums(y, m, Forget(y, Enter(y, m, r, NOSIZE, memory), r.ptr, true));
  }
}
