/** The counters of the allocation monitor agree with its records. */
module MonitorProofs {
  import opened Splitting
  import opened Words
  import opened MonitorModel

  // ---- 32-bit counters ----

  lemma WrapModulus(x: int, k: int)
    ensures Wrap(x + k * WORD) == Wrap(x)
  {
    ModShift(x + 0x8000_0000, k);
  }

  lemma ModShift(x: int, k: int)
    ensures (x + k * WORD) % WORD == x % WORD
  {
    var q, r := x / WORD, x % WORD;
    assert x + k * WORD == (q + k) * WORD + r;
    var d := (x + k * WORD) / WORD - (q + k);
    assert d * WORD == r - (x + k * WORD) % WORD;
    assert d == 0;
  }

  /** Wrapping can be postponed. */
  lemma WrapAdd(x: int, y: int)
    ensures Wrap(Wrap(x) + y) == Wrap(x + y)
  {
    var k := -((x + 0x8000_0000) / WORD);
    assert Wrap(x) == x + k * WORD;
    assert Wrap(x) + y == (x + y) + k * WORD;
    WrapModulus(x + y, k);
  }

  lemma WrapExact(x: int)
    ensures Wrap(x) == x <==> -0x8000_0000 <= x < 0x8000_0000
  {
  }

  /** Rehashing keeps every sum over the records. */
  lemma RehashedWeight(chains: seq<seq<Record>>, w: Record -> nat)
    ensures WeightAll(Rehashed(chains), 2 * |chains|, w) == WeightAll(chains, |chains|, w)
  {
    SplitWeight(chains, High(|chains|), w);
  }

  // ---- rehash ----

  ghost predicate SizedApart(r: Record, l: seq<Record>) {
    Sized(r) ==> forall x :: x in l && Sized(x) ==> x.ptr != r.ptr
  }

  lemma {:induction false} SpillOneSized(l: seq<Record>, onto: seq<Record>, size: nat, high: bool)
    requires OneSized(l) && OneSized(onto) && forall r :: r in l ==> SizedApart(r, onto)
    ensures OneSized(Spill(l, onto, High(size), high))
    decreases |l|
  {
    if l != [] {
      var r, q := l[0], l[1..];
      assert OneSized(q) && SizedApart(r, onto);
      assert SizedApart(r, q) by {
        forall x | x in q && Sized(x) && Sized(r)
          ensures x.ptr != r.ptr
        {
          var j :| 0 <= j < |q| && q[j] == x;
          assert l[j + 1] == x && l[0] == r;
        }
      }
      forall x | x in q
        ensures SizedApart(x, [r] + onto)
      {
        assert SizedApart(x, onto);
      }
      SpillOneSized(q, if GoesHigh(r, size) == high then [r] + onto else onto, size, high);
    }
  }

  lemma HighIndex(r: Record, size: nat)
    requires SizeOk(size) && size > 0
    ensures Index(r.ptr, 2 * size) == if GoesHigh(r, size) then Index(r.ptr, size) + size else Index(r.ptr, size)
  {
    var k: nat :| size == Pow2(k);
    AndPow2(HashPtr(r.ptr), k);
    BitIsQuotient(HashPtr(r.ptr), k);
    ModDouble(HashPtr(r.ptr), size);
  }

  lemma SpilledAllAt(l: seq<Record>, i: nat, size: nat, high: bool)
    requires SizeOk(size) && size > 0 && AllAt(l, i, size)
    ensures AllAt(Spill(l, [], High(size), high), if high then i + size else i, 2 * size)
  {
    forall r | r in Spill(l, [], High(size), high)
      ensures RecordOk(r) && Index(r.ptr, 2 * size) == if high then i + size else i
    {
      SpillMembers(l, [], High(size), high, r);
      HighIndex(r, size);
    }
  }

  lemma RehashedAt(chains: seq<seq<Record>>, s: nat, i: nat, l: seq<Record>)
    requires SizeOk(s) && s == |chains| && Placed(chains) && i < 2 * s && l == Rehashed(chains)[i]
    ensures AllAt(l, i, 2 * s)
  {
    if i < s {
      assert AllAt(chains[i], i, s);
      SpilledAllAt(chains[i], i, s, false);
    } else {
      assert AllAt(chains[i - s], i - s, s);
      assert l == Rehashed(chains)[(i - s) + s];
      SpilledAllAt(chains[i - s], i - s, s, true);
    }
  }

  lemma RehashedPlaced(chains: seq<seq<Record>>)
    requires SizeOk(|chains|) && Placed(chains)
    ensures Placed(Rehashed(chains))
  {
    var s, q := |chains|, Rehashed(chains);
    forall i | 0 <= i < 2 * s
      ensures AllAt(q[i], i, 2 * s)
    {
      RehashedAt(chains, s, i, q[i]);
    }
  }

  lemma RehashedOneSized(chains: seq<seq<Record>>)
    requires forall i :: 0 <= i < |chains| ==> OneSized(chains[i])
    ensures forall i :: 0 <= i < 2 * |chains| ==> OneSized(Rehashed(chains)[i])
  {
    forall i | 0 <= i < 2 * |chains|
      ensures OneSized(Rehashed(chains)[i])
    {
      var j := if i < |chains| then i else i - |chains|;
      SpillOneSized(chains[j], [], |chains|, i >= |chains|);
    }
  }

  lemma RehashOverheadOk(y: Layout, m: Monitor, s: nat, bytes: nat)
    requires s == |m.chains| && m.overhead == OverheadOf(y, s, bytes)
    ensures Rehash(y, m).overhead == OverheadOf(y, 2 * s, bytes)
  {
    RehashOverhead(y.self + bytes, s, y.pointer);
  }

  lemma RehashCounted(y: Layout, m: Monitor)
    requires Counted(y, m)
    ensures Counted(y, Rehash(y, m))
  {
    var s := |m.chains|;
    RehashedWeight(m.chains, BytesOf(y));
    RehashOverheadOk(y, m, s, WeightAll(m.chains, s, BytesOf(y)));
    RehashTotals(y, m);
  }

  lemma RehashTotals(y: Layout, m: Monitor)
    ensures var n := Rehash(y, m);
            && n.nb == m.nb && n.total == m.total && |n.chains| == 2 * |m.chains|
            && WeightAll(n.chains, |n.chains|, One) == WeightAll(m.chains, |m.chains|, One)
            && WeightAll(n.chains, |n.chains|, Amount) == WeightAll(m.chains, |m.chains|, Amount)
  {
    RehashedWeight(m.chains, One);
    RehashedWeight(m.chains, Amount);
  }

  lemma RehashKeepsInv(y: Layout, m: Monitor)
    requires Inv(y, m)
    ensures Inv(y, Rehash(y, m))
  {
    DoubleSize(|m.chains|);
    RehashedPlaced(m.chains);
    RehashedOneSized(m.chains);
    RehashCounted(y, m);
  }

  lemma RehashOverhead(rest: int, s: nat, p: nat)
    ensures Wrap(Wrap(Wrap(rest + s * p) + 2 * s * p) - s * p) == Wrap(rest + 2 * s * p)
  {
    var a := s * p;
    assert 2 * s * p == 2 * a;
    WrapAdd(rest + a, 2 * a);
    WrapAdd(rest + 3 * a, -a);
  }

  // ---- sizes ----

  lemma {:induction false} OrAbove(x: nat, k: nat)
    ensures Or(x, Pow2(k)) % Pow2(k) == x % Pow2(k) && Bit(Or(x, Pow2(k)), k)
  {
    BitOfOr(x, Pow2(k), k);
    BitOfPow2(k, k);
    if k > 0 {
      OrAbove(x / 2, k - 1);
      var z := Or(x, Pow2(k));
      assert z / 2 == Or(x / 2, Pow2(k - 1)) && z % 2 == x % 2;
      DivModDouble(z, Pow2(k - 1));
      DivModDouble(x, Pow2(k - 1));
    }
  }

  /** A size in 32 bits is what BUCKETSIZE returns, and the extension bit. */
  lemma SizeParts(size: nat)
    ensures And(size, EXTENSION_BIT - 1) == size % EXTENSION_BIT
    ensures And(size, EXTENSION_BIT) == 0 || And(size, EXTENSION_BIT) == EXTENSION_BIT
    ensures size % WORD == size % EXTENSION_BIT + And(size, EXTENSION_BIT)
  {
    Pow2Of32();
    AndMask(size, 31);
    AndPow2(size, 31);
    BitIsQuotient(size, 31);
    ModDouble(size, EXTENSION_BIT);
  }

  /** The size word of a record, in numbers: bit 31 is the kind, the lower bits are the size or NOSIZE. */
  lemma SizeWord(r: Record)
    ensures BucketSize(r) == r.size % 0x8000_0000 && (Sized(r) <==> r.size % 0x8000_0000 != 0x7fff_ffff)
    ensures Extended(r) <==> r.size / 0x8000_0000 % 2 == 1
    ensures Storable(r.size) <==> r.size / 0x8000_0000 % 2 == 0 && r.size % 0x8000_0000 != 0x7fff_ffff
  {
    Pow2Of32();
    SizeParts(r.size);
    AndPow2(r.size, 31);
    BitIsQuotient(r.size, 31);
  }

  /** What the two kinds of record keep of a size. */
  lemma RecordKeeps(size: nat, ptr: nat, pos: Position)
    ensures BucketSize(Mem(ptr, size)) == size % EXTENSION_BIT
    ensures Extended(Mem(ptr, size)) <==> And(size, EXTENSION_BIT) != 0
    ensures var r := ExtMem(ptr, Or(size, EXTENSION_BIT), pos);
            BucketSize(r) == size % EXTENSION_BIT && Extended(r)
  {
    Pow2Of32();
    SizeParts(size);
    OrAbove(size, 31);
    SizeParts(Or(size, EXTENSION_BIT));
    AndPow2(Or(size, EXTENSION_BIT), 31);
  }

  /** BUCKETSIZE returns the size of a plain record exactly when it is below 2^31. */
  lemma PlainSizeKeptIff(ptr: nat, size: nat)
    ensures BucketSize(Mem(ptr, size)) == size <==> size < EXTENSION_BIT
  {
    SizeParts(size);
    if size < EXTENSION_BIT {
      DivModUnique(size, EXTENSION_BIT, 0, size);
    }
  }

  /** `r` is one of the records that remember makes for a size. */
  ghost predicate MadeFor(r: Record, size: nat) {
    match r
    case Mem(ptr, s) => s == size
    case ExtMem(ptr, s, pos) => s == Or(size, EXTENSION_BIT)
  }

  /** What a record stands for in `totalAlloc` is the size that was added there, in 32 bits, exactly for the
      storable sizes. */
  lemma AmountKeptIff(r: Record, size: nat)
    requires MadeFor(r, size) && size != NOSIZE
    ensures Amount(r) % WORD == size % WORD <==> Storable(size)
    ensures Storable(size) ==> RecordOk(r) && Sized(r) && Amount(r) == size % EXTENSION_BIT
  {
    RecordKeeps(size, r.ptr, Position(0, 0, 0));
    SizeParts(size);
    SizeParts(r.size);
    var b := size % EXTENSION_BIT;
    assert BucketSize(r) == b;
    DivModUnique(b, WORD, 0, b);
  }

  /** A size of 2^31, one of 2^32 + NOSIZE, and one of 2^32 + 5, which passes although BUCKETSIZE returns 5. */
  lemma StorableOrNot(half: nat, marked: nat, wrapped: nat)
    requires half == EXTENSION_BIT && marked == WORD + NOSIZE && wrapped == WORD + 5
    ensures !Storable(half) && !Storable(marked) && Storable(wrapped)
  {
    SizeParts(half);
    SizeParts(marked);
    SizeParts(wrapped);
    DivModUnique(half, WORD, 0, half);
    DivModUnique(half, EXTENSION_BIT, 1, 0);
    DivModUnique(marked, EXTENSION_BIT, 2, NOSIZE);
    DivModUnique(wrapped, EXTENSION_BIT, 2, 5);
    DivModUnique(wrapped, WORD, 1, 5);
  }

  lemma WrapCongruentIff(x: int, a: nat, b: nat)
    ensures Wrap(x + a) == Wrap(x + b) <==> a % WORD == b % WORD
  {
    WrapParts(x, a);
    WrapParts(x, b);
    WrapInjective(x, a % WORD, b % WORD);
  }

  lemma WrapParts(x: int, a: nat)
    ensures Wrap(x + a) == Wrap(x + a % WORD)
  {
    var k := a / WORD;
    assert a == a % WORD + k * WORD;
    WrapModulus(x + a % WORD, k);
    assert x + a == x + a % WORD + k * WORD;
  }

  lemma WrapInjective(x: int, a: nat, b: nat)
    requires a < WORD && b < WORD
    ensures Wrap(x + a) == Wrap(x + b) <==> a == b
  {
  }

  // ---- remember ----

  lemma EnterWeight(y: Layout, m: Monitor, r: Record, size: nat, memory: bool, w: Record -> nat)
    requires |m.chains| > 0
    ensures var n := Enter(y, m, r, size, memory);
            WeightAll(n.chains, |n.chains|, w) == WeightAll(m.chains, |m.chains|, w) + w(r)
  {
    var i := Index(r.ptr, |m.chains|);
    var c := m.chains[i := [r] + m.chains[i]];
    assert Weight([r] + m.chains[i], w) == w(r) + Weight(m.chains[i], w) by {
      assert ([r] + m.chains[i])[1..] == m.chains[i];
    }
    WeightUpdate(m.chains, i, [r] + m.chains[i], |m.chains|, w);
    EnterChains(y, m, r, size, memory);
    RehashedWeight(c, w);
  }

  lemma EnterChains(y: Layout, m: Monitor, r: Record, size: nat, memory: bool)
    requires |m.chains| > 0
    ensures var i := Index(r.ptr, |m.chains|);
            var c := m.chains[i := [r] + m.chains[i]];
            Enter(y, m, r, size, memory).chains == c || Enter(y, m, r, size, memory).chains == Rehashed(c)
    ensures var n := Enter(y, m, r, size, memory);
            n.nb == m.nb + 1 && n.total == if size != NOSIZE then Wrap(m.total + size) else m.total
  {
  }

  /** `totalAlloc` still is the sum over the records exactly if it was told what the record stands for. */
  lemma EnterTotal(y: Layout, m: Monitor, r: Record, size: nat, memory: bool)
    requires |m.chains| > 0 && m.total == Wrap(WeightAll(m.chains, |m.chains|, Amount))
    ensures var n := Enter(y, m, r, size, memory);
            n.total == Wrap(WeightAll(n.chains, |n.chains|, Amount))
            <==> Amount(r) % WORD == (if size != NOSIZE then size else 0) % WORD
  {
    var all := WeightAll(m.chains, |m.chains|, Amount);
    EnterWeight(y, m, r, size, memory, Amount);
    EnterChains(y, m, r, size, memory);
    WrapAdd(all, size);
    WrapCongruentIff(all, if size != NOSIZE then size else 0, Amount(r));
  }

  lemma EnterCounted(y: Layout, m: Monitor, r: Record, size: nat)
    requires |m.chains| > 0 && Counted(y, m) && RecordOk(r)
    requires Amount(r) % WORD == (if size != NOSIZE then size else 0) % WORD
    ensures Counted(y, Enter(y, m, r, size, false))
  {
    var s := |m.chains|;
    EnterWeight(y, m, r, size, false, One);
    EnterTotal(y, m, r, size, false);
    EnterWeight(y, m, r, size, false, BytesOf(y));
    WrapAdd(y.self + s * y.pointer + WeightAll(m.chains, s, BytesOf(y)), Bytes(y, r));
  }

  lemma EnterPlaced(m: Monitor, r: Record, i: nat)
    requires Placed(m.chains) && RecordOk(r) && i == Index(r.ptr, |m.chains|)
    requires forall j :: 0 <= j < |m.chains| ==> OneSized(m.chains[j])
    requires Sized(r) ==> !Registered(m.chains[i], r.ptr)
    ensures var c := m.chains[i := [r] + m.chains[i]];
            Placed(c) && forall j :: 0 <= j < |c| ==> OneSized(c[j])
  {
    var l := m.chains[i];
    assert OneSized([r] + l) by {
      forall k | 0 <= k < |l| && Sized(r) && Sized(l[k])
        ensures l[k].ptr != r.ptr
      {
        assert l[k] in l;
      }
      assert OneSized(l);
    }
  }

  /** Entering a record that is no second sized record of its pointer keeps the invariant. */
  lemma EnterKeepsInv(y: Layout, m: Monitor, r: Record, size: nat, memory: bool)
    requires Inv(y, m) && RecordOk(r)
    requires Amount(r) % WORD == (if size != NOSIZE then size else 0) % WORD
    requires Sized(r) ==> !Registered(m.chains[Index(r.ptr, |m.chains|)], r.ptr)
    ensures Inv(y, Enter(y, m, r, size, memory))
  {
    EnterAloneKeepsInv(y, m, r, size);
    RehashKeepsInv(y, Enter(y, m, r, size, false));
    EnterMayRehash(y, m, r, size, memory);
  }

  lemma EnterMayRehash(y: Layout, m: Monitor, r: Record, size: nat, memory: bool)
    requires |m.chains| > 0
    ensures var e, n := Enter(y, m, r, size, false), Enter(y, m, r, size, memory); n == e || n == Rehash(y, e)
  {
  }

  lemma EnterAloneKeepsInv(y: Layout, m: Monitor, r: Record, size: nat)
    requires Inv(y, m) && RecordOk(r)
    requires Amount(r) % WORD == (if size != NOSIZE then size else 0) % WORD
    requires Sized(r) ==> !Registered(m.chains[Index(r.ptr, |m.chains|)], r.ptr)
    ensures Inv(y, Enter(y, m, r, size, false))
  {
    EnterCounted(y, m, r, size);
    EnterPlaced(m, r, Index(r.ptr, |m.chains|));
  }

  /** remember with a size other than NOSIZE, which the source asserts: the invariant is kept exactly if the
      size is storable, or ignored because the pointer is registered. */
  lemma RememberKeepsInvIff(y: Layout, m: Monitor, ptr: nat, size: nat, memory: bool)
    requires Inv(y, m) && size != NOSIZE
    ensures Inv(y, Remember(y, m, ptr, size, memory))
       <==> Registered(m.chains[Index(ptr, |m.chains|)], ptr) || Storable(size)
  {
    if !Registered(m.chains[Index(ptr, |m.chains|)], ptr) {
      SizedEnterIff(y, m, Mem(ptr, size), size, memory);
    }
  }

  lemma SizedEnterIff(y: Layout, m: Monitor, r: Record, size: nat, memory: bool)
    requires Inv(y, m) && MadeFor(r, size) && size != NOSIZE
    requires !Registered(m.chains[Index(r.ptr, |m.chains|)], r.ptr)
    ensures Inv(y, Enter(y, m, r, size, memory)) <==> Storable(size)
  {
    AmountKeptIff(r, size);
    EnterTotal(y, m, r, size, memory);
    if Storable(size) {
      EnterKeepsInv(y, m, r, size, memory);
    }
  }

  /** remember with a position: NOSIZE stands for a user pointer, any other size is as above. */
  lemma RememberAtKeepsInvIff(y: Layout, m: Monitor, ptr: nat, size: nat, pos: Position, memory: bool)
    requires Inv(y, m)
    ensures Inv(y, RememberAt(y, m, ptr, size, pos, memory))
       <==> size == NOSIZE || Registered(m.chains[Index(ptr, |m.chains|)], ptr) || Storable(size)
  {
    var r := ExtMem(ptr, Or(size, EXTENSION_BIT), pos);
    if size == NOSIZE {
      RecordKeeps(size, ptr, pos);
      DivModUnique(NOSIZE, EXTENSION_BIT, 0, NOSIZE);
      EnterKeepsInv(y, m, r, size, memory);
    } else if !Registered(m.chains[Index(ptr, |m.chains|)], ptr) {
      SizedEnterIff(y, m, r, size, memory);
    }
  }

  // ---- forget ----

  /** The assertion of dec: a record that is found is counted. */
  lemma FoundIsCounted(y: Layout, m: Monitor, ptr: nat, nosize: bool)
    requires Inv(y, m)
    ensures var l := m.chains[Index(ptr, |m.chains|)]; Find(l, ptr, nosize) < |l| ==> m.nb > 0
  {
    var i := Index(ptr, |m.chains|);
    if m.chains[i] != [] {
      WeightPositive(m.chains, i, |m.chains|, One);
    }
  }

  lemma ForgetWeight(chains: seq<seq<Record>>, i: nat, k: nat, w: Record -> nat)
    requires i < |chains| && k < |chains[i]|
    ensures var l := chains[i];
            WeightAll(chains, |chains|, w) == WeightAll(chains[i := l[..k] + l[k + 1..]], |chains|, w) + w(l[k])
  {
    var l := chains[i];
    WeightWithout(l, k, w);
    WeightUpdate(chains, i, l[..k] + l[k + 1..], |chains|, w);
  }

  lemma ForgetTotals(y: Layout, m: Monitor, r: Record, amount: nat, bytes: nat)
    requires amount >= Amount(r) && bytes >= Bytes(y, r)
    ensures Wrap(Wrap(amount) - Amount(r)) == Wrap(amount - Amount(r))
    ensures Wrap(OverheadOf(y, |m.chains|, bytes) - Bytes(y, r)) == OverheadOf(y, |m.chains|, bytes - Bytes(y, r))
  {
    WrapAdd(amount, -(Amount(r) as int));
    WrapAdd(y.self + |m.chains| * y.pointer + bytes, -(Bytes(y, r) as int));
  }

  lemma ForgetCounted(y: Layout, m: Monitor, ptr: nat, nosize: bool, i: nat, k: nat)
    requires Counted(y, m) && ptr != 0 && |m.chains| > 0 && i == Index(ptr, |m.chains|)
    requires k == Find(m.chains[i], ptr, nosize) < |m.chains[i]| && m.nb > 0
    ensures Counted(y, Forget(y, m, ptr, nosize))
  {
    var s, r := |m.chains|, m.chains[i][k];
    ForgetWeight(m.chains, i, k, One);
    ForgetWeight(m.chains, i, k, Amount);
    ForgetWeight(m.chains, i, k, BytesOf(y));
    ForgetTotals(y, m, r, WeightAll(m.chains, s, Amount), WeightAll(m.chains, s, BytesOf(y)));
  }

  /** The assertion in the loop of forget: only extended records lack a size. */
  lemma UnsizedIsExtended(r: Record)
    requires RecordOk(r)
    ensures Sized(r) || Extended(r)
  {
  }

  lemma WithoutIsSub(l: seq<Record>, k: nat)
    requires k < |l| && OneSized(l)
    ensures OneSized(l[..k] + l[k + 1..]) && forall r :: r in l[..k] + l[k + 1..] ==> r in l
  {
    var q := l[..k] + l[k + 1..];
    assert forall j :: 0 <= j < |q| ==> q[j] == l[if j < k then j else j + 1];
  }

  /** forget keeps the invariant. */
  lemma ForgetKeepsInv(y: Layout, m: Monitor, ptr: nat, nosize: bool)
    requires Inv(y, m)
    ensures var l := m.chains[Index(ptr, |m.chains|)]; Find(l, ptr, nosize) < |l| ==> m.nb > 0
    ensures Inv(y, Forget(y, m, ptr, nosize))
  {
    FoundIsCounted(y, m, ptr, nosize);
    var l := m.chains[Index(ptr, |m.chains|)];
    var k := Find(l, ptr, nosize);
    if ptr != 0 && k < |l| {
      ForgetCounted(y, m, ptr, nosize, Index(ptr, |m.chains|), k);
      WithoutIsSub(l, k);
    }
  }
}
