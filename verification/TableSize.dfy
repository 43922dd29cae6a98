/** How large a hash table grows and how full it gets (include/hash/tables.h): the size of the table, its
    bucket count and the rehash switch evolve independently of the buckets themselves. */
module TableSize {
  import opened Words
  import opened BucketModel
  import opened BucketRuns

  datatype Gauge = Gauge(size: nat, nb: nat, shift: nat, may: bool)

  datatype Call = Inc | Dec | EnableCall | DisableCall | ResetCall | CountCall

  function Of(t: Table): Gauge {
    Gauge(|t.chains|, t.nbBuckets, t.shiftThreshold, t.mayRehash)
  }

  /** AbstractTable(sizePower2, aggressive). */
  function Initial(power: nat, aggressive: bool): Gauge {
    Gauge(Pow2(power), 0, if aggressive then 1 else 0, true)
  }

  function Next(g: Gauge, call: Call): Gauge {
    match call
    case Inc =>
      var n := g.nb + 1;
      if g.size > 0 && NeedsRehash(g.size, n, g.shift) && g.may then
        Gauge(2 * g.size, n, g.shift, 2 * g.size - 1 < MAX_TABLE_SIZE - 1)
      else g.(nb := n)
    case Dec => if g.nb > 0 then g.(nb := g.nb - 1) else g
    case EnableCall => g.(may := g.size - 1 < MAX_TABLE_SIZE - 1)
    case DisableCall => g.(may := false)
    case ResetCall => g.(nb := 0)
    case CountCall => g
  }

  /** The gauge after the calls, in order. */
  function Run(g: Gauge, calls: seq<Call>): Gauge
    decreases |calls|
  {
    if calls == [] then g else Run(Next(g, calls[0]), calls[1..])
  }

  /** What an operation of the table does to its gauge. */
  function CallOf(op: Op): Call {
    match op
    case OpInsert(b, h, w) => Inc
    case OpRemove(b) => Dec
    case OpEnable => EnableCall
    case OpDisable => DisableCall
    case OpReset => ResetCall
    case OpIncRef(b, n) => CountCall
    case OpDecRef(b, n) => CountCall
  }

  /** The operations of the table move the gauge as the calls do. */
  lemma GaugeFollows(s: World, op: Op)
    requires |s.t.chains| > 0 && Correct(s, op)
    ensures Of(Step(s, op).t) == Next(Of(s.t), CallOf(op))
  {
  }

  // ---- when a table grows ----

  /** Counting a bucket leaves the size alone as long as the count is within the threshold or rehashing is off;
      otherwise it doubles the table, and rehashing is allowed below the maximum size. */
  lemma IncGrowsIff(g: Gauge)
    requires g.size > 0
    ensures var n := Next(g, Inc); var keeps := g.nb + 1 <= Shr(g.size - 1, g.shift) || !g.may;
            && n.nb == g.nb + 1 && n.shift == g.shift
            && n.size == (if keeps then g.size else 2 * g.size)
            && n.may == if keeps then g.may else 2 * g.size < MAX_TABLE_SIZE
  {
  }

  lemma {:induction false} NeverSmaller(g: Gauge, calls: seq<Call>)
    ensures Run(g, calls).size >= g.size
    decreases |calls|
  {
    if calls != [] {
      NeverSmaller(Next(g, calls[0]), calls[1..]);
    }
  }

  /** Call number `k` of the run counts a bucket beyond the threshold of a table that may rehash. */
  predicate Passes(g: Gauge, calls: seq<Call>, k: nat)
    requires g.size > 0 && k < |calls|
  {
    var h := Run(g, calls[..k]);
    calls[k].Inc? && h.may && h.nb + 1 > Shr(g.size - 1, g.shift)
  }

  lemma PassesLater(g: Gauge, calls: seq<Call>, k: nat)
    requires g.size > 0 && k + 1 < |calls| && Next(g, calls[0]).size == g.size
    ensures Passes(g, calls, k + 1) <==> Passes(Next(g, calls[0]), calls[1..], k)
  {
    assert calls[..k + 1][1..] == calls[1..][..k];
  }

  /** Over a whole run: a table keeps its size exactly if no call counts a bucket beyond its threshold while
      rehashing is allowed. */
  lemma {:induction false} SizeKeptIff(g: Gauge, calls: seq<Call>)
    requires g.size > 0
    ensures Run(g, calls).size == g.size <==> forall k :: 0 <= k < |calls| ==> !Passes(g, calls, k)
    decreases |calls|
  {
    if calls != [] {
      var n := Next(g, calls[0]);
      assert calls[..0] == [];
      assert Passes(g, calls, 0) <==> n.size != g.size;
      NeverSmaller(n, calls[1..]);
      if n.size == g.size {
        SizeKeptIff(n, calls[1..]);
        forall k | 0 < k < |calls|
          ensures Passes(g, calls, k) <==> Passes(n, calls[1..], k - 1)
        {
          PassesLater(g, calls, k - 1);
        }
        assert forall k :: 0 <= k < |calls| - 1 ==> (Passes(n, calls[1..], k) <==> Passes(g, calls, k + 1));
      }
    }
  }

  // ---- the cap ----

  lemma MaxIsPower()
    ensures MAX_TABLE_SIZE == Pow2(26)
  {
    assert Pow2(8) == 0x100;
    Pow2Add(8, 8);
    Pow2Add(16, 8);
    Pow2Add(24, 2);
    assert Pow2(2) == 4;
  }

  lemma DoubleBelowCap(size: nat)
    requires SizeOk(size) && size < MAX_TABLE_SIZE
    ensures 2 * size <= MAX_TABLE_SIZE
  {
    var k: nat :| size == Pow2(k);
    MaxIsPower();
    Pow2Monotone(26, k);
    Pow2Monotone(k + 1, 26);
  }

  ghost predicate Capped(g: Gauge) {
    SizeOk(g.size) && g.size <= MAX_TABLE_SIZE && (g.may ==> g.size < MAX_TABLE_SIZE)
  }

  lemma NextIsCapped(g: Gauge, call: Call)
    requires Capped(g)
    ensures Capped(Next(g, call))
  {
    if g.may {
      DoubleBelowCap(g.size);
      DoubleSize(g.size);
    }
  }

  lemma {:induction false} RunIsCapped(g: Gauge, calls: seq<Call>)
    requires Capped(g)
    ensures Capped(Run(g, calls))
    decreases |calls|
  {
    if calls != [] {
      NextIsCapped(g, calls[0]);
      RunIsCapped(Next(g, calls[0]), calls[1..]);
    }
  }

  /** One insertion more than the threshold doubles the table. */
  lemma {:induction false} IncBeyondThreshold(g: Gauge, n: nat)
    requires g.size > 0 && g.may && n > 0 && g.nb + n == Shr(g.size - 1, g.shift) + 1
    ensures Run(g, seq(n, _ => Inc)).size == 2 * g.size
    decreases n
  {
    var calls := seq(n, _ => Inc);
    assert calls[1..] == seq(n - 1, _ => Inc);
    if n > 1 {
      IncBeyondThreshold(Next(g, Inc), n - 1);
    }
  }

  /** No run without swap takes a table beyond the maximum size exactly when it was built below that size: a
      table built with the maximum size still doubles once. */
  lemma CapHoldsIff(power: nat, aggressive: bool)
    ensures (forall calls :: Run(Initial(power, aggressive), calls).size <= MAX_TABLE_SIZE) <==> power < 26
  {
    var g := Initial(power, aggressive);
    MaxIsPower();
    Pow2Monotone(power, 26);
    Pow2Monotone(26, power);
    if power < 26 {
      forall calls
        ensures Run(g, calls).size <= MAX_TABLE_SIZE
      {
        RunIsCapped(g, calls);
      }
    } else {
      var n := Shr(g.size - 1, g.shift) + 1;
      IncBeyondThreshold(g, n);
      assert Run(g, seq(n, _ => Inc)).size > MAX_TABLE_SIZE;
    }
  }

  // ---- the load ----

  /** Below the cap the table may rehash and holds no more buckets than its threshold. */
  ghost predicate LoadOk(g: Gauge) {
    Capped(g) && g.shift <= 1 && (g.shift == 1 ==> g.size >= 2) &&
    (g.size < MAX_TABLE_SIZE ==> g.may && g.nb <= Shr(g.size - 1, g.shift))
  }

  lemma NextIsLoadOk(g: Gauge, call: Call)
    requires LoadOk(g) && !call.DisableCall?
    ensures LoadOk(Next(g, call))
  {
    NextIsCapped(g, call);
    ShrCases(g.size - 1, g.shift);
    ShrCases(2 * g.size - 1, g.shift);
    if g.shift == 1 {
      EvenSize(g.size);
    }
  }

  lemma ShrCases(x: nat, shift: nat)
    requires shift <= 1
    ensures Shr(x, shift) == if shift == 0 then x else x / 2
  {
  }

  lemma EvenSize(n: nat)
    requires SizeOk(n) && n >= 2
    ensures n % 2 == 0
  {
    var k: nat :| n == Pow2(k);
    assert n == 2 * Pow2(k - 1);
  }

  predicate NeverDisabled(calls: seq<Call>) {
    forall k :: 0 <= k < |calls| ==> !calls[k].DisableCall?
  }

  predicate LoadBounded(g: Gauge) {
    g.size == 0 || g.size >= MAX_TABLE_SIZE || g.nb <= Shr(g.size - 1, g.shift)
  }

  /** What the calls keep of the load: from the cap on nothing is promised. */
  ghost predicate LoadKept(g: Gauge) {
    g.size >= MAX_TABLE_SIZE || LoadOk(g)
  }

  lemma NextIsLoadKept(g: Gauge, call: Call)
    requires LoadKept(g) && !call.DisableCall?
    ensures LoadKept(Next(g, call))
  {
    if LoadOk(g) {
      NextIsLoadOk(g, call);
    }
  }

  lemma {:induction false} RunIsLoadKept(g: Gauge, calls: seq<Call>)
    requires LoadKept(g) && NeverDisabled(calls)
    ensures LoadKept(Run(g, calls))
    decreases |calls|
  {
    if calls != [] {
      NextIsLoadKept(g, calls[0]);
      RunIsLoadKept(Next(g, calls[0]), calls[1..]);
    }
  }

  lemma InitialLoad(power: nat, aggressive: bool)
    requires aggressive ==> power >= 1
    ensures LoadKept(Initial(power, aggressive))
  {
    MaxIsPower();
    Pow2Monotone(power, 26);
    Pow2Monotone(26, power);
    if power >= 1 {
      Pow2Monotone(1, power);
      assert Pow2(1) == 2;
    }
    ShrCases(Pow2(power) - 1, if aggressive then 1 else 0);
  }

  /** While rehashing is never disabled and there is no swap, a table below the cap stays within its threshold,
      exactly when it is not an aggressive table of a single entry. */
  lemma LoadHoldsIff(power: nat, aggressive: bool)
    ensures (forall calls :: NeverDisabled(calls) ==> LoadBounded(Run(Initial(power, aggressive), calls)))
       <==> (aggressive ==> power >= 1)
  {
    var g := Initial(power, aggressive);
    if aggressive ==> power >= 1 {
      InitialLoad(power, aggressive);
      forall calls | NeverDisabled(calls)
        ensures LoadBounded(Run(g, calls))
      {
        RunIsLoadKept(g, calls);
      }
    } else {
      assert [Inc][1..] == [];
      ShrCases(0, 1);
      ShrCases(1, 1);
      assert Run(g, [Inc]) == Gauge(2, 1, 1, true);
      assert NeverDisabled([Inc]) && !LoadBounded(Run(g, [Inc]));
    }
  }
}
