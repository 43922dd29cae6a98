/** The chained hash table as chains of buckets (include/hash/tables.h, src/hash/tables.cpp). A bucket has a
    hash value, with which it was entered, and an `info` word, which stores the high bits of the hash. */
module BucketModel {
  import opened Lists
  import opened Words
  import opened Splitting

  /** The largest table that rehashing goes on from is half of this. */
  const MAX_TABLE_SIZE: nat := 0x400_0000

  /** `chains[i]` are the buckets of entry `i`; the mask is the number of entries less one. */
  datatype Table = Table(chains: seq<seq<nat>>, nbBuckets: nat, shiftThreshold: nat, mayRehash: bool)

  /** The stored word agrees with the hash value on all bits at and above the size of the table. */
  predicate Agrees(info: nat, hash: nat, size: nat)
    requires size > 0
  {
    info / size == hash / size
  }

  /** Bucket `x` belongs to entry `i` of a table of that size. */
  ghost predicate Belongs(x: nat, i: nat, size: nat, hash: map<nat, nat>, info: map<nat, nat>)
    requires size > 0
  {
    x != 0 && x in hash && x in info && hash[x] % size == i && Agrees(info[x], hash[x], size)
  }

  ghost predicate ChainsOk(chains: seq<seq<nat>>, hash: map<nat, nat>, info: map<nat, nat>) {
    && |chains| > 0
    && (forall i :: 0 <= i < |chains| ==> NoRepeat(chains[i]))
    && (forall i, x :: 0 <= i < |chains| && x in chains[i] ==> Belongs(x, i, |chains|, hash, info))
  }

  function Length(chains: seq<seq<nat>>, n: nat): nat
    requires n <= |chains|
  {
    if n == 0 then 0 else Length(chains, n - 1) + |chains[n - 1]|
  }

  ghost predicate Inv(t: Table, hash: map<nat, nat>, info: map<nat, nat>) {
    && SizeOk(|t.chains|)
    && ChainsOk(t.chains, hash, info)
    && t.nbBuckets == Length(t.chains, |t.chains|)
  }

  // ---- rehash ----

  /** (bucket->info & oldSize) != 0. */
  predicate GoesHigh(x: nat, info: map<nat, nat>, size: nat) {
    x in info && And(info[x], size) != 0
  }

  function High(info: map<nat, nat>, size: nat): nat -> bool {
    (x: nat) => GoesHigh(x, info, size)
  }

  /** The chains after rehash. */
  function Rehashed(chains: seq<seq<nat>>, info: map<nat, nat>): (r: seq<seq<nat>>)
    ensures |r| == 2 * |chains|
  {
    Split(chains, High(info, |chains|))
  }

  /** The stored bit is the bit of the hash that the larger table looks at. */
  lemma HighBit(x: nat, i: nat, size: nat, hash: map<nat, nat>, info: map<nat, nat>)
    requires SizeOk(size) && size > 0 && Belongs(x, i, size, hash, info)
    ensures Belongs(x, if GoesHigh(x, info, size) then i + size else i, 2 * size, hash, info)
    ensures And(info[x], size) == if GoesHigh(x, info, size) then size else 0
  {
    var k: nat :| size == Pow2(k);
    AndPow2(info[x], k);
    BitIsQuotient(info[x], k);
    ModDouble(hash[x], size);
    HalveQuotient(hash[x], size);
    HalveQuotient(info[x], size);
  }

  lemma HalveQuotient(w: nat, p: nat)
    requires p > 0
    ensures w / (2 * p) == w / p / 2
  {
    var q, r := w / p, w % p;
    assert w == q * p + r;
    assert q * p == (q / 2) * (2 * p) + (q % 2) * p;
    assert (q % 2) * p == if q % 2 == 1 then p else 0;
    DivModUnique(w, 2 * p, q / 2, (q % 2) * p + r);
  }

  lemma RehashedChain(chains: seq<seq<nat>>, hash: map<nat, nat>, info: map<nat, nat>, i: nat, high: bool)
    requires SizeOk(|chains|) && ChainsOk(chains, hash, info) && i < |chains|
    ensures var l := Spill(chains[i], [], High(info, |chains|), high);
            NoRepeat(l) && forall x :: x in l ==>
              Belongs(x, if high then i + |chains| else i, 2 * |chains|, hash, info)
  {
    var l := Spill(chains[i], [], High(info, |chains|), high);
    SpillNoRepeat(chains[i], [], High(info, |chains|), high);
    forall x | x in l
      ensures Belongs(x, if high then i + |chains| else i, 2 * |chains|, hash, info)
    {
      SpillMembers(chains[i], [], High(info, |chains|), high, x);
      HighBit(x, i, |chains|, hash, info);
    }
  }

  lemma RehashedChainsOk(chains: seq<seq<nat>>, hash: map<nat, nat>, info: map<nat, nat>)
    requires SizeOk(|chains|) && ChainsOk(chains, hash, info)
    ensures ChainsOk(Rehashed(chains, info), hash, info)
  {
    var s, r := |chains|, Rehashed(chains, info);
    forall i | 0 <= i < 2 * s
      ensures NoRepeat(r[i]) && forall x :: x in r[i] ==> Belongs(x, i, 2 * s, hash, info)
    {
      if i < s {
        RehashedChain(chains, hash, info, i, false);
      } else {
        RehashedChain(chains, hash, info, i - s, true);
      }
    }
  }

  function One(x: nat): nat {
    1
  }

  lemma {:induction false} LengthIsWeight(chains: seq<seq<nat>>, n: nat)
    requires n <= |chains|
    ensures Length(chains, n) == WeightAll(chains, n, One)
  {
    if n > 0 {
      LengthIsWeight(chains, n - 1);
      WeightOfOnes(chains[n - 1], One);
    }
  }

  lemma RehashedLength(chains: seq<seq<nat>>, info: map<nat, nat>)
    ensures Length(Rehashed(chains, info), 2 * |chains|) == Length(chains, |chains|)
  {
    LengthIsWeight(chains, |chains|);
    LengthIsWeight(Rehashed(chains, info), 2 * |chains|);
    SplitWeight(chains, High(info, |chains|), One);
  }

  /** rehash: every bucket ends in the chain that the doubled mask selects, and the count is kept. */
  lemma RehashKeepsInv(t: Table, hash: map<nat, nat>, info: map<nat, nat>)
    requires Inv(t, hash, info)
    ensures Inv(t.(chains := Rehashed(t.chains, info)), hash, info)
  {
    DoubleSize(|t.chains|);
    RehashedChainsOk(t.chains, hash, info);
    RehashedLength(t.chains, info);
  }
}
