/** Strings of bits stored in 32-bit words (include/base/bitstring.h, src/base/bitstring.c). */
module BitString {
  import opened Words
  import opened BitCount

  /** The bit of the string at position `p`: bit `p % 32` of word `p / 32`. */
  predicate BitAt(s: seq<Word>, p: nat)
    requires p < 32 * |s|
  {
    Bit(s[p / 32], p % 32)
  }

  /** How many bits are set strictly below position `p`, one position at a time. */
  function Rank(s: seq<Word>, p: nat): nat
    requires p <= 32 * |s|
  {
    if p == 0 then 0 else Rank(s, p - 1) + if BitAt(s, p - 1) then 1 else 0
  }

  /** The number of set bits of the whole string. */
  function Total(s: seq<Word>): nat {
    Rank(s, 32 * |s|)
  }

  // ---- ranks ----

  lemma {:induction false} RankMonotone(s: seq<Word>, p: nat, q: nat)
    requires p <= q <= 32 * |s|
    ensures Rank(s, p) <= Rank(s, q) <= Rank(s, p) + (q - p)
  {
    if p < q {
      RankMonotone(s, p, q - 1);
    }
  }

  /** Inside a word, the rank grows by the ones of that word. */
  lemma {:induction false} RankInWord(s: seq<Word>, i: nat, k: nat)
    requires i < |s| && k <= 32
    ensures Rank(s, 32 * i + k) == Rank(s, 32 * i) + Ones(s[i], k)
  {
    if k > 0 {
      RankInWord(s, i, k - 1);
      assert (32 * i + k - 1) / 32 == i && (32 * i + k - 1) % 32 == k - 1;
    }
  }

  lemma RankNextWord(s: seq<Word>, i: nat)
    requires i < |s|
    ensures Rank(s, 32 * (i + 1)) == Rank(s, 32 * i) + Count(s[i])
  {
    RankOfBits(s, i, 32);
  }

  lemma RankOfBits(s: seq<Word>, i: nat, k: nat)
    requires i < |s| && k == 32
    ensures Rank(s, 32 * (i + 1)) == Rank(s, 32 * i) + Ones(s[i], k)
  {
    RankInWord(s, i, k);
  }

  /** The rank depends only on the bits below. */
  lemma {:induction false} RankAgree(s: seq<Word>, t: seq<Word>, p: nat)
    requires p <= 32 * |s| && p <= 32 * |t|
    requires forall q :: 0 <= q < p ==> (BitAt(s, q) <==> BitAt(t, q))
    ensures Rank(s, p) == Rank(t, p)
  {
    if p > 0 {
      RankAgree(s, t, p - 1);
    }
  }

  /** A stretch of equal bits. */
  lemma {:induction false} RankStretch(s: seq<Word>, p: nat, q: nat, b: bool)
    requires p <= q <= 32 * |s|
    requires forall r :: p <= r < q ==> (BitAt(s, r) <==> b)
    ensures Rank(s, q) == Rank(s, p) + if b then q - p else 0
  {
    if p < q {
      RankStretch(s, p, q - 1, b);
    }
  }

  /** Replacing one word shifts every later rank by the difference of the two counts. */
  lemma {:induction false} RankUpdate(s: seq<Word>, i: nat, v: Word, j: nat)
    requires i < |s| && j <= |s|
    ensures Rank(s[i := v], 32 * j) + (if i < j then Count(s[i]) else 0)
         == Rank(s, 32 * j) + (if i < j then Count(v) else 0)
  {
    if j > 0 {
      RankUpdate(s, i, v, j - 1);
      RankNextWord(s, j - 1);
      RankNextWord(s[i := v], j - 1);
    }
  }

  lemma TotalUpdate(s: seq<Word>, i: nat, v: Word)
    requires i < |s|
    ensures Total(s[i := v]) + Count(s[i]) == Total(s) + Count(v)
  {
    RankUpdate(s, i, v, |s|);
  }

  // ---- scanning a word by shifting it right ----

  lemma {:induction false} BitOfShr(w: nat, k: nat, j: nat)
    ensures Bit(Shr(w, k), j) <==> Bit(w, k + j)
  {
    if k > 0 {
      BitOfShr(w, k - 1, j + 1);
    }
  }

  lemma {:induction false} ShrBound(w: nat, k: nat)
    requires w < WORD && k <= 32
    ensures Shr(w, k) < Pow2(32 - k)
  {
    if k == 0 {
      Pow2Of32();
    } else {
      ShrBound(w, k - 1);
    }
  }

  /** One step of the scan: the lowest bit of the shifted word is the bit of the string. */
  lemma ScanStep(s: seq<Word>, i: nat, k: nat)
    requires i < |s| && k <= 32 && Shr(s[i], k) != 0
    ensures k < 32 && (Shr(s[i], k) % 2 == 1 <==> BitAt(s, 32 * i + k))
    ensures Rank(s, 32 * i + k + 1) == Rank(s, 32 * i + k) + if BitAt(s, 32 * i + k) then 1 else 0
  {
    ShrBound(s[i], k);
    BitOfShr(s[i], k, 0);
    assert (32 * i + k) / 32 == i && (32 * i + k) % 32 == k % 32;
  }

  /** Once the shifted word is zero, no set bit is left above. */
  lemma WordExhausted(s: seq<Word>, i: nat, k: nat)
    requires i < |s| && k <= 32 && Shr(s[i], k) == 0
    ensures forall r :: 32 * i + k <= r < 32 * (i + 1) ==> !BitAt(s, r)
    ensures Rank(s, 32 * (i + 1)) == Rank(s, 32 * i + k)
  {
    forall r | 32 * i + k <= r < 32 * (i + 1)
      ensures !BitAt(s, r)
    {
      assert r / 32 == i && r % 32 == r - 32 * i;
      BitOfShr(s[i], k, r % 32 - k);
      BitOfZero(r % 32 - k);
    }
    RankStretch(s, 32 * i + k, 32 * (i + 1), false);
  }

  // ---- base_countBitsN ----

  /** base_countBitsN: adds up the parallel counts of the words, in 32 bits. */
  method CountBitsN(s: seq<Word>) returns (cnt: nat)
    ensures cnt == Total(s) % WORD
  {
    cnt := 0;
    for i := 0 to |s|
      invariant cnt == Rank(s, 32 * i) % WORD
    {
      var n := BaseCountBits(s[i]);
      cnt := (cnt + n) % WORD;
      RankNextWord(s, i);
    }
  }

  // ---- base_bits2indexTable ----

  /** The entry of the table at `q` once the positions below `p` have been scanned:
      set positions hold their rank (as a 32-bit index), all others are untouched. */
  ghost function Entry(s: seq<Word>, before: seq<nat>, p: nat, q: nat): nat
    requires p <= 32 * |s| && q < |before|
  {
    if q < p && BitAt(s, q) then Rank(s, q) % WORD else before[q]
  }

  /** base_bits2indexTable: writes the rank of every set position at that position of the table. */
  method Bits2IndexTable(s: seq<Word>, table: array<nat>) returns (index: nat)
    requires forall p :: 0 <= p < 32 * |s| && BitAt(s, p) ==> p < table.Length
    modifies table
    ensures index == Total(s)
    ensures forall q :: 0 <= q < table.Length ==> table[q] == Entry(s, old(table[..]), 32 * |s|, q)
  {
    ghost var before := table[..];
    index := 0;
    for i := 0 to |s|
      invariant index == Rank(s, 32 * i)
      invariant forall q :: 0 <= q < table.Length ==> table[q] == Entry(s, before, 32 * i, q)
    {
      index := IndexWord(s, i, table, index, before);
    }
  }

  /** The inner loop of base_bits2indexTable: one word. */
  method IndexWord(s: seq<Word>, i: nat, table: array<nat>, index0: nat, ghost before: seq<nat>)
    returns (index: nat)
    requires i < |s| && |before| == table.Length && index0 == Rank(s, 32 * i)
    requires forall p :: 0 <= p < 32 * |s| && BitAt(s, p) ==> p < table.Length
    requires forall q :: 0 <= q < table.Length ==> table[q] == Entry(s, before, 32 * i, q)
    modifies table
    ensures index == Rank(s, 32 * (i + 1))
    ensures forall q :: 0 <= q < table.Length ==> table[q] == Entry(s, before, 32 * (i + 1), q)
  {
    index := index0;
    var b: nat, k: nat := s[i], 0;
    while b != 0
      invariant k <= 32 && b == Shr(s[i], k)
      invariant index == Rank(s, 32 * i + k)
      invariant forall q :: 0 <= q < table.Length ==> table[q] == Entry(s, before, 32 * i + k, q)
      decreases b
    {
      ScanStep(s, i, k);
      if b % 2 == 1 {
        table[32 * i + k] := index % WORD;
        index := index + 1;
      }
      b, k := b / 2, k + 1;
    }
    WordExhausted(s, i, k);
  }

  /** What debug_bits2indexTableOK is to accept: every set position holds its own rank, and the
      number of set bits is `nbSet`. */
  ghost predicate IsIndexTable(s: seq<Word>, table: seq<nat>, nbSet: nat) {
    && (forall p :: 0 <= p < 32 * |s| && BitAt(s, p) ==> p < |table| && table[p] == Rank(s, p))
    && nbSet == Total(s)
  }

  /** src/debug/utils.cpp, debug_bits2indexTableOK. */
  method Bits2IndexTableOK(s: seq<Word>, table: seq<nat>, nbSet: nat) returns (ok: bool)
    requires forall p :: 0 <= p < 32 * |s| && BitAt(s, p) ==> p < |table|
    ensures ok <==> IsIndexTable(s, table, nbSet)
  {
    var index: nat := 0;
    for i := 0 to |s|
      invariant index == Rank(s, 32 * i)
      invariant forall p :: 0 <= p < 32 * i && BitAt(s, p) ==> table[p] == Rank(s, p)
    {
      ok, index := CheckWord(s, i, table, index);
      if !ok {
        return;
      }
    }
    ok := index == nbSet;
  }

  /** The inner loop of debug_bits2indexTableOK: one word. */
  method CheckWord(s: seq<Word>, i: nat, table: seq<nat>, index0: nat) returns (ok: bool, index: nat)
    requires i < |s| && index0 == Rank(s, 32 * i)
    requires forall p :: 0 <= p < 32 * |s| && BitAt(s, p) ==> p < |table|
    ensures ok ==> index == Rank(s, 32 * (i + 1))
    ensures ok <==> forall p :: 32 * i <= p < 32 * (i + 1) && BitAt(s, p) ==> table[p] == Rank(s, p)
  {
    index := index0;
    var b: nat, k: nat := s[i], 0;
    while b != 0
      invariant k <= 32 && b == Shr(s[i], k)
      invariant index == Rank(s, 32 * i + k)
      invariant forall p :: 32 * i <= p < 32 * i + k && BitAt(s, p) ==> table[p] == Rank(s, p)
      decreases b
    {
      ScanStep(s, i, k);
      if b % 2 == 1 {
        if table[32 * i + k] != index {
          return false, index;
        }
        index := index + 1;
      }
      b, k := b / 2, k + 1;
    }
    WordExhausted(s, i, k);
    ok := true;
  }

  /** The checker accepts what the writer produced exactly when every rank fits a 32-bit index. */
  lemma WriterMeetsChecker(s: seq<Word>, before: seq<nat>, table: seq<nat>)
    requires |table| == |before|
    requires forall p :: 0 <= p < 32 * |s| && BitAt(s, p) ==> p < |table|
    requires forall q :: 0 <= q < |table| ==> table[q] == Entry(s, before, 32 * |s|, q)
    ensures IsIndexTable(s, table, Total(s)) <==> Total(s) <= WORD
  {
    if Total(s) <= WORD {
      forall p | 0 <= p < 32 * |s| && BitAt(s, p)
        ensures table[p] == Rank(s, p)
      {
        RankMonotone(s, p + 1, 32 * |s|);
      }
    } else {
      var p := PositionOfRank(s, WORD, 32 * |s|);
      assert table[p] == 0;
    }
  }

  /** Every rank below the total is the rank of some set position. */
  lemma {:induction false} PositionOfRank(s: seq<Word>, r: nat, n: nat) returns (p: nat)
    requires n <= 32 * |s| && r < Rank(s, n)
    ensures p < n && BitAt(s, p) && Rank(s, p) == r
  {
    if r < Rank(s, n - 1) {
      p := PositionOfRank(s, r, n - 1);
    } else {
      p := n - 1;
    }
  }
}
