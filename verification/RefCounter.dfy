/** Reference counters in the low bits of the `info` words (include/hash/tables.h, incRef and decRef). */
module RefCounter {
  import opened Words
  import opened BucketModel

  function IncRef(w: Word, n: nat): Word {
    if And(w, Pow2(n) - 1) != Pow2(n) - 1 then (w + 1) % WORD else w
  }

  /** What the source asserts of a counter that it decrements: it is at its maximum, where it stays, or not
      zero. A counter of no bits is always at its maximum. */
  predicate Referenced(w: nat, n: nat) {
    And(w, Pow2(n) - 1) == Pow2(n) - 1 || And(w, Pow2(n) - 1) != 0
  }

  /** The counter is decremented unless it is at its maximum. */
  function DecRef(w: Word, n: nat): Word {
    if And(w, Pow2(n) - 1) == Pow2(n) - 1 || w == 0 then w else w - 1
  }

  lemma NextInBlock(w: nat, p: nat)
    requires p > 0 && w % p != p - 1
    ensures (w + 1) / p == w / p && (w + 1) % p == w % p + 1
  {
    assert w + 1 == (w / p) * p + (w % p + 1);
    DivModUnique(w + 1, p, w / p, w % p + 1);
  }

  lemma PreviousInBlock(w: nat, p: nat)
    requires p > 0 && w % p != 0
    ensures w > 0 && (w - 1) / p == w / p && (w - 1) % p == w % p - 1
  {
    assert w - 1 == (w / p) * p + (w % p - 1);
    DivModUnique(w - 1, p, w / p, w % p - 1);
  }

  lemma TopOfBlocks(p: nat, q: nat)
    requires p > 0 && q > 0
    ensures p * q > 0 && (p * q - 1) % p == p - 1
  {
    assert p * q - 1 == (q - 1) * p + (p - 1);
    DivModUnique(p * q - 1, p, q - 1, p - 1);
  }

  lemma {:induction false} CoarserQuotient(w: nat, v: nat, n: nat, k: nat)
    requires n <= k && w / Pow2(n) == v / Pow2(n)
    ensures w / Pow2(k) == v / Pow2(k)
    decreases k
  {
    if n < k {
      CoarserQuotient(w, v, n, k - 1);
      HalveQuotient(w, Pow2(k - 1));
      HalveQuotient(v, Pow2(k - 1));
    }
  }

  lemma LastWordIsFull(n: nat)
    requires n <= 32
    ensures (WORD - 1) % Pow2(n) == Pow2(n) - 1
  {
    Pow2Of32();
    Pow2Add(n, 32 - n);
    TopOfBlocks(Pow2(n), Pow2(32 - n));
  }

  lemma NoWrap(w: Word, p: nat)
    requires p > 0 && (WORD - 1) % p == p - 1 && w % p != p - 1
    ensures (w + 1) % WORD == w + 1
  {
    assert w != WORD - 1;
  }

  /** incRef, with the mask read as a remainder: it stops at the maximum and never wraps. */
  lemma IncRefCounts(w: Word, n: nat, p: nat)
    requires n <= 32 && p == Pow2(n)
    ensures IncRef(w, n) == if w % p == p - 1 then w else w + 1
  {
    AndMask(w, n);
    LastWordIsFull(n);
    if w % p != p - 1 {
      NoWrap(w, p);
    }
  }

  /** A step of the counter changes no bit above the counter. */
  lemma IncStays(w: Word, n: nat, p: nat)
    requires n <= 32 && p == Pow2(n)
    ensures IncRef(w, n) / p == w / p
  {
    IncRefCounts(w, n, p);
    if w % p != p - 1 {
      NextInBlock(w, p);
    }
  }

  lemma DecStays(w: Word, n: nat)
    requires Referenced(w, n)
    ensures DecRef(w, n) / Pow2(n) == w / Pow2(n)
  {
    AndMask(w, n);
    if w % Pow2(n) != 0 {
      PreviousInBlock(w, Pow2(n));
    }
  }

  lemma BelowBlock(p: nat, q: nat)
    requires 0 < p < q
    ensures (p - 1) % q == p - 1 && (p - 1) / p == 0 && p / p == 1
  {
    DivModUnique(p - 1, q, 0, p - 1);
    DivModUnique(p - 1, p, 0, p - 1);
    DivModUnique(p, p, 1, 0);
  }

  /** incRef adds one to the counter, the lowest n bits, up to its maximum; decRef takes one away unless the
      counter is at its maximum, where it stays. Neither changes the bits above. */
  lemma Counts(w: Word, n: nat, p: nat)
    requires n <= 32 && p == Pow2(n)
    ensures And(w, p - 1) == w % p && (Referenced(w, n) <==> w % p == p - 1 || w % p != 0)
    ensures IncRef(w, n) / p == w / p && IncRef(w, n) % p == if w % p == p - 1 then w % p else w % p + 1
    ensures Referenced(w, n) ==>
              DecRef(w, n) / p == w / p && DecRef(w, n) % p == (if w % p == p - 1 then w % p else w % p - 1)
  {
    AndMask(w, n);
    IncRefCounts(w, n, p);
    if w % p != p - 1 {
      NextInBlock(w, p);
    }
    if w % p != 0 {
      PreviousInBlock(w, p);
    }
  }

  /** Where the counter is wider than the mask of the table, counting from the mask reaches a hash bit. */
  lemma WideCounterSpills(n: nat, k: nat, p: nat, q: nat)
    requires k < n <= 32 && p == Pow2(k) && q == Pow2(n) && p < q <= WORD
    ensures IncRef(p - 1, n) == p
    ensures (p - 1) / p == 0 && p / p == 1
  {
    BelowBlock(p, q);
    IncRefCounts(p - 1, n, q);
  }

  /** Counting leaves the stored hash bits of a table of 2^k entries alone, whatever the `info` word is,
      exactly when the counter is at most k bits wide. */
  lemma CounterFitsIff(n: nat, k: nat)
    requires n <= 32 && k <= 32
    ensures (forall w: Word :: Agrees(IncRef(w, n), w, Pow2(k))) <==> n <= k
  {
    if n <= k {
      forall w: Word
        ensures Agrees(IncRef(w, n), w, Pow2(k))
      {
        IncStays(w, n, Pow2(n));
        CoarserQuotient(w, IncRef(w, n), n, k);
      }
    } else {
      Pow2Of32();
      Pow2Monotone(k, n);
      Pow2Monotone(n, 32);
      WideCounterSpills(n, k, Pow2(k), Pow2(n));
      var w: Word := Pow2(k) - 1;
      assert !Agrees(IncRef(w, n), w, Pow2(k));
    }
  }

  /** The same for a counter that is decremented. */
  lemma DecKeepsHashBits(w: Word, n: nat, k: nat)
    requires n <= k && Referenced(w, n)
    ensures Agrees(DecRef(w, n), w, Pow2(k))
  {
    DecStays(w, n);
    CoarserQuotient(w, DecRef(w, n), n, k);
  }

  /** A counter of one bit is never decremented: it is zero, which is asserted not to be, or at its maximum. */
  lemma OneBitStays(w: Word, n: nat)
    requires n == 1 && Referenced(w, n)
    ensures DecRef(w, n) == w
  {
    AndMask(w, n);
    assert Pow2(1) == 2;
  }

  lemma PowersApart(n: nat, k: nat)
    requires k < n && n >= 2
    ensures 2 * Pow2(k) <= Pow2(n) && Pow2(k) < Pow2(n) - 1
  {
    Pow2Monotone(k + 1, n);
    Pow2Monotone(2, n);
    assert Pow2(2) == 4;
  }

  /** Where the counter is wider than the mask, counting down from the lowest hash bit clears it. */
  lemma WideCounterBorrows(w: Word, n: nat, k: nat, p: nat, q: nat)
    requires k < n <= 32 && n >= 2 && p == Pow2(k) && q == Pow2(n) && w == p && 2 * p <= q && p < q - 1
    ensures Referenced(w, n) && DecRef(w, n) == p - 1
  {
    AndMask(w, n);
    DivModUnique(w, q, 0, w);
  }

  /** Counting down leaves the stored hash bits of a table of 2^k entries alone, whatever the `info` word with a
      reference is, exactly when the counter is at most k bits wide, or one bit. */
  lemma DecCounterFitsIff(n: nat, k: nat)
    requires n <= 32 && k <= 32
    ensures (forall w: Word :: Referenced(w, n) ==> Agrees(DecRef(w, n), w, Pow2(k))) <==> n <= k || n == 1
  {
    if n <= k || n == 1 {
      forall w: Word | Referenced(w, n)
        ensures Agrees(DecRef(w, n), w, Pow2(k))
      {
        if n <= k {
          DecKeepsHashBits(w, n, k);
        } else {
          OneBitStays(w, n);
        }
      }
    } else {
      Pow2Of32();
      Pow2Monotone(n, 32);
      PowersApart(n, k);
      var w: Word := Pow2(k);
      WideCounterBorrows(w, n, k, Pow2(k), Pow2(n));
      BelowBlock(Pow2(k), Pow2(n));
      assert !Agrees(DecRef(w, n), w, Pow2(k));
    }
  }
}
