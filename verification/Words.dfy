/** Machine words as naturals: powers of two, single bits and the bitwise operators.
    Bit positions are numbered from the least significant bit. */
module Words {

  const WORD: nat := 0x1_0000_0000

  /** A 32-bit word. */
  type Word = x: nat | x < WORD

  function Pow2(k: nat): (p: nat)
    ensures p > 0
  {
    if k == 0 then 1 else 2 * Pow2(k - 1)
  }

  /** The bit of `x` at position `k`. */
  predicate Bit(x: nat, k: nat) {
    if k == 0 then x % 2 == 1 else Bit(x / 2, k - 1)
  }

  function And(x: nat, y: nat): nat {
    if x == 0 || y == 0 then 0
    else 2 * And(x / 2, y / 2) + if x % 2 == 1 && y % 2 == 1 then 1 else 0
  }

  function Or(x: nat, y: nat): nat {
    if x == 0 then y else if y == 0 then x
    else 2 * Or(x / 2, y / 2) + if x % 2 == 1 || y % 2 == 1 then 1 else 0
  }

  function Xor(x: nat, y: nat): nat {
    if x == 0 then y else if y == 0 then x
    else 2 * Xor(x / 2, y / 2) + if x % 2 != y % 2 then 1 else 0
  }

  /** `x` shifted right `k` times. */
  function Shr(x: nat, k: nat): (y: nat)
    ensures y <= x
  {
    if k == 0 then x else Shr(x, k - 1) / 2
  }

  /** The complement of a 32-bit word. */
  function Not32(x: nat): nat
    requires x < WORD
  {
    WORD - 1 - x
  }

  // ---- division by powers of two ----

  lemma SmallMultiple(k: int, d: int)
    requires d > 0
    ensures k >= 1 ==> k * d >= d
    ensures k <= -1 ==> k * d <= -d
  {
    if k >= 1 {
      assert (k - 1) * d >= 0;
    } else if k <= -1 {
      assert (-k - 1) * d >= 0;
    }
  }

  lemma DivModUnique(x: nat, d: nat, q: nat, r: nat)
    requires r < d && x == q * d + r
    ensures x / d == q && x % d == r
  {
    var k := x / d - q;
    assert k * d == r - x % d by {
      assert x == d * (x / d) + x % d;
      assert k * d == (x / d) * d - q * d;
    }
    SmallMultiple(k, d);
  }

  lemma DivModDouble(x: nat, p: nat)
    requires p > 0
    ensures x / (2 * p) == x / 2 / p
    ensures x % (2 * p) == 2 * (x / 2 % p) + x % 2
  {
    var q, r := x / 2 / p, x / 2 % p;
    assert x / 2 == q * p + r;
    assert x == q * (2 * p) + (2 * r + x % 2);
    DivModUnique(x, 2 * p, q, 2 * r + x % 2);
  }

  /** Doubling a power-of-two modulus adds one bit of the number to the residue. */
  lemma ModDouble(x: nat, p: nat)
    requires p > 0
    ensures x % (2 * p) == x % p + if x / p % 2 == 1 then p else 0
  {
    var q, r := x / p, x % p;
    assert x == q * p + r;
    var e := q % 2;
    assert q == 2 * (q / 2) + e;
    assert x == (q / 2) * (2 * p) + (e * p + r);
    assert e * p == if e == 1 then p else 0;
    DivModUnique(x, 2 * p, q / 2, e * p + r);
  }

  lemma {:induction false} Pow2Add(a: nat, b: nat)
    ensures Pow2(a + b) == Pow2(a) * Pow2(b)
  {
    if a > 0 {
      Pow2Add(a - 1, b);
      assert Pow2(a + b) == 2 * Pow2(a - 1 + b);
    }
  }

  lemma {:induction false} Pow2Monotone(a: nat, b: nat)
    ensures a < b ==> Pow2(a) < Pow2(b)
    ensures a <= b <==> Pow2(a) <= Pow2(b)
    decreases a + b
  {
    if a > 0 && b > 0 {
      Pow2Monotone(a - 1, b - 1);
    }
  }

  /** A table of that size can be indexed with a mask. */
  ghost predicate SizeOk(n: nat) {
    exists k: nat :: n == Pow2(k)
  }

  lemma DoubleSize(n: nat)
    requires SizeOk(n)
    ensures SizeOk(2 * n)
  {
    var k: nat :| n == Pow2(k);
    assert 2 * n == Pow2(k + 1);
  }

  // ---- single bits ----

  lemma {:induction false} BitIsQuotient(x: nat, k: nat)
    ensures Bit(x, k) <==> x / Pow2(k) % 2 == 1
  {
    if k > 0 {
      BitIsQuotient(x / 2, k - 1);
      DivModDouble(x, Pow2(k - 1));
    }
  }

  lemma {:induction false} BitOfPow2(j: nat, k: nat)
    ensures Bit(Pow2(j), k) <==> j == k
  {
    if k > 0 {
      if j > 0 {
        BitOfPow2(j - 1, k - 1);
      } else {
        BitOfZero(k - 1);
      }
    }
  }

  lemma {:induction false} BitOfZero(k: nat)
    ensures !Bit(0, k)
  {
    if k > 0 {
      BitOfZero(k - 1);
    }
  }

  lemma {:induction false} BitOfAnd(x: nat, y: nat, k: nat)
    ensures Bit(And(x, y), k) <==> Bit(x, k) && Bit(y, k)
  {
    if x == 0 || y == 0 {
      BitOfZero(k);
    } else if k > 0 {
      BitOfAnd(x / 2, y / 2, k - 1);
    }
  }

  lemma {:induction false} BitOfOr(x: nat, y: nat, k: nat)
    ensures Bit(Or(x, y), k) <==> Bit(x, k) || Bit(y, k)
  {
    if x == 0 || y == 0 {
      BitOfZero(k);
    } else if k > 0 {
      BitOfOr(x / 2, y / 2, k - 1);
    }
  }

  /** The all-ones word minus `x`, for any width: bits below the width are flipped. */
  lemma {:induction false} BitOfComplement(x: nat, w: nat, k: nat)
    requires x < Pow2(w) && k < w
    ensures Bit(Pow2(w) - 1 - x, k) <==> !Bit(x, k)
  {
    if k > 0 {
      assert (Pow2(w) - 1 - x) / 2 == Pow2(w - 1) - 1 - x / 2;
      BitOfComplement(x / 2, w - 1, k - 1);
    }
  }

  lemma {:induction false} OrBound(x: nat, y: nat, w: nat)
    requires x < Pow2(w) && y < Pow2(w)
    ensures Or(x, y) < Pow2(w)
  {
    if w > 0 && x != 0 && y != 0 {
      OrBound(x / 2, y / 2, w - 1);
    }
  }

  lemma {:induction false} AndBound(x: nat, y: nat)
    ensures And(x, y) <= x && And(x, y) <= y
  {
    if x != 0 && y != 0 {
      AndBound(x / 2, y / 2);
    }
  }

  lemma {:induction false} XorTwice(x: nat, y: nat)
    ensures Xor(Xor(x, y), y) == x
    decreases x + y
  {
    if x != 0 || y != 0 {
      XorTwice(x / 2, y / 2);
      XorStep(x, y);
      XorStep(Xor(x, y), y);
    }
  }

  lemma XorStep(x: nat, y: nat)
    ensures Xor(x, y) == 2 * Xor(x / 2, y / 2) + if x % 2 != y % 2 then 1 else 0
    ensures Xor(x, y) / 2 == Xor(x / 2, y / 2)
    ensures Xor(x, y) % 2 == if x % 2 != y % 2 then 1 else 0
  {
  }

  lemma {:induction false} XorBound(x: nat, y: nat, w: nat)
    requires x < Pow2(w) && y < Pow2(w)
    ensures Xor(x, y) < Pow2(w)
  {
    if w > 0 && x != 0 && y != 0 {
      XorBound(x / 2, y / 2, w - 1);
    }
  }

  /** Masking with one less than a power of two is the remainder. */
  lemma {:induction false} AndMask(x: nat, k: nat)
    ensures And(x, Pow2(k) - 1) == x % Pow2(k)
  {
    if k > 0 {
      DivModDouble(x, Pow2(k - 1));
      AndMask(x / 2, k - 1);
      assert (Pow2(k) - 1) / 2 == Pow2(k - 1) - 1;
    }
  }

  /** Masking with a power of two reads one bit. */
  lemma {:induction false} AndPow2(x: nat, k: nat)
    ensures And(x, Pow2(k)) == if Bit(x, k) then Pow2(k) else 0
  {
    if x == 0 {
      BitOfZero(k);
    } else if k > 0 {
      AndPow2(x / 2, k - 1);
    } else {
      assert And(x / 2, 0) == 0;
    }
  }

  lemma Pow2Of32()
    ensures Pow2(32) == WORD && Pow2(31) == 0x8000_0000
  {
    assert Pow2(8) == 0x100;
    Pow2Add(8, 8);
    Pow2Add(16, 16);
    assert Pow2(32) == 2 * Pow2(31);
  }

  /** `x & 2^k`, `x | 2^k` and `x & ~2^k` on 32-bit words touch bit `k` alone. */
  lemma SetAndClear(x: nat, k: nat)
    requires x < WORD && k < 32
    ensures Pow2(k) < WORD && Or(x, Pow2(k)) < WORD && And(x, Not32(Pow2(k))) < WORD
    ensures And(x, Pow2(k)) != 0 <==> Bit(x, k)
    ensures forall j :: 0 <= j < 32 ==> (Bit(Or(x, Pow2(k)), j) <==> Bit(x, j) || j == k)
    ensures forall j :: 0 <= j < 32 ==> (Bit(And(x, Not32(Pow2(k))), j) <==> Bit(x, j) && j != k)
  {
    Pow2Of32();
    Pow2Monotone(k, 32);
    OrBound(x, Pow2(k), 32);
    AndBound(x, Not32(Pow2(k)));
    AndPow2(x, k);
    forall j | 0 <= j < 32
      ensures Bit(Or(x, Pow2(k)), j) <==> Bit(x, j) || j == k
      ensures Bit(And(x, Not32(Pow2(k))), j) <==> Bit(x, j) && j != k
    {
      BitOfOr(x, Pow2(k), j);
      BitOfAnd(x, Not32(Pow2(k)), j);
      BitOfComplement(Pow2(k), 32, j);
      BitOfPow2(k, j);
    }
  }
}
