/** Counting the set bits of a word: one bit at a time, and in parallel
    (include/base/bitstring.h, base_countBits). */
module BitCount {
  import opened Words

  /** How many of the `n` lowest bits of `x` are set. */
  function Ones(x: nat, n: nat): nat {
    if n == 0 then 0 else Ones(x, n - 1) + if Bit(x, n - 1) then 1 else 0
  }

  /** The number of set bits of a 32-bit word. */
  function Count(x: nat): nat {
    Ones(x, 32)
  }

  // ---- counts of single words ----

  lemma {:induction false} OnesMonotone(x: nat, m: nat, n: nat)
    requires m <= n
    ensures Ones(x, m) <= Ones(x, n) <= Ones(x, m) + (n - m)
    decreases n
  {
    if m < n {
      OnesMonotone(x, m, n - 1);
    }
  }

  lemma {:induction false} OnesAgree(x: nat, y: nat, n: nat)
    requires forall k :: 0 <= k < n ==> (Bit(x, k) <==> Bit(y, k))
    ensures Ones(x, n) == Ones(y, n)
  {
    if n > 0 {
      OnesAgree(x, y, n - 1);
    }
  }

  /** Two words that differ exactly at `j`, where only `y` has the bit. */
  lemma {:induction false} OnesOneMore(x: nat, y: nat, j: nat, n: nat)
    requires j < n
    requires forall k :: 0 <= k < n ==> (Bit(y, k) <==> Bit(x, k) || k == j)
    requires !Bit(x, j)
    ensures Ones(y, n) == Ones(x, n) + 1
  {
    if n - 1 == j {
      OnesAgree(x, y, n - 1);
    } else {
      OnesOneMore(x, y, j, n - 1);
    }
  }

  lemma {:induction false} OnesAll(x: nat, n: nat, b: bool)
    requires forall k :: 0 <= k < n ==> (Bit(x, k) <==> b)
    ensures Ones(x, n) == if b then n else 0
  {
    if n > 0 {
      OnesAll(x, n - 1, b);
    }
  }

  /** The effect of `x | 2^k` and `x & ~2^k` on the count. */
  lemma CountSetAndClear(x: nat, k: nat)
    requires x < WORD && k < 32
    ensures Pow2(k) < WORD
    ensures Count(Or(x, Pow2(k))) == Count(x) + if Bit(x, k) then 0 else 1
    ensures Count(x) == Count(And(x, Not32(Pow2(k)))) + if Bit(x, k) then 1 else 0
  {
    SetAndClear(x, k);
    if Bit(x, k) {
      OnesAgree(x, Or(x, Pow2(k)), 32);
      OnesOneMore(And(x, Not32(Pow2(k))), x, k, 32);
    } else {
      OnesOneMore(x, Or(x, Pow2(k)), k, 32);
      OnesAgree(x, And(x, Not32(Pow2(k))), 32);
    }
  }

  lemma {:induction false} OnesFromLow(x: nat, n: nat)
    requires n > 0
    ensures Ones(x, n) == x % 2 + Ones(x / 2, n - 1)
  {
    if n > 1 {
      OnesFromLow(x, n - 1);
    }
  }

  // ---- the parallel count ----

  const PAIR_MASK: nat := 0xaaaa_aaaa
  const NIBBLE_MASK: nat := 0x3333_3333
  const BYTE_MASK: nat := 0x0f0f_0f0f

  function FoldPairs(x: nat, m: nat): nat { AndBound(x, m); x - And(x, m) / 2 }

  function FoldNibbles(x: nat, m: nat): nat { And(x / 4, m) + And(x, m) }

  function FoldBytes(x: nat, m: nat): nat { And((x / 16 + x) % WORD, m) }

  /** The last two folding steps. */
  function FoldWord(x3: nat): nat {
    var x4 := (x3 / 0x100 + x3) % WORD;
    And((x4 / 0x1_0000 + x4) % WORD, 0xff)
  }

  /** A number in base four, least significant digit first, and what the folding steps make of it: the sum
      of the bits of each pair, of two neighbouring pairs, and of four, each in a field of its own. */
  datatype Digits = End | Digit(d: nat, rest: Digits)

  function Value(l: Digits): nat {
    match l
    case End => 0
    case Digit(d, r) => d + 4 * Value(r)
  }

  predicate Proper(l: Digits) {
    l.Digit? ==> l.d < 4 && Proper(l.rest)
  }

  /** The number of set bits of a digit. */
  function Bits(d: nat): (b: nat)
    ensures b <= 2
  {
    if d == 0 then 0 else if d == 3 then 2 else 1
  }

  function Sum(l: Digits): nat {
    match l
    case End => 0
    case Digit(d, r) => Bits(d) + Sum(r)
  }

  function Pairs(l: Digits): nat {
    match l
    case End => 0
    case Digit(d, r) => Bits(d) + 4 * Pairs(r)
  }

  function Nibbles(l: Digits): nat {
    match l
    case Digit(a, Digit(b, r)) => Bits(a) + Bits(b) + 16 * Nibbles(r)
    case _ => 0
  }

  function Bytes(l: Digits): nat {
    match l
    case Digit(a, Digit(b, Digit(c, Digit(d, r)))) => Bits(a) + Bits(b) + (Bits(c) + Bits(d)) + 256 * Bytes(r)
    case _ => 0
  }

  function Length(l: Digits): nat {
    match l
    case End => 0
    case Digit(d, r) => 1 + Length(r)
  }

  /** A field `d` repeated `n` times. */
  function Repeat(d: nat, base: nat, n: nat): nat {
    if n == 0 then 0 else d + base * Repeat(d, base, n - 1)
  }

  // ---- `And` works field by field ----

  function Both(b: nat, e: nat): nat {
    if b == 1 && e == 1 then 1 else 0
  }

  /** The lowest bit, and the others. */
  lemma AndBit(x: nat, y: nat, b: nat, q: nat, e: nat, t: nat)
    requires b < 2 && e < 2 && x == b + 2 * q && y == e + 2 * t
    ensures And(x, y) == Both(b, e) + 2 * And(q, t)
  {
    assert x / 2 == q && x % 2 == b && y / 2 == t && y % 2 == e;
  }

  lemma AddFour(a: nat, b: nat, u: nat, v: nat, w: nat)
    requires u == a + 2 * v && v == b + 2 * w
    ensures u == a + 2 * b + 4 * w
  {
  }

  /** The two lowest bits, and the others. */
  lemma AndBits(x: nat, y: nat, b0: nat, b1: nat, q: nat, e0: nat, e1: nat, t: nat)
    requires b0 < 2 && b1 < 2 && e0 < 2 && e1 < 2
    requires x == b0 + 2 * (b1 + 2 * q) && y == e0 + 2 * (e1 + 2 * t)
    ensures And(x, y) == Both(b0, e0) + 2 * Both(b1, e1) + 4 * And(q, t)
  {
    var q1, t1 := b1 + 2 * q, e1 + 2 * t;
    AndBit(x, y, b0, q1, e0, t1);
    AndBit(q1, t1, b1, q, e1, t);
    AddFour(Both(b0, e0), Both(b1, e1), And(x, y), And(q1, t1), And(q, t));
  }

  lemma AndPair(q: nat, d: nat, t: nat, e: nat)
    requires d < 4 && e < 4
    ensures And(d + 4 * q, e + 4 * t) == And(d, e) + 4 * And(q, t)
  {
    AndBits(d + 4 * q, e + 4 * t, d % 2, d / 2, q, e % 2, e / 2, t);
    AndBits(d, e, d % 2, d / 2, 0, e % 2, e / 2, 0);
  }

  lemma AndNibble(q: nat, d: nat, t: nat, e: nat)
    requires d < 16 && e < 16
    ensures And(d + 16 * q, e + 16 * t) == And(d, e) + 16 * And(q, t)
  {
    assert d + 16 * q == d % 4 + 4 * (d / 4 + 4 * q);
    assert e + 16 * t == e % 4 + 4 * (e / 4 + 4 * t);
    AndPair(d / 4 + 4 * q, d % 4, e / 4 + 4 * t, e % 4);
    AndPair(q, d / 4, t, e / 4);
    AndPair(d / 4, d % 4, e / 4, e % 4);
  }

  /** Two nibbles at a time, given as such. */
  lemma AndNibbles(q: nat, d0: nat, d1: nat, t: nat, e0: nat, e1: nat)
    requires d0 < 16 && d1 < 16 && e0 < 16 && e1 < 16
    ensures And(d0 + 16 * (d1 + 16 * q), e0 + 16 * (e1 + 16 * t)) == And(d0, e0) + 16 * (And(d1, e1) + 16 * And(q, t))
  {
    AndNibble(d1 + 16 * q, d0, e1 + 16 * t, e0);
    AndNibble(q, d1, t, e1);
  }

  lemma AndByte(q: nat, d: nat, t: nat, e: nat)
    requires d < 256 && e < 256
    ensures And(d + 256 * q, e + 256 * t) == And(d, e) + 256 * And(q, t)
  {
    var d0, d1, e0, e1 := d % 16, d / 16, e % 16, e / 16;
    TwoNibbles(d, d0, d1, q);
    TwoNibbles(e, e0, e1, t);
    AndNibbles(q, d0, d1, t, e0, e1);
    AndNibble(d1, d0, e1, e0);
  }

  lemma TwoNibbles(d: nat, d0: nat, d1: nat, q: nat)
    requires d < 256 && d0 == d % 16 && d1 == d / 16
    ensures d1 < 16 && d == d0 + 16 * d1 && d + 256 * q == d0 + 16 * (d1 + 16 * q)
  {
  }

  lemma AndLow(x: nat, k: nat, p: nat)
    requires p == Pow2(k)
    ensures And(x, p - 1) == x % p
  {
    AndMask(x, k);
  }

  // ---- the folding steps ----

  /** The upper bits of the digits, in place. */
  function Uppers(l: Digits): nat {
    match l
    case End => 0
    case Digit(d, r) => 2 * (d / 2) + 4 * Uppers(r)
  }

  lemma AndUpper(x: nat, m: nat, q: nat, d: nat, t: nat)
    requires x == d + 4 * q && m == 2 + 4 * t && d < 4
    ensures And(x, m) == 2 * (d / 2) + 4 * And(q, t)
  {
    AndBits(x, m, d % 2, d / 2, q, 0, 1, t);
  }

  lemma {:induction false} MaskedPairs(l: Digits, n: nat)
    requires Proper(l) && Length(l) == n
    ensures And(Value(l), Repeat(2, 4, n)) == Uppers(l)
    decreases l
  {
    if l.Digit? {
      MaskedPairs(l.rest, n - 1);
      AndUpper(Value(l), Repeat(2, 4, n), Value(l.rest), l.d, Repeat(2, 4, n - 1));
    }
  }

  lemma HalveDigit(d: nat, u: nat, v: nat, p: nat)
    requires d < 4 && u % 2 == 0 && v == u / 2 + p
    ensures (2 * (d / 2) + 4 * u) % 2 == 0 && d + 4 * v == (2 * (d / 2) + 4 * u) / 2 + (Bits(d) + 4 * p)
  {
    var q := d / 2;
    assert Bits(d) == q + d % 2;
    DivModUnique(2 * q + 4 * u, 2, q + 2 * u, 0);
  }

  lemma {:induction false} HalvedPairs(l: Digits)
    requires Proper(l)
    ensures Uppers(l) % 2 == 0 && Value(l) == Uppers(l) / 2 + Pairs(l)
    decreases l
  {
    if l.Digit? {
      HalvedPairs(l.rest);
      HalveDigit(l.d, Uppers(l.rest), Value(l.rest), Pairs(l.rest));
    }
  }

  lemma PairsCorrect(l: Digits, n: nat)
    requires Proper(l) && Length(l) == n
    ensures FoldPairs(Value(l), Repeat(2, 4, n)) == Pairs(l)
  {
    MaskedPairs(l, n);
    HalvedPairs(l);
  }

  lemma NibbleStep(x: nat, m: nat, q: nat, lo: nat, hi: nat, t: nat)
    requires x == lo + 4 * hi + 16 * q && m == 3 + 16 * t && lo <= 2 && hi <= 2
    ensures FoldNibbles(x, m) == lo + hi + 16 * FoldNibbles(q, t)
  {
    LowField(x, m, q, lo, hi, t);
    DivModUnique(x, 4, hi + 4 * q, lo);
    HighField(x / 4, m, q, hi, t);
  }

  /** A full mask keeps a pair, an empty one drops it. */
  lemma AndFull(x: nat, m: nat, d: nat, q: nat, t: nat)
    requires x == d + 4 * q && m == 3 + 4 * t && d < 4
    ensures And(x, m) == d + 4 * And(q, t)
  {
    AndBits(x, m, d % 2, d / 2, q, 1, 1, t);
  }

  lemma AndNone(x: nat, m: nat, d: nat, q: nat, t: nat)
    requires x == d + 4 * q && m == 4 * t && d < 4
    ensures And(x, m) == 4 * And(q, t)
  {
    AndBits(x, m, d % 2, d / 2, q, 0, 0, t);
  }

  /** The mask selects the pair `d`, and not the next one. */
  lemma AndSelect(x: nat, m: nat, d: nat, e: nat, q: nat, t: nat)
    requires x == d + 4 * e + 16 * q && m == 3 + 16 * t && d < 4 && e < 4
    ensures And(x, m) == d + 16 * And(q, t)
  {
    AndFull(x, m, d, e + 4 * q, 4 * t);
    AndNone(e + 4 * q, 4 * t, e, q, t);
  }

  lemma LowField(x: nat, m: nat, q: nat, lo: nat, hi: nat, t: nat)
    requires x == lo + 4 * hi + 16 * q && m == 3 + 16 * t && lo <= 2 && hi <= 2
    ensures And(x, m) == lo + 16 * And(q, t)
  {
    AndSelect(x, m, lo, hi, q, t);
  }

  lemma HighField(x: nat, m: nat, q: nat, hi: nat, t: nat)
    requires x == hi + 4 * q && m == 3 + 16 * t && hi <= 2
    ensures And(x, m) == hi + 16 * And(q / 4, t)
  {
    AndSelect(x, m, hi, q % 4, q / 4, t);
  }

  /** The first two digits, and what they contribute. */
  lemma Two(l: Digits) returns (a: nat, b: nat, r: Digits)
    requires Length(l) >= 2
    ensures l == Digit(a, Digit(b, r)) && r < l && Length(r) == Length(l) - 2
    ensures Pairs(l) == Bits(a) + 4 * Bits(b) + 16 * Pairs(r)
    ensures Nibbles(l) == Bits(a) + Bits(b) + 16 * Nibbles(r)
  {
    var l1 := l.rest;
    assert Length(l1) == Length(l) - 1;
    a, b, r := l.d, l1.d, l1.rest;
    assert Pairs(l1) == Bits(b) + 4 * Pairs(r);
  }

  lemma {:induction false} NibblesCorrect(l: Digits, n: nat)
    requires Length(l) == 2 * n
    ensures FoldNibbles(Pairs(l), Repeat(3, 16, n)) == Nibbles(l)
    decreases n
  {
    if n == 0 {
      assert l == End;
    } else {
      var a, b, r := Two(l);
      NibblesCorrect(r, n - 1);
      NextNibble(l, a, b, r, Repeat(3, 16, n), Repeat(3, 16, n - 1));
    }
  }

  lemma NextNibble(l: Digits, a: nat, b: nat, r: Digits, m: nat, t: nat)
    requires Pairs(l) == Bits(a) + 4 * Bits(b) + 16 * Pairs(r) && m == 3 + 16 * t
    requires Nibbles(l) == Bits(a) + Bits(b) + 16 * Nibbles(r)
    ensures FoldNibbles(Pairs(r), t) == Nibbles(r) ==> FoldNibbles(Pairs(l), m) == Nibbles(l)
  {
    NibbleStep(Pairs(l), m, Pairs(r), Bits(a), Bits(b), t);
  }

  lemma {:induction false} NibblesBound(l: Digits, n: nat)
    requires Length(l) == 2 * n
    ensures Nibbles(l) <= Repeat(4, 16, n)
    decreases n
  {
    if n == 0 {
      assert l == End;
    } else {
      var a, b, r := Two(l);
      NibblesBound(r, n - 1);
    }
  }

  lemma LowNibble(l: Digits)
    ensures Nibbles(l) % 16 <= 4
  {
    match l
    case Digit(a, Digit(b, r)) => LowField16(Bits(a) + Bits(b), Nibbles(r));
    case _ =>
  }

  lemma LowField16(a: nat, t: nat)
    requires a < 16
    ensures (a + 16 * t) % 16 == a
  {
  }

  /** Before masking: the low byte of the sum, and the rest. */
  lemma ByteSum(z: nat, q: nat, lo: nat, hi: nat)
    requires z == lo + 16 * hi + 256 * q && lo <= 4 && hi <= 4
    ensures z / 16 + z == ((lo + hi) + 16 * (hi + q % 16)) + 256 * (q / 16 + q)
  {
    DivModUnique(z, 16, hi + 16 * q, lo);
    ByteFields(q, lo, hi, q / 16, q % 16);
  }

  /** `c` is the byte mask. */
  lemma ByteMasked(x: nat, m: nat, p: nat, d: nat, e: nat, t: nat, c: nat)
    requires x == (d + 16 * e) + 256 * p && m == c + 256 * t && c == 15 && d <= 8 && e <= 8
    ensures And(x, m) == d + 256 * And(p, t)
  {
    var f := d + 16 * e;
    AndByte(p, f, t, c);
    AndFifteen(d, e, c);
  }

  lemma ByteStep(z: nat, m: nat, q: nat, lo: nat, hi: nat, t: nat)
    requires z == lo + 16 * hi + 256 * q <= 0x4444_4444 && m == 15 + 256 * t
    requires lo <= 4 && hi <= 4 && q % 16 <= 4
    ensures FoldBytes(z, m) == lo + hi + 256 * FoldBytes(q, t)
  {
    ByteSum(z, q, lo, hi);
    SmallMod(z / 16 + z);
    SmallMod(q / 16 + q);
    ByteMasked(z / 16 + z, m, q / 16 + q, lo + hi, hi + q % 16, t, 15);
  }

  lemma AndFifteen(d: nat, e: nat, c: nat)
    requires d < 16 && c == 15
    ensures And(d + 16 * e, c) == d
  {
    assert Pow2(4) == 16;
    AndLow(d + 16 * e, 4, 16);
    DivModUnique(d + 16 * e, 16, e, d);
  }

  lemma ByteFields(q: nat, lo: nat, hi: nat, q1: nat, q0: nat)
    requires q == 16 * q1 + q0
    ensures (hi + 16 * q) + (lo + 16 * hi + 256 * q) == ((lo + hi) + 16 * (hi + q0)) + 256 * (q1 + q)
  {
  }

  lemma SmallMod(x: nat)
    requires x < WORD
    ensures x % WORD == x
  {
  }

  lemma {:induction false} BytesCorrect(l: Digits, n: nat)
    requires Length(l) == 4 * n && Nibbles(l) <= 0x4444_4444
    ensures FoldBytes(Nibbles(l), Repeat(15, 256, n)) == Bytes(l)
    decreases l
  {
    if n > 0 {
      var a, b, c, d, r := Four(l);
      BytesCorrect(r, n - 1);
      LowNibble(r);
      ByteStep(Nibbles(l), Repeat(15, 256, n), Nibbles(r), Bits(a) + Bits(b), Bits(c) + Bits(d),
               Repeat(15, 256, n - 1));
    }
  }

  /** The first four digits, and what they contribute. */
  lemma Four(l: Digits) returns (a: nat, b: nat, c: nat, d: nat, r: Digits)
    requires Length(l) >= 4
    ensures l == Digit(a, Digit(b, Digit(c, Digit(d, r)))) && r < l && Length(r) == Length(l) - 4
    ensures Nibbles(l) == Bits(a) + Bits(b) + 16 * (Bits(c) + Bits(d)) + 256 * Nibbles(r)
    ensures Bytes(l) == Bits(a) + Bits(b) + (Bits(c) + Bits(d)) + 256 * Bytes(r)
    ensures Sum(l) == Bits(a) + Bits(b) + (Bits(c) + Bits(d)) + Sum(r)
  {
    var l1 := l.rest;
    assert Length(l1) == Length(l) - 1;
    var l2 := l1.rest;
    assert Length(l2) == Length(l) - 2;
    var l3 := l2.rest;
    a, b, c, d, r := l.d, l1.d, l2.d, l3.d, l3.rest;
    assert Nibbles(l2) == Bits(c) + Bits(d) + 16 * Nibbles(r);
    assert Sum(l2) == Bits(c) + (Bits(d) + Sum(r));
  }

  /** The last two steps add up four byte counts. */
  lemma AddBytes(b0: nat, b1: nat, b2: nat, b3: nat)
    requires b0 <= 8 && b1 <= 8 && b2 <= 8 && b3 <= 8
    ensures FoldWord(b0 + 256 * (b1 + 256 * (b2 + 256 * b3))) == b0 + b1 + b2 + b3
  {
    WordArithmetic(b0, b1, b2, b3);
    var x3 := b0 + 256 * (b1 + 256 * (b2 + 256 * b3));
    var x4 := (x3 / 0x100 + x3) % WORD;
    assert Pow2(8) == 0x100;
    AndLow((x4 / 0x1_0000 + x4) % WORD, 8, 0x100);
  }

  lemma WordArithmetic(b0: nat, b1: nat, b2: nat, b3: nat)
    requires b0 <= 8 && b1 <= 8 && b2 <= 8 && b3 <= 8
    ensures var x3 := b0 + 256 * (b1 + 256 * (b2 + 256 * b3));
            var x4 := (x3 / 0x100 + x3) % WORD;
            (x4 / 0x1_0000 + x4) % WORD % 256 == b0 + b1 + b2 + b3
  {
    var x3 := b0 + 256 * (b1 + 256 * (b2 + 256 * b3));
    DivModUnique(x3, 0x100, b1 + 256 * (b2 + 256 * b3), b0);
    UpperHalves(b2 + b3 + 256 * b3, b0 + b1 + 256 * (b1 + b2), b0 + b1 + b2 + b3, b1 + b2 + b3);
  }

  lemma UpperHalves(hi: nat, lo: nat, sum: nat, rest: nat)
    requires hi <= 0x1000 && lo < 0x1_0000 && sum < 256 && hi + lo == sum + 256 * rest
    ensures var x4 := (hi * 0x1_0000 + lo) % WORD; (x4 / 0x1_0000 + x4) % WORD % 256 == sum
  {
    var x4 := hi * 0x1_0000 + lo;
    DivModUnique(x4, 0x1_0000, hi, lo);
    DivModUnique(hi + x4, 0x100, rest + 0x100 * hi, sum);
  }

  /** Eight digits make two bytes. */
  lemma TwoBytes(l: Digits) returns (b0: nat, b1: nat, r: Digits)
    requires Length(l) >= 8
    ensures b0 <= 8 && b1 <= 8 && Length(r) == Length(l) - 8
    ensures Bytes(l) == b0 + 256 * (b1 + 256 * Bytes(r)) && Sum(l) == b0 + b1 + Sum(r)
  {
    var q;
    b0, q := OneByte(l);
    b1, r := OneByte(q);
  }

  lemma OneByte(l: Digits) returns (b: nat, r: Digits)
    requires Length(l) >= 4
    ensures b <= 8 && Length(r) == Length(l) - 4 && Bytes(l) == b + 256 * Bytes(r) && Sum(l) == b + Sum(r)
  {
    var a0, a1, a2, a3;
    a0, a1, a2, a3, r := Four(l);
    b := Bits(a0) + Bits(a1) + (Bits(a2) + Bits(a3));
  }

  /** Sixteen digits: the bytes add up to the sum of all bits. */
  lemma SumOfBytes(l: Digits)
    requires Length(l) == 16
    ensures FoldWord(Bytes(l)) == Sum(l)
  {
    var b0, b1, q := TwoBytes(l);
    var b2, b3, r := TwoBytes(q);
    assert r == End;
    AddBytes(b0, b1, b2, b3);
  }

  // ---- the digits of a word ----

  function DigitsOf(x: nat, n: nat): Digits {
    if n == 0 then End else Digit(x % 4, DigitsOf(x / 4, n - 1))
  }

  lemma {:induction false} DigitsHaveValue(x: nat, n: nat, p: nat)
    requires p == Pow2(2 * n) && x < p
    ensures Value(DigitsOf(x, n)) == x
  {
    if n > 0 {
      assert Pow2(2 * n) == 2 * Pow2(2 * n - 1) && Pow2(2 * n - 1) == 2 * Pow2(2 * (n - 1));
      DigitsHaveValue(x / 4, n - 1, Pow2(2 * (n - 1)));
    }
  }

  lemma {:induction false} DigitsAreProper(x: nat, n: nat)
    ensures Proper(DigitsOf(x, n)) && Length(DigitsOf(x, n)) == n
  {
    if n > 0 {
      DigitsAreProper(x / 4, n - 1);
    }
  }

  lemma LowBits(x: nat)
    ensures x / 2 / 2 == x / 4 && x % 2 + x / 2 % 2 == Bits(x % 4)
  {
  }

  lemma {:induction false} SumIsOnes(x: nat, n: nat)
    ensures Sum(DigitsOf(x, n)) == Ones(x, 2 * n)
  {
    if n > 0 {
      OnesFromLow(x, 2 * n);
      OnesFromLow(x / 2, 2 * n - 1);
      LowBits(x);
      SumIsOnes(x / 4, n - 1);
    }
  }

  // ---- base_countBits ----

  lemma FieldMasks(n: nat)
    requires n == 4
    ensures Repeat(2, 4, 4 * n) == PAIR_MASK && Repeat(3, 16, 2 * n) == NIBBLE_MASK
    ensures Repeat(15, 256, n) == BYTE_MASK && Repeat(4, 16, 2 * n) == 0x4444_4444
  {
    assert Repeat(2, 4, 8) == 0xaaaa;
    assert Repeat(3, 16, 4) == 0x3333;
    assert Repeat(4, 16, 4) == 0x4444;
  }

  lemma FoldOnce(x: Word, n: nat)
    requires n == 4
    ensures FoldPairs(x, PAIR_MASK) == Pairs(DigitsOf(x, 4 * n))
  {
    Pow2Of32();
    FieldMasks(n);
    DigitsHaveValue(x, 4 * n, WORD);
    DigitsAreProper(x, 4 * n);
    PairsCorrect(DigitsOf(x, 4 * n), 4 * n);
  }

  lemma FoldTwice(x: Word, n: nat)
    requires n == 4
    ensures FoldNibbles(Pairs(DigitsOf(x, 4 * n)), NIBBLE_MASK) == Nibbles(DigitsOf(x, 4 * n)) <= 0x4444_4444
  {
    FieldMasks(n);
    DigitsAreProper(x, 4 * n);
    NibblesCorrect(DigitsOf(x, 4 * n), 2 * n);
    NibblesBound(DigitsOf(x, 4 * n), 2 * n);
  }

  lemma FoldThrice(x: Word, n: nat)
    requires n == 4
    ensures var l := DigitsOf(x, 4 * n); Nibbles(l) <= 0x4444_4444 ==> FoldBytes(Nibbles(l), BYTE_MASK) == Bytes(l)
  {
    FieldMasks(n);
    DigitsAreProper(x, 4 * n);
    if Nibbles(DigitsOf(x, 4 * n)) <= 0x4444_4444 {
      BytesCorrect(DigitsOf(x, 4 * n), n);
    }
  }

  lemma FoldLast(x: Word, n: nat)
    requires n == 4
    ensures FoldWord(Bytes(DigitsOf(x, 4 * n))) == Ones(x, 8 * n)
  {
    DigitsAreProper(x, 4 * n);
    SumOfBytes(DigitsOf(x, 4 * n));
    SumIsOnes(x, 4 * n);
  }

  lemma CountIsOnes(x: nat, n: nat)
    requires n == 32
    ensures Count(x) == Ones(x, n)
  {
  }

  /** The folding steps in order. */
  lemma FoldsCount(x0: Word, n: nat)
    requires n == 4
    ensures FoldWord(FoldBytes(FoldNibbles(FoldPairs(x0, PAIR_MASK), NIBBLE_MASK), BYTE_MASK)) == Ones(x0, 8 * n)
  {
    FoldOnce(x0, n);
    FoldTwice(x0, n);
    FoldThrice(x0, n);
    FoldLast(x0, n);
  }

  /** base_countBits, line by line: the parallel count is the number of set bits, for every word. */
  method BaseCountBits(x0: Word) returns (x: nat)
    ensures x == Count(x0)
  {
    x := FoldPairs(x0, PAIR_MASK);
    x := FoldNibbles(x, NIBBLE_MASK);
    x := FoldBytes(x, BYTE_MASK);
    x := FoldWord(x);
    FoldsCount(x0, 4);
    CountIsOnes(x0, 32);
  }
}
