/** HASH_MIX (include/hash/compute.h): nine rounds that mix three 32-bit words in place. */
module HashMix {
  import opened Words

  datatype Triple = Triple(a: Word, b: Word, c: Word)

  function Sub32(x: Word, y: Word): Word { (x + WORD - y) % WORD }

  function Add32(x: Word, y: Word): Word { (x + y) % WORD }

  function Xor32(x: Word, y: Word): (z: Word)
    ensures z == Xor(x, y)
  {
    Pow2Of32();
    XorBound(x, y, 32);
    Xor(x, y)
  }

  /** One round on a word: subtract the two others, then xor with a shifted copy of the last one. */
  function Round(x: Word, y: Word, z: Word, shifted: Word): Word {
    Xor32(Sub32(Sub32(x, y), z), shifted)
  }

  function Unround(x: Word, y: Word, z: Word, shifted: Word): Word {
    Add32(Add32(Xor32(x, shifted), z), y)
  }

  lemma RoundUndone(x: Word, y: Word, z: Word, s: Word)
    ensures Unround(Round(x, y, z, s), y, z, s) == x
    ensures Round(Unround(x, y, z, s), y, z, s) == x
  {
    XorTwice(Sub32(Sub32(x, y), z), s);
    SubAdd(x, y);
    SubAdd(Sub32(x, y), z);
    XorTwice(x, s);
    SubAdd(Xor32(x, s), z);
    SubAdd(Add32(Xor32(x, s), z), y);
  }

  lemma SubAdd(x: Word, y: Word)
    ensures Add32(Sub32(x, y), y) == x && Sub32(Add32(x, y), y) == x
  {
  }

  /** The shift of round `n`: right by 13, 12, 5, 3 and 15 bits, left by 8, 16 and 10. */
  function Shifted(n: nat, x: Word): Word {
    match n
    case 0 => x / 0x2000
    case 1 => x * 0x100 % WORD
    case 2 => x / 0x2000
    case 3 => x / 0x1000
    case 4 => x * 0x1_0000 % WORD
    case 5 => x / 0x20
    case 6 => x / 8
    case 7 => x * 0x400 % WORD
    case _ => x / 0x8000
  }

  /** Round `n` updates the first word, then the roles rotate. */
  function Step(n: nat, t: Triple): Triple {
    Triple(t.b, t.c, Round(t.a, t.b, t.c, Shifted(n, t.c)))
  }

  function Unstep(n: nat, t: Triple): Triple {
    Triple(Unround(t.c, t.a, t.b, Shifted(n, t.b)), t.a, t.b)
  }

  lemma StepUndone(n: nat, t: Triple)
    ensures Unstep(n, Step(n, t)) == t && Step(n, Unstep(n, t)) == t
  {
    RoundUndone(t.a, t.b, t.c, Shifted(n, t.c));
    RoundUndone(t.c, t.a, t.b, Shifted(n, t.b));
  }

  /** Three rounds, from round `n` on, after which the roles are as before. */
  function Steps(n: nat, t: Triple): Triple {
    Step(n + 2, Step(n + 1, Step(n, t)))
  }

  function Unsteps(n: nat, t: Triple): Triple {
    Unstep(n, Unstep(n + 1, Unstep(n + 2, t)))
  }

  lemma StepsUndone(n: nat, t: Triple)
    ensures Unsteps(n, Steps(n, t)) == t && Steps(n, Unsteps(n, t)) == t
  {
    StepUndone(n, t);
    StepUndone(n + 1, Step(n, t));
    StepUndone(n + 2, Step(n + 1, Step(n, t)));
    StepUndone(n + 2, t);
    StepUndone(n + 1, Unstep(n + 2, t));
    StepUndone(n, Unstep(n + 1, Unstep(n + 2, t)));
  }

  function Mix(t: Triple): Triple {
    Steps(6, Steps(3, Steps(0, t)))
  }

  function Unmix(t: Triple): Triple {
    Unsteps(0, Unsteps(3, Unsteps(6, t)))
  }

  /** The mix is a bijection on triples of words, with an explicit inverse on both sides. */
  lemma MixIsReversible(t: Triple)
    ensures Unmix(Mix(t)) == t && Mix(Unmix(t)) == t
  {
    StepsUndone(0, t);
    StepsUndone(3, Steps(0, t));
    StepsUndone(6, Steps(3, Steps(0, t)));
    StepsUndone(6, t);
    StepsUndone(3, Unsteps(6, t));
    StepsUndone(0, Unsteps(3, Unsteps(6, t)));
  }

  // ---- the macro ----

  lemma SubCases(x: Word, y: Word)
    ensures Sub32(x, y) == if x >= y then x - y else x + WORD - y
  {
  }

  lemma ModCases(v: int)
    requires v < WORD && v + 2 * WORD >= 0
    ensures v % WORD == if v >= 0 then v else if v + WORD >= 0 then v + WORD else v + 2 * WORD
  {
  }

  lemma TwoSubs(x: Word, y: Word, z: Word)
    ensures Sub32(Sub32(x, y), z) == (x - y - z) % WORD
  {
    SubCases(x, y);
    SubCases(Sub32(x, y), z);
    ModCases(x - y - z);
  }

  lemma RoundIs(x: Word, y: Word, z: Word, shifted: Word)
    ensures Round(x, y, z, shifted) == Xor((x - y - z) % WORD, shifted)
  {
    TwoSubs(x, y, z);
  }

  /** Three assignments in arithmetic: two subtractions in 32 bits, and the bits that differ from `shifted`. */
  ghost predicate IsRound(r: nat, x: nat, y: nat, z: nat, shifted: nat) {
    r == Xor((x - y - z) % WORD, shifted)
  }

  /** Three consecutive assignments of the macro, on one of the words. */
  method MixRound(x0: Word, y: Word, z: Word, shifted: Word) returns (x: Word)
    ensures x == Round(x0, y, z, shifted) && IsRound(x, x0, y, z, shifted)
  {
    RoundIs(x0, y, z, shifted);
    x := x0;
    x := Sub32(x, y);
    x := Sub32(x, z);
    x := Xor32(x, shifted);
  }

  lemma RoundsAreMix(a0: Word, b0: Word, c0: Word, a1: Word, b1: Word, c1: Word, a2: Word, b2: Word, c2: Word,
                     a: Word, b: Word, c: Word)
    requires a1 == Round(a0, b0, c0, Shifted(0, c0)) && b1 == Round(b0, c0, a1, Shifted(1, a1))
    requires c1 == Round(c0, a1, b1, Shifted(2, b1)) && a2 == Round(a1, b1, c1, Shifted(3, c1))
    requires b2 == Round(b1, c1, a2, Shifted(4, a2)) && c2 == Round(c1, a2, b2, Shifted(5, b2))
    requires a == Round(a2, b2, c2, Shifted(6, c2)) && b == Round(b2, c2, a, Shifted(7, a))
    requires c == Round(c2, a, b, Shifted(8, b))
    ensures Triple(a, b, c) == Mix(Triple(a0, b0, c0))
  {
    assert Triple(a1, b1, c1) == Steps(0, Triple(a0, b0, c0));
    assert Triple(a2, b2, c2) == Steps(3, Triple(a1, b1, c1));
    assert Triple(a, b, c) == Steps(6, Triple(a2, b2, c2));
  }

  /** The macro: nine rounds in order, by way of the intermediate words. The shifts are right by 13, left by 8, right
      by 13, right by 12, left by 16, right by 5, right by 3, left by 10 and right by 15 bits. */
  method HashMix(a0: Word, b0: Word, c0: Word)
    returns (a: Word, b: Word, c: Word,
             ghost a1: Word, ghost b1: Word, ghost c1: Word, ghost a2: Word, ghost b2: Word, ghost c2: Word)
    ensures IsRound(a1, a0, b0, c0, c0 / 0x2000)
    ensures IsRound(b1, b0, c0, a1, a1 * 0x100 % WORD)
    ensures IsRound(c1, c0, a1, b1, b1 / 0x2000)
    ensures IsRound(a2, a1, b1, c1, c1 / 0x1000)
    ensures IsRound(b2, b1, c1, a2, a2 * 0x1_0000 % WORD)
    ensures IsRound(c2, c1, a2, b2, b2 / 0x20)
    ensures IsRound(a, a2, b2, c2, c2 / 8)
    ensures IsRound(b, b2, c2, a, a * 0x400 % WORD)
    ensures IsRound(c, c2, a, b, b / 0x8000)
    ensures Triple(a, b, c) == Mix(Triple(a0, b0, c0)) && Unmix(Triple(a, b, c)) == Triple(a0, b0, c0)
  {
    a, b, c := a0, b0, c0;
    a := MixRound(a, b, c, c / 0x2000);
    b := MixRound(b, c, a, a * 0x100 % WORD);
    c := MixRound(c, a, b, b / 0x2000);
    a1, b1, c1 := a, b, c;
    a := MixRound(a, b, c, c / 0x1000);
    b := MixRound(b, c, a, a * 0x1_0000 % WORD);
    c := MixRound(c, a, b, b / 0x20);
    a2, b2, c2 := a, b, c;
    a := MixRound(a, b, c, c / 8);
    b := MixRound(b, c, a, a * 0x400 % WORD);
    c := MixRound(c, a, b, b / 0x8000);
    RoundsAreMix(a0, b0, c0, a1, b1, c1, a2, b2, c2, a, b, c);
    MixIsReversible(Triple(a0, b0, c0));
  }

  /** hash_compute3. */
  method HashCompute3(a0: Word, b0: Word, c0: Word) returns (h: Word)
    ensures h == Mix(Triple(a0, b0, c0)).c
  {
    var a, b, c, a1, b1, c1, a2, b2, c2 := HashMix(a0, b0, c0);
    h := c;
  }

  /** The combined hash is balanced: for every value `h`, the triples that are combined to `h` correspond one
      to one to the pairs of words `x`, `y`. */
  lemma CombinedHashIsBalanced(h: Word, x: Word, y: Word)
    ensures var t := Unmix(Triple(x, y, h));
            Mix(t).c == h && forall u :: Mix(u) == Triple(x, y, h) <==> u == t
  {
    MixIsReversible(Triple(x, y, h));
    forall u
      ensures Mix(u) == Triple(x, y, h) <==> u == Unmix(Triple(x, y, h))
    {
      MixIsReversible(u);
    }
  }

  // ---- known answers ----

  /** A hexadecimal digit and its bits. */
  datatype Digit = Digit(v: nat, b3: bool, b2: bool, b1: bool, b0: bool) {
    predicate Valid() {
      v == Num(b0) + 2 * Num(b1) + 4 * Num(b2) + 8 * Num(b3)
    }
  }

  const D0: Digit := Digit(0, false, false, false, false)
  const D1: Digit := Digit(1, false, false, false, true)
  const D2: Digit := Digit(2, false, false, true, false)
  const D3: Digit := Digit(3, false, false, true, true)
  const D4: Digit := Digit(4, false, true, false, false)
  const D5: Digit := Digit(5, false, true, false, true)
  const D6: Digit := Digit(6, false, true, true, false)
  const D7: Digit := Digit(7, false, true, true, true)
  const D8: Digit := Digit(8, true, false, false, false)
  const D9: Digit := Digit(9, true, false, false, true)
  const DA: Digit := Digit(10, true, false, true, false)
  const DB: Digit := Digit(11, true, false, true, true)
  const DC: Digit := Digit(12, true, true, false, false)
  const DD: Digit := Digit(13, true, true, false, true)
  const DE: Digit := Digit(14, true, true, true, false)
  const DF: Digit := Digit(15, true, true, true, true)

  /** A word by its digits. */
  datatype Half = Half(h3: Digit, h2: Digit, h1: Digit, h0: Digit) {
    predicate Valid() {
      h3.Valid() && h2.Valid() && h1.Valid() && h0.Valid()
    }

    function Value(): nat {
      h0.v + 0x10 * h1.v + 0x100 * h2.v + 0x1000 * h3.v
    }
  }

  datatype Hex = Hex(hi: Half, lo: Half) {
    predicate Valid() {
      hi.Valid() && lo.Valid()
    }

    function Value(): nat {
      lo.Value() + 0x1_0000 * hi.Value()
    }
  }

  function Num(b: bool): (n: nat)
    ensures n < 2
  {
    if b then 1 else 0
  }

  /** The bits of `f` are set where those of `d` and `e` differ. */
  predicate XorDigits(d: Digit, e: Digit, f: Digit) {
    f.b3 == (d.b3 != e.b3) && f.b2 == (d.b2 != e.b2) && f.b1 == (d.b1 != e.b1) && f.b0 == (d.b0 != e.b0)
  }

  predicate XorHalves(h: Half, k: Half, g: Half) {
    XorDigits(h.h3, k.h3, g.h3) && XorDigits(h.h2, k.h2, g.h2) && XorDigits(h.h1, k.h1, g.h1)
    && XorDigits(h.h0, k.h0, g.h0)
  }

  lemma XorBit(x: nat, y: nat, b: nat, q: nat, e: nat, t: nat, d: nat)
    requires b < 2 && e < 2 && x == b + 2 * q && y == e + 2 * t && d == (if b != e then 1 else 0)
    ensures Xor(x, y) == d + 2 * Xor(q, t)
  {
    assert x % 2 == b && x / 2 == q && y % 2 == e && y / 2 == t;
    XorStep(x, y);
  }

  lemma XorFourBits(x: nat, y: nat, q: nat, t: nat, b3: nat, b2: nat, b1: nat, b0: nat, e3: nat, e2: nat, e1: nat,
                    e0: nat, f3: nat, f2: nat, f1: nat, f0: nat)
    requires b3 < 2 && b2 < 2 && b1 < 2 && b0 < 2 && e3 < 2 && e2 < 2 && e1 < 2 && e0 < 2
    requires x == b0 + 2 * b1 + 4 * b2 + 8 * b3 + 16 * q && y == e0 + 2 * e1 + 4 * e2 + 8 * e3 + 16 * t
    requires f3 == (if b3 != e3 then 1 else 0) && f2 == (if b2 != e2 then 1 else 0)
    requires f1 == (if b1 != e1 then 1 else 0) && f0 == (if b0 != e0 then 1 else 0)
    ensures Xor(x, y) == f0 + 2 * f1 + 4 * f2 + 8 * f3 + 16 * Xor(q, t)
  {
    var x3, y3 := b3 + 2 * q, e3 + 2 * t;
    var x2, y2 := b2 + 2 * x3, e2 + 2 * y3;
    var x1, y1 := b1 + 2 * x2, e1 + 2 * y2;
    XorBit(x3, y3, b3, q, e3, t, f3);
    XorBit(x2, y2, b2, x3, e2, y3, f2);
    XorBit(x1, y1, b1, x2, e1, y2, f1);
    XorBit(x, y, b0, x1, e0, y1, f0);
  }

  lemma XorLowDigit(x: nat, y: nat, d: Digit, q: nat, e: Digit, t: nat, f: Digit)
    requires x == d.v + 16 * q && y == e.v + 16 * t && d.Valid() && e.Valid() && f.Valid() && XorDigits(d, e, f)
    ensures Xor(x, y) == f.v + 16 * Xor(q, t)
  {
    XorFourBits(x, y, q, t, Num(d.b3), Num(d.b2), Num(d.b1), Num(d.b0), Num(e.b3), Num(e.b2), Num(e.b1), Num(e.b0),
                Num(f.b3), Num(f.b2), Num(f.b1), Num(f.b0));
  }

  lemma XorLowHalf(x: nat, y: nat, h: Half, k: Half, g: Half, q: nat, t: nat)
    requires h.Valid() && k.Valid() && g.Valid() && XorHalves(h, k, g)
    requires x == h.Value() + 0x1_0000 * q && y == k.Value() + 0x1_0000 * t
    ensures Xor(x, y) == g.Value() + 0x1_0000 * Xor(q, t)
  {
    var x3, y3 := h.h3.v + 16 * q, k.h3.v + 16 * t;
    var x2, y2 := h.h2.v + 16 * x3, k.h2.v + 16 * y3;
    var x1, y1 := h.h1.v + 16 * x2, k.h1.v + 16 * y2;
    XorLowDigit(x3, y3, h.h3, q, k.h3, t, g.h3);
    XorLowDigit(x2, y2, h.h2, x3, k.h2, y3, g.h2);
    XorLowDigit(x1, y1, h.h1, x2, k.h1, y2, g.h1);
    XorLowDigit(x, y, h.h0, x1, k.h0, y1, g.h0);
  }

  lemma XorOfHex(h: Hex, k: Hex, g: Hex)
    requires h.Valid() && k.Valid() && g.Valid() && XorHalves(h.hi, k.hi, g.hi) && XorHalves(h.lo, k.lo, g.lo)
    ensures Xor(h.Value(), k.Value()) == g.Value()
  {
    XorLowHalf(h.hi.Value(), k.hi.Value(), h.hi, k.hi, g.hi, 0, 0);
    XorLowHalf(h.Value(), k.Value(), h.lo, k.lo, g.lo, h.hi.Value(), k.hi.Value());
  }

  /** Round `n`, when `h` are the digits of the difference, `k` those of the shifted word and `g` those of the
      result. */
  lemma KnownStep(n: nat, t: Triple, h: Hex, k: Hex, g: Hex)
    requires h.Valid() && k.Valid() && g.Valid() && XorHalves(h.hi, k.hi, g.hi) && XorHalves(h.lo, k.lo, g.lo)
    requires h.Value() == (t.a - t.b - t.c) % WORD && k.Value() == Shifted(n, t.c)
    ensures g.Value() < WORD && Step(n, t) == Triple(t.b, t.c, g.Value())
  {
    XorOfHex(h, k, g);
    RoundIs(t.a, t.b, t.c, Shifted(n, t.c));
  }

  lemma Known0(t: Triple)
    requires t == Triple(0, 0, 0x2000)
    ensures Step(0, t) == Triple(0, 0x2000, 0xffff_e001)
  {
    KnownStep(0, t,
              Hex(Half(DF, DF, DF, DF), Half(DE, D0, D0, D0)),
              Hex(Half(D0, D0, D0, D0), Half(D0, D0, D0, D1)),
              Hex(Half(DF, DF, DF, DF), Half(DE, D0, D0, D1)));
  }

  lemma Known1(t: Triple)
    requires t == Triple(0, 0x2000, 0xffff_e001)
    ensures Step(1, t) == Triple(0x2000, 0xffff_e001, 0x1f_feff)
  {
    KnownStep(1, t,
              Hex(Half(DF, DF, DF, DF), Half(DF, DF, DF, DF)),
              Hex(Half(DF, DF, DE, D0), Half(D0, D1, D0, D0)),
              Hex(Half(D0, D0, D1, DF), Half(DF, DE, DF, DF)));
  }

  lemma Known2(t: Triple)
    requires t == Triple(0x2000, 0xffff_e001, 0x1f_feff)
    ensures Step(2, t) == Triple(0xffff_e001, 0x1f_feff, 0xffe0_41ff)
  {
    KnownStep(2, t,
              Hex(Half(DF, DF, DE, D0), Half(D4, D1, D0, D0)),
              Hex(Half(D0, D0, D0, D0), Half(D0, D0, DF, DF)),
              Hex(Half(DF, DF, DE, D0), Half(D4, D1, DF, DF)));
  }

  lemma Known3(t: Triple)
    requires t == Triple(0xffff_e001, 0x1f_feff, 0xffe0_41ff)
    ensures Step(3, t) == Triple(0x1f_feff, 0xffe0_41ff, 0xfff0_6107)
  {
    KnownStep(3, t,
              Hex(Half(DF, DF, DF, DF), Half(D9, DF, D0, D3)),
              Hex(Half(D0, D0, D0, DF), Half(DF, DE, D0, D4)),
              Hex(Half(DF, DF, DF, D0), Half(D6, D1, D0, D7)));
  }

  lemma Known4(t: Triple)
    requires t == Triple(0x1f_feff, 0xffe0_41ff, 0xfff0_6107)
    ensures Step(4, t) == Triple(0xffe0_41ff, 0xfff0_6107, 0x6148_5bf9)
  {
    KnownStep(4, t,
              Hex(Half(D0, D0, D4, DF), Half(D5, DB, DF, D9)),
              Hex(Half(D6, D1, D0, D7), Half(D0, D0, D0, D0)),
              Hex(Half(D6, D1, D4, D8), Half(D5, DB, DF, D9)));
  }

  lemma Known5(t: Triple)
    requires t == Triple(0xffe0_41ff, 0xfff0_6107, 0x6148_5bf9)
    ensures Step(5, t) == Triple(0xfff0_6107, 0x6148_5bf9, 0x9dad_c620)
  {
    KnownStep(5, t,
              Hex(Half(D9, DE, DA, D7), Half(D8, D4, DF, DF)),
              Hex(Half(D0, D3, D0, DA), Half(D4, D2, DD, DF)),
              Hex(Half(D9, DD, DA, DD), Half(DC, D6, D2, D0)));
  }

  lemma Known6(t: Triple)
    requires t == Triple(0xfff0_6107, 0x6148_5bf9, 0x9dad_c620)
    ensures Step(6, t) == Triple(0x6148_5bf9, 0x9dad_c620, 0x134f_862a)
  {
    KnownStep(6, t,
              Hex(Half(D0, D0, DF, DA), Half(D3, DE, DE, DE)),
              Hex(Half(D1, D3, DB, D5), Half(DB, D8, DC, D4)),
              Hex(Half(D1, D3, D4, DF), Half(D8, D6, D2, DA)));
  }

  lemma Known7(t: Triple)
    requires t == Triple(0x6148_5bf9, 0x9dad_c620, 0x134f_862a)
    ensures Step(7, t) == Triple(0x9dad_c620, 0x134f_862a, 0x8e53_a7af)
  {
    KnownStep(7, t,
              Hex(Half(DB, D0, D4, DB), Half(D0, DF, DA, DF)),
              Hex(Half(D3, DE, D1, D8), Half(DA, D8, D0, D0)),
              Hex(Half(D8, DE, D5, D3), Half(DA, D7, DA, DF)));
  }

  lemma Known8(t: Triple)
    requires t == Triple(0x9dad_c620, 0x134f_862a, 0x8e53_a7af)
    ensures Step(8, t) == Triple(0x134f_862a, 0x8e53_a7af, 0xfc0b_84e0)
  {
    KnownStep(8, t,
              Hex(Half(DF, DC, D0, DA), Half(D9, D8, D4, D7)),
              Hex(Half(D0, D0, D0, D1), Half(D1, DC, DA, D7)),
              Hex(Half(DF, DC, D0, DB), Half(D8, D4, DE, D0)));
  }

  /** The mix of 0, 0 and 0x2000. Every one of the nine shifts changes a word on the way. */
  lemma KnownAnswer(t: Triple)
    requires t == Triple(0, 0, 0x2000)
    ensures Mix(t) == Triple(0x134f_862a, 0x8e53_a7af, 0xfc0b_84e0)
  {
    var t1 := Steps(0, t);
    var t2 := Steps(3, t1);
    Known0(t);
    Known1(Step(0, t));
    Known2(Step(1, Step(0, t)));
    Known3(t1);
    Known4(Step(3, t1));
    Known5(Step(4, Step(3, t1)));
    Known6(t2);
    Known7(Step(6, t2));
    Known8(Step(7, Step(6, t2)));
  }
}
