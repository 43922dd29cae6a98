/** Random bit strings with an exact number of set bits (src/debug/utils.cpp).
    The words that the random generator returns are parameters. */
module DebugBits {
  import opened Words
  import opened BitCount
  import opened BitString

  const TOP_BIT: nat := 0x8000_0000

  /** The mask that selects position `k - 1`, walking down: zero once below position 0. */
  function MaskBelow(k: nat): nat {
    if k == 0 then 0 else Pow2(k - 1)
  }

  /** The mask that selects position `k`, walking up: zero once beyond position 31. */
  function MaskAt(k: nat): nat {
    if k < 32 then Pow2(k) else 0
  }

  lemma MaskSteps(k: nat)
    requires k <= 32
    ensures k > 0 ==> MaskBelow(k) / 2 == MaskBelow(k - 1) && MaskBelow(k) != 0
    ensures k < 32 ==> MaskAt(k) * 2 % WORD == MaskAt(k + 1) && MaskAt(k) != 0
    ensures MaskBelow(32) == TOP_BIT && MaskAt(0) == 1
  {
    Pow2Of32();
    if k < 31 {
      Pow2Monotone(k + 1, 32);
    }
  }

  /** `y` is `x` with the bits of the positions in `[lo, hi)` all equal to `b`. */
  ghost predicate Overwritten(x: nat, y: nat, lo: nat, hi: nat, b: bool) {
    forall j :: 0 <= j < 32 ==> (Bit(y, j) <==> if lo <= j < hi then b else Bit(x, j))
  }

  /** Clearing or setting the bit next to an overwritten range widens the range; so does leaving
      it alone when it already has that value. */
  lemma Widen(x: Word, y: Word, k: nat, b: bool)
    requires k < 32
    ensures Pow2(k) < WORD && And(y, Pow2(k)) == (if Bit(y, k) then Pow2(k) else 0)
    ensures var z := if b then Or(y, Pow2(k)) else And(y, Not32(Pow2(k)));
            && z < WORD
            && Count(z) == Count(y) + (if b then 1 else 0) - (if Bit(y, k) then 1 else 0)
            && (forall lo :: 0 <= lo <= k && Overwritten(x, y, lo, k, b) ==> Overwritten(x, z, lo, k + 1, b))
            && (forall hi :: k < hi <= 32 && Overwritten(x, y, k + 1, hi, b) ==> Overwritten(x, z, k, hi, b))
            && (Bit(y, k) == b ==>
                forall lo :: 0 <= lo <= k && Overwritten(x, y, lo, k, b) ==> Overwritten(x, y, lo, k + 1, b))
            && (Bit(y, k) == b ==>
                forall hi :: k < hi <= 32 && Overwritten(x, y, k + 1, hi, b) ==> Overwritten(x, y, k, hi, b))
  {
    AndPow2(y, k);
    SetAndClear(y, k);
    CountSetAndClear(y, k);
  }

  /** A word overwritten from `k` on cannot count more than `k` bits, and the lower bits are intact. */
  lemma CountOfOverwritten(x: Word, y: Word, lo: nat, hi: nat, b: bool)
    requires lo <= hi <= 32 && Overwritten(x, y, lo, hi, b)
    ensures hi == 32 && !b ==> Count(y) == Ones(x, lo) <= lo
    ensures lo == 0 && hi == 32 && b ==> Count(y) == 32
    ensures lo == hi ==> Count(y) == Count(x)
  {
    if hi == 32 && !b {
      OnesAgree(x, y, lo);
      OnesTail(y, lo, 32);
      OnesMonotone(x, 0, lo);
    }
    if lo == 0 && hi == 32 && b {
      OnesAll(y, 32, true);
    }
    if lo == hi {
      OnesAgree(x, y, 32);
    }
  }

  lemma {:induction false} OnesTail(y: nat, lo: nat, n: nat)
    requires lo <= n && forall j :: lo <= j < n ==> !Bit(y, j)
    ensures Ones(y, n) == Ones(y, lo)
  {
    if lo < n {
      OnesTail(y, lo, n - 1);
    }
  }

  lemma {:induction false} OnesSteps(x: nat, j: nat, n: nat)
    requires j < n
    ensures Ones(x, j) <= Ones(x, n) && j - Ones(x, j) <= n - Ones(x, n)
    ensures if Bit(x, j) then Ones(x, j) < Ones(x, n) else j - Ones(x, j) < n - Ones(x, n)
    decreases n
  {
    if j < n - 1 {
      OnesSteps(x, j, n - 1);
    }
  }

  /** Cleared from `k` on: the lowest set bits are left. */
  lemma LowestKept(x: Word, y: Word, k: nat)
    requires k <= 32 && Overwritten(x, y, k, 32, false)
    ensures forall j :: 0 <= j < 32 ==> (Bit(y, j) <==> Bit(x, j) && Ones(x, j) < Count(y))
  {
    CountOfOverwritten(x, y, k, 32, false);
    forall j | 0 <= j < 32
      ensures Bit(y, j) <==> Bit(x, j) && Ones(x, j) < Count(y)
    {
      if j < k {
        OnesSteps(x, j, k);
      } else if k < j {
        OnesSteps(x, k, j);
      }
    }
  }

  lemma {:induction false} OnesFilled(x: Word, y: Word, k: nat, n: nat)
    requires n <= 32 && k <= 32 && Overwritten(x, y, 0, k, true)
    ensures Ones(y, n) == if n <= k then n else Ones(x, n) + (k - Ones(x, k))
  {
    if n > 0 {
      OnesFilled(x, y, k, n - 1);
    }
  }

  lemma FilledCount(x: Word, y: Word, k: nat, n: nat)
    requires n == 32 && k <= 32 && Overwritten(x, y, 0, k, true)
    ensures Ones(y, n) == Ones(x, n) + (k - Ones(x, k))
  {
    OnesFilled(x, y, k, n);
  }

  /** Set below `k`: the lowest unset bits are added. */
  lemma LowestFilled(x: Word, y: Word, k: nat)
    requires k <= 32 && Overwritten(x, y, 0, k, true)
    ensures forall j :: 0 <= j < 32 ==> (Bit(y, j) <==> Bit(x, j) || j - Ones(x, j) < Count(y) - Count(x))
  {
    FilledCount(x, y, k, 32);
    forall j | 0 <= j < 32
      ensures Bit(y, j) <==> Bit(x, j) || j - Ones(x, j) < Count(y) - Count(x)
    {
      if j < k {
        OnesSteps(x, j, k);
      } else if k < j {
        OnesSteps(x, k, j);
      }
    }
  }

  // ---- what debug_generateBits draws ----

  /** The position is set in the random words, or it is the first of its word and `bit1` asks for it. */
  predicate Wanted(rand: seq<Word>, bit1: bool, p: nat)
    requires p < 32 * |rand|
  {
    Bit(rand[p / 32], p % 32) || (bit1 && p % 32 == 0)
  }

  /** How many positions below `p` are wanted. */
  function WantedBelow(rand: seq<Word>, bit1: bool, p: nat): nat
    requires p <= 32 * |rand|
  {
    if p == 0 then 0 else WantedBelow(rand, bit1, p - 1) + if Wanted(rand, bit1, p - 1) then 1 else 0
  }

  /** The first `nbits` wanted positions, below position `end`. */
  ghost predicate Chosen(rand: seq<Word>, bit1: bool, nbits: nat, t: seq<Word>, end: nat)
    requires |t| == |rand| && end <= 32 * |rand|
  {
    forall p {:trigger BitAt(t, p)} :: 0 <= p < end ==>
      (BitAt(t, p) <==> Wanted(rand, bit1, p) && WantedBelow(rand, bit1, p) < nbits)
  }

  /** The first `nbits` wanted positions; if there are fewer, all of them, and the first others. */
  ghost predicate Drawn(rand: seq<Word>, bit1: bool, nbits: nat, t: seq<Word>) {
    && |t| == |rand|
    && forall p :: 0 <= p < 32 * |rand| ==>
         (BitAt(t, p) <==>
            if Wanted(rand, bit1, p) then WantedBelow(rand, bit1, p) < nbits
            else WantedBelow(rand, bit1, 32 * |rand|) + (p - WantedBelow(rand, bit1, p)) < nbits)
  }

  lemma {:induction false} WantedSteps(rand: seq<Word>, bit1: bool, p: nat, q: nat)
    requires p <= q <= 32 * |rand|
    ensures WantedBelow(rand, bit1, p) <= WantedBelow(rand, bit1, q) <= WantedBelow(rand, bit1, p) + (q - p)
    ensures p < q && Wanted(rand, bit1, p) ==> WantedBelow(rand, bit1, p) < WantedBelow(rand, bit1, q)
    decreases q
  {
    if p < q {
      WantedSteps(rand, bit1, p, q - 1);
    }
  }

  /** Inside a word: `x` is the random word, with its first bit set if `bit1` asks for it. */
  lemma {:induction false} WantedInWord(rand: seq<Word>, bit1: bool, i: nat, x: Word, k: nat)
    requires i < |rand| && k <= 32
    requires forall j :: 0 <= j < 32 ==> (Bit(x, j) <==> Bit(rand[i], j) || (bit1 && j == 0))
    ensures WantedBelow(rand, bit1, 32 * i + k) == WantedBelow(rand, bit1, 32 * i) + Ones(x, k)
    ensures forall j :: 0 <= j < k ==> (Wanted(rand, bit1, 32 * i + j) <==> Bit(x, j))
  {
    if k > 0 {
      WantedInWord(rand, bit1, i, x, k - 1);
      assert (32 * i + k - 1) / 32 == i && (32 * i + k - 1) % 32 == k - 1;
    }
  }

  lemma WantedWord(rand: seq<Word>, bit1: bool, i: nat, x: Word, n: nat)
    requires i < |rand| && n == 32
    requires forall j :: 0 <= j < 32 ==> (Bit(x, j) <==> Bit(rand[i], j) || (bit1 && j == 0))
    ensures WantedBelow(rand, bit1, 32 * (i + 1)) == WantedBelow(rand, bit1, 32 * i) + Ones(x, n)
    ensures forall j :: 0 <= j < 32 ==> (Wanted(rand, bit1, 32 * i + j) <==> Bit(x, j))
    ensures forall j :: 0 <= j < 32 ==>
              WantedBelow(rand, bit1, 32 * i + j) == WantedBelow(rand, bit1, 32 * i) + Ones(x, j)
  {
    WantedInWord(rand, bit1, i, x, n);
    forall j | 0 <= j < 32
      ensures WantedBelow(rand, bit1, 32 * i + j) == WantedBelow(rand, bit1, 32 * i) + Ones(x, j)
    {
      WantedInWord(rand, bit1, i, x, j);
    }
  }

  /** Word `i` of the first pass: `y` are the lowest `nbits` set bits of `x`, and `t` is the string so far with that
      word written. */
  lemma ChooseWord(rand: seq<Word>, bit1: bool, nbits0: nat, s: seq<Word>, i: nat, x: Word, y: Word, nbits: nat)
    requires |s| == |rand| && i < |rand| && Chosen(rand, bit1, nbits0, s, 32 * i)
    requires forall j :: 0 <= j < 32 ==> (Bit(x, j) <==> Bit(rand[i], j) || (bit1 && j == 0))
    requires forall j :: 0 <= j < 32 ==> (Bit(y, j) <==> Bit(x, j) && Ones(x, j) < nbits)
    requires nbits == Missing(rand, bit1, nbits0, i)
    ensures Chosen(rand, bit1, nbits0, s[i := y], 32 * (i + 1))
  {
    ChosenInWord(rand, bit1, nbits0, i, x, y, nbits);
    forall p | 0 <= p < 32 * (i + 1)
      ensures BitAt(s[i := y], p) <==> Wanted(rand, bit1, p) && WantedBelow(rand, bit1, p) < nbits0
    {
      if p >= 32 * i {
        var j := p - 32 * i;
        assert p / 32 == i && p % 32 == j && p == 32 * i + j;
      } else {
        assert p / 32 < i && (BitAt(s[i := y], p) <==> BitAt(s, p));
      }
    }
  }

  lemma ChosenInWord(rand: seq<Word>, bit1: bool, nbits0: nat, i: nat, x: Word, y: Word, nbits: nat)
    requires i < |rand| && nbits == Missing(rand, bit1, nbits0, i)
    requires forall j :: 0 <= j < 32 ==> (Bit(x, j) <==> Bit(rand[i], j) || (bit1 && j == 0))
    requires forall j :: 0 <= j < 32 ==> (Bit(y, j) <==> Bit(x, j) && Ones(x, j) < nbits)
    ensures forall j :: 0 <= j < 32 ==>
              (Bit(y, j) <==> Wanted(rand, bit1, 32 * i + j) && WantedBelow(rand, bit1, 32 * i + j) < nbits0)
  {
    WantedWord(rand, bit1, i, x, 32);
  }

  // ---- debug_generateBits ----

  /** Too many bits: clears the `nbResets` highest set bits. */
  method TrimWord(x0: Word, nbResets0: nat) returns (x: Word)
    requires nbResets0 <= Count(x0)
    ensures Count(x) == Count(x0) - nbResets0
    ensures exists k :: 0 <= k <= 32 && Overwritten(x0, x, k, 32, false)
    ensures forall j :: 0 <= j < 32 ==> (Bit(x, j) <==> Bit(x0, j) && Ones(x0, j) < Count(x0) - nbResets0)
  {
    x := x0;
    var nbResets: nat, mask: nat := nbResets0, TOP_BIT;
    ghost var k: nat := 32;
    MaskSteps(32);
    while nbResets != 0
      invariant k <= 32 && mask == MaskBelow(k) && nbResets <= nbResets0
      invariant Overwritten(x0, x, k, 32, false)
      invariant Count(x) == Count(x0) - nbResets0 + nbResets
      decreases k
    {
      CountOfOverwritten(x0, x, k, 32, false);
      MaskSteps(k);
      Widen(x0, x, k - 1, false);
      if And(x, mask) != 0 {
        nbResets := nbResets - 1;
      }
      x := And(x, Not32(mask));
      mask := mask / 2;
      k := k - 1;
    }
    LowestKept(x0, x, k);
  }

  /** Bits are missing: sets the lowest unset bits until enough are set or the word is full. */
  method FillWord(x0: Word, nbits0: nat) returns (x: Word, nbits: nat)
    ensures Count(x) + nbits == Count(x0) + nbits0 && nbits <= nbits0
    ensures nbits > 0 ==> Count(x) == 32
    ensures exists k :: 0 <= k <= 32 && Overwritten(x0, x, 0, k, true)
    ensures forall j :: 0 <= j < 32 ==> (Bit(x, j) <==> Bit(x0, j) || j - Ones(x0, j) < nbits0 - nbits)
  {
    x, nbits := x0, nbits0;
    var mask: nat := 1;
    ghost var k: nat := 0;
    MaskSteps(0);
    while mask != 0 && nbits != 0
      invariant k <= 32 && mask == MaskAt(k)
      invariant Overwritten(x0, x, 0, k, true)
      invariant Count(x) + nbits == Count(x0) + nbits0 && nbits <= nbits0
      decreases 32 - k
    {
      MaskSteps(k);
      Widen(x0, x, k, true);
      if And(x, mask) == 0 {
        x := Or(x, mask);
        nbits := nbits - 1;
      }
      mask := mask * 2 % WORD;
      k := k + 1;
    }
    if nbits > 0 {
      if k < 32 {
        MaskSteps(k);
      }
      CountOfOverwritten(x0, x, 0, 32, true);
    }
    LowestFilled(x0, x, k);
  }

  /** debug_generateBits: exactly `nbits` set bits whatever the random words are. `rand` holds what the generator
      returns, in order; which bits are set follows from it, as `Drawn` says. */
  method GenerateBits(bits: array<Word>, nbits0: nat, bit1: bool, rand: seq<Word>)
    requires nbits0 <= 32 * bits.Length && |rand| == bits.Length
    modifies bits
    ensures Total(bits[..]) == nbits0 && Drawn(rand, bit1, nbits0, bits[..])
    ensures bit1 && nbits0 > 0 ==> BitAt(bits[..], 0)
  {
    if nbits0 == 0 {
      ResetBits(bits);
      NothingDrawn(rand, bit1, bits[..]);
      return;
    }
    var nbits := FirstPass(bits, nbits0, bit1, rand);
    ghost var first, missing := bits[..], nbits;
    nbits := SecondPass(bits, nbits, nbits0);
    BothPasses(rand, bit1, nbits0, first, missing, bits[..]);
  }

  lemma NothingDrawn(rand: seq<Word>, bit1: bool, t: seq<Word>)
    requires |t| == |rand| && forall i :: 0 <= i < |t| ==> t[i] == 0
    ensures Drawn(rand, bit1, 0, t)
  {
    forall p | 0 <= p < 32 * |rand|
      ensures !BitAt(t, p) && WantedBelow(rand, bit1, p) <= p
    {
      BitOfZero(p % 32);
      WantedSteps(rand, bit1, 0, p);
    }
  }

  /** While not enough bits are wanted, those of the first pass are the wanted ones. */
  lemma {:induction false} AllChosen(rand: seq<Word>, bit1: bool, nbits: nat, t: seq<Word>, p: nat)
    requires |t| == |rand| && Chosen(rand, bit1, nbits, t, 32 * |rand|) && p <= 32 * |rand|
    requires WantedBelow(rand, bit1, 32 * |rand|) < nbits
    ensures Rank(t, p) == WantedBelow(rand, bit1, p)
  {
    if p > 0 {
      AllChosen(rand, bit1, nbits, t, p - 1);
      WantedSteps(rand, bit1, p - 1, 32 * |rand|);
    }
  }

  lemma BothPasses(rand: seq<Word>, bit1: bool, nbits: nat, s: seq<Word>, missing: nat, t: seq<Word>)
    requires |s| == |t| == |rand| > 0 && nbits > 0 && Chosen(rand, bit1, nbits, s, 32 * |rand|)
    requires Total(s) + missing == nbits && Filled(s, t, missing)
    requires Total(s) == if WantedBelow(rand, bit1, 32 * |s|) < nbits then WantedBelow(rand, bit1, 32 * |s|) else nbits
    ensures Drawn(rand, bit1, nbits, t) && (bit1 ==> BitAt(t, 0))
  {
    forall p | 0 <= p < 32 * |rand|
      ensures BitAt(t, p) <==>
                if Wanted(rand, bit1, p) then WantedBelow(rand, bit1, p) < nbits
                else WantedBelow(rand, bit1, 32 * |rand|) + (p - WantedBelow(rand, bit1, p)) < nbits
    {
      WantedSteps(rand, bit1, p, 32 * |rand|);
      WantedSteps(rand, bit1, 0, p);
      RankMonotone(s, 0, p);
      if missing > 0 {
        AllChosen(rand, bit1, nbits, s, p);
      }
    }
  }

  /** If exactly `nbits` positions are wanted, these are the result: the random words themselves. */
  lemma DrawnExactly(rand: seq<Word>, bit1: bool, nbits: nat, t: seq<Word>)
    requires Drawn(rand, bit1, nbits, t) && WantedBelow(rand, bit1, 32 * |rand|) == nbits
    ensures forall i, k :: 0 <= i < |rand| && 0 <= k < 32 ==> (Bit(t[i], k) <==> Bit(rand[i], k) || (bit1 && k == 0))
  {
    forall i, k | 0 <= i < |rand| && 0 <= k < 32
      ensures Bit(t[i], k) <==> Bit(rand[i], k) || (bit1 && k == 0)
    {
      var p := 32 * i + k;
      assert p / 32 == i && p % 32 == k;
      WantedSteps(rand, bit1, p, 32 * |rand|);
      WantedSteps(rand, bit1, 0, p);
    }
  }

  /** base_resetBits. */
  method ResetBits(bits: array<Word>)
    modifies bits
    ensures forall i :: 0 <= i < bits.Length ==> bits[i] == 0
    ensures Total(bits[..]) == 0
  {
    for i := 0 to bits.Length
      invariant forall j :: 0 <= j < i ==> bits[j] == 0
    {
      bits[i] := 0;
    }
    forall p | 0 <= p < 32 * bits.Length
      ensures !BitAt(bits[..], p)
    {
      BitOfZero(p % 32);
    }
    RankStretch(bits[..], 0, 32 * bits.Length, false);
  }

  /** First loop of debug_generateBits: random words, trimmed once too many bits are set.
      Returns how many bits are still missing. */
  method FirstPass(bits: array<Word>, nbits0: nat, bit1: bool, rand: seq<Word>) returns (nbits: nat)
    requires 0 < nbits0 <= 32 * bits.Length && |rand| == bits.Length
    modifies bits
    ensures Total(bits[..]) + nbits == nbits0 && Chosen(rand, bit1, nbits0, bits[..], 32 * bits.Length)
    ensures nbits == if WantedBelow(rand, bit1, 32 * |rand|) < nbits0 then nbits0 - WantedBelow(rand, bit1, 32 * |rand|)
                     else 0
  {
    nbits := nbits0;
    for i := 0 to bits.Length
      invariant Rank(bits[..], 32 * i) + nbits == nbits0 && Chosen(rand, bit1, nbits0, bits[..], 32 * i) == true
      invariant nbits == Missing(rand, bit1, nbits0, i)
    {
      nbits := DrawAt(bits, nbits0, bit1, rand, i, nbits);
    }
  }

  /** One iteration of the first loop. */
  method DrawAt(bits: array<Word>, ghost nbits0: nat, bit1: bool, rand: seq<Word>, i: nat, nbits: nat)
    returns (rest: nat)
    requires |rand| == bits.Length && i < bits.Length
    requires Chosen(rand, bit1, nbits0, bits[..], 32 * i) && nbits == Missing(rand, bit1, nbits0, i)
    modifies bits
    ensures Chosen(rand, bit1, nbits0, bits[..], 32 * (i + 1)) && rest == Missing(rand, bit1, nbits0, i + 1)
    ensures Rank(bits[..], 32 * (i + 1)) + rest == Rank(old(bits[..]), 32 * i) + nbits
  {
    var y, n := DrawWord(rand[i], bit1, nbits);
    ghost var before, x := bits[..], RandomWord(rand[i], bit1);
    bits[i] := y;
    assert bits[..] == before[i := y];
    RankUpdate(before, i, y, i);
    RankNextWord(bits[..], i);
    ChooseWord(rand, bit1, nbits0, before, i, x, y, nbits);
    WantedNext(rand, bit1, i, x);
    rest := nbits - n;
  }

  /** What the first pass still has to set at word `i`. */
  ghost function Missing(rand: seq<Word>, bit1: bool, nbits: nat, i: nat): nat
    requires i <= |rand|
  {
    var w := WantedBelow(rand, bit1, 32 * i);
    if w < nbits then nbits - w else 0
  }

  lemma WantedNext(rand: seq<Word>, bit1: bool, i: nat, x: Word)
    requires i < |rand|
    requires forall j :: 0 <= j < 32 ==> (Bit(x, j) <==> Bit(rand[i], j) || (bit1 && j == 0))
    ensures WantedBelow(rand, bit1, 32 * (i + 1)) == WantedBelow(rand, bit1, 32 * i) + Count(x)
  {
    WantedWord(rand, bit1, i, x, 32);
  }

  /** One iteration: the word to write, and how many bits it has. */
  method DrawWord(r: Word, bit1: bool, nbits: nat) returns (x: Word, n: nat)
    ensures n == Count(x) == if Count(RandomWord(r, bit1)) < nbits then Count(RandomWord(r, bit1)) else nbits
    ensures forall j :: 0 <= j < 32 ==>
              (Bit(x, j) <==> Bit(RandomWord(r, bit1), j) && Ones(RandomWord(r, bit1), j) < nbits)
  {
    x := RandomWord(r, bit1);
    n := BaseCountBits(x);
    if n > nbits {
      x := TrimWord(x, n - nbits);
      n := nbits;
    } else {
      forall j | 0 <= j < 32 && Bit(x, j)
        ensures Ones(x, j) < nbits
      {
        OnesSteps(x, j, 32);
      }
    }
  }

  /** RAND() | bit1. */
  function RandomWord(r: Word, bit1: bool): (x: Word)
    ensures forall j :: 0 <= j < 32 ==> (Bit(x, j) <==> Bit(r, j) || (bit1 && j == 0))
  {
    var m := if bit1 then 1 else 0;
    OrFirst(r, m);
    Pow2Of32();
    OrBound(r, m, 32);
    Or(r, m)
  }

  lemma OrFirst(r: Word, m: Word)
    requires m < 2
    ensures forall j :: 0 <= j < 32 ==> (Bit(Or(r, m), j) <==> Bit(r, j) || (m == 1 && j == 0))
  {
    forall j | 0 <= j < 32
      ensures Bit(Or(r, m), j) <==> Bit(r, j) || (m == 1 && j == 0)
    {
      BitOfOr(r, m, j);
      BitOfZero(j);
      BitOfPow2(0, j);
    }
  }

  /** `t` is `s` with the first `n` unset positions set. */
  ghost predicate Filled(s: seq<Word>, t: seq<Word>, n: nat) {
    && |t| == |s|
    && forall p {:trigger BitAt(t, p)} :: 0 <= p < 32 * |s| ==> (BitAt(t, p) <==> BitAt(s, p) || p - Rank(s, p) < n)
  }

  /** The second loop up to word `i`, when `left` of `n` positions are still to be set. */
  ghost predicate FilledTo(s: seq<Word>, t: seq<Word>, n: nat, left: nat, i: nat) {
    && |t| == |s| && i <= |s| && left <= n
    && (forall p {:trigger BitAt(t, p)} :: 0 <= p < 32 * i ==> (BitAt(t, p) <==> BitAt(s, p) || p - Rank(s, p) < n))
    && (forall j :: i <= j < |s| ==> t[j] == s[j])
    && (if left > 0 then n - left == 32 * i - Rank(s, 32 * i) else n <= 32 * i - Rank(s, 32 * i))
  }

  lemma RanksInWord(s: seq<Word>, i: nat)
    requires i < |s|
    ensures forall j :: 0 <= j < 32 ==> Rank(s, 32 * i + j) == Rank(s, 32 * i) + Ones(s[i], j)
  {
    forall j | 0 <= j < 32
      ensures Rank(s, 32 * i + j) == Rank(s, 32 * i) + Ones(s[i], j)
    {
      RankInWord(s, i, j);
    }
  }

  /** The bits of the word that is filled, in the string. */
  lemma FilledWord(s: seq<Word>, n: nat, left: nat, i: nat, x: Word, rest: nat)
    requires i < |s| && rest <= left <= n && n - left == 32 * i - Rank(s, 32 * i)
    requires forall j :: 0 <= j < 32 ==> (Bit(x, j) <==> Bit(s[i], j) || j - Ones(s[i], j) < left - rest)
    requires rest > 0 ==> Count(x) == 32
    ensures forall j :: 0 <= j < 32 ==>
              (Bit(x, j) <==> Bit(s[i], j) || 32 * i + j - Rank(s, 32 * i + j) < n)
  {
    RanksInWord(s, i);
    if rest > 0 {
      FullWord(x);
    }
  }

  lemma FillWordAt(s: seq<Word>, t: seq<Word>, n: nat, left: nat, i: nat, x: Word, rest: nat)
    requires FilledTo(s, t, n, left, i) && left > 0 && i < |s| && rest <= left
    requires forall j :: 0 <= j < 32 ==> (Bit(x, j) <==> Bit(s[i], j) || j - Ones(s[i], j) < left - rest)
    requires Count(x) + rest == Count(s[i]) + left && (rest > 0 ==> Count(x) == 32)
    ensures FilledTo(s, t[i := x], n, rest, i + 1)
  {
    RankNextWord(s, i);
    CountBound(x);
    FilledWord(s, n, left, i, x, rest);
    FilledMore(s, t, n, i, x);
  }

  lemma FilledMore(s: seq<Word>, t: seq<Word>, n: nat, i: nat, x: Word)
    requires |t| == |s| && i < |s|
    requires forall p {:trigger BitAt(t, p)} :: 0 <= p < 32 * i ==> (BitAt(t, p) <==> BitAt(s, p) || p - Rank(s, p) < n)
    requires forall j :: 0 <= j < 32 ==> (Bit(x, j) <==> Bit(s[i], j) || 32 * i + j - Rank(s, 32 * i + j) < n)
    ensures forall p {:trigger BitAt(t[i := x], p)} :: 0 <= p < 32 * (i + 1) ==>
              (BitAt(t[i := x], p) <==> BitAt(s, p) || p - Rank(s, p) < n)
  {
    forall p | 0 <= p < 32 * (i + 1)
      ensures BitAt(t[i := x], p) <==> BitAt(s, p) || p - Rank(s, p) < n
    {
      if p >= 32 * i {
        var j := p - 32 * i;
        assert p / 32 == i && p % 32 == j && p == 32 * i + j;
      } else {
        assert p / 32 < i && (BitAt(t[i := x], p) <==> BitAt(t, p));
      }
    }
  }

  lemma CountBound(x: Word)
    ensures Count(x) <= 32
  {
    OnesMonotone(x, 0, 32);
  }

  lemma FullWord(x: Word)
    requires Count(x) == 32
    ensures forall j :: 0 <= j < 32 ==> Bit(x, j)
  {
    forall j | 0 <= j < 32
      ensures Bit(x, j)
    {
      OnesMonotone(x, 0, j);
      OnesMonotone(x, j + 1, 32);
    }
  }

  lemma FilledDone(s: seq<Word>, t: seq<Word>, n: nat, i: nat)
    requires FilledTo(s, t, n, 0, i)
    ensures Filled(s, t, n)
  {
    forall p | 32 * i <= p < 32 * |s|
      ensures BitAt(t, p) <==> BitAt(s, p) || p - Rank(s, p) < n
    {
      RankMonotone(s, 32 * i, p);
    }
  }

  /** One iteration of the second loop. */
  method FillNext(bits: array<Word>, ghost s: seq<Word>, ghost n: nat, left: nat, i: nat) returns (rest: nat)
    requires FilledTo(s, bits[..], n, left, i) && left > 0 && i < bits.Length
    modifies bits
    ensures Total(bits[..]) + rest == Total(old(bits[..])) + left
    ensures FilledTo(s, bits[..], n, rest, i + 1)
  {
    ghost var before := bits[..];
    var x;
    x, rest := FillWord(bits[i], left);
    bits[i] := x;
    assert bits[..] == before[i := x];
    TotalUpdate(before, i, x);
    FillWordAt(s, before, n, left, i, x, rest);
  }

  /** Second loop of debug_generateBits: sets the bits that are still missing, at the first unset positions. */
  method SecondPass(bits: array<Word>, nbits0: nat, total: nat) returns (nbits: nat)
    requires Total(bits[..]) + nbits0 == total <= 32 * bits.Length
    modifies bits
    ensures nbits == 0 && Total(bits[..]) == total && Filled(old(bits[..]), bits[..], nbits0)
  {
    nbits := nbits0;
    var i := 0;
    ghost var s := bits[..];
    NothingFilled(s, nbits0);
    while nbits > 0 && i < bits.Length
      invariant 0 <= i <= bits.Length
      invariant Total(bits[..]) + nbits == total && FilledTo(s, bits[..], nbits0, nbits, i) == true
      decreases bits.Length - i
    {
      nbits := FillNext(bits, s, nbits0, nbits, i);
      i := i + 1;
    }
    SecondDone(s, bits[..], nbits0, nbits, i);
  }

  lemma NothingFilled(s: seq<Word>, n: nat)
    ensures FilledTo(s, s, n, n, 0)
  {
  }

  lemma SecondDone(s: seq<Word>, t: seq<Word>, n: nat, left: nat, i: nat)
    requires FilledTo(s, t, n, left, i) && (left == 0 || i == |s|) && Total(s) + n <= 32 * |s|
    ensures left == 0 && Filled(s, t, n)
  {
    NothingMissing(s, t, n, left, i);
    FilledDone(s, t, n, i);
  }

  /** If bits were left over at the end, there would be more of them than positions. */
  lemma NothingMissing(s: seq<Word>, t: seq<Word>, n: nat, left: nat, i: nat)
    requires FilledTo(s, t, n, left, i) && (left == 0 || i == |s|) && Total(s) + n <= 32 * |s|
    ensures left == 0
  {
  }

  // ---- debug_fixGeneratedBits ----

  /** `t` is `s` with all positions in `[lo, hi)` equal to `b`. */
  ghost predicate Stretched(s: seq<Word>, t: seq<Word>, lo: nat, hi: nat, b: bool) {
    && |t| == |s|
    && forall p :: 0 <= p < 32 * |s| ==> (BitAt(t, p) <==> if lo <= p < hi then b else BitAt(s, p))
  }

  lemma StretchWord(s: seq<Word>, i: nat, y: Word, lo: nat, hi: nat, b: bool)
    requires i < |s| && lo <= hi <= 32 && Overwritten(s[i], y, lo, hi, b)
    ensures Stretched(s, s[i := y], 32 * i + lo, 32 * i + hi, b)
  {
    forall p | 0 <= p < 32 * |s|
      ensures BitAt(s[i := y], p) <==> if 32 * i + lo <= p < 32 * i + hi then b else BitAt(s, p)
    {
      assert p == 32 * (p / 32) + p % 32;
    }
  }

  /** What debug_fixGeneratedBits is to do: clear everything from `size` on and, to keep the count,
      set all positions of a range that ends at `size`. */
  ghost predicate Packed(s: seq<Word>, t: seq<Word>, size: nat, q: nat) {
    && |t| == |s| && q <= size
    && forall p :: 0 <= p < 32 * |s| ==> (BitAt(t, p) <==> p < size && (q <= p || BitAt(s, p)))
  }

  /** Clears the positions of one word from `o` on; returns how many were set. */
  method ClearHigh(x: Word, o: nat) returns (b: Word, nbReset: nat)
    requires o < 32
    ensures Overwritten(x, b, o, 32, false) && Count(b) + nbReset == Count(x)
  {
    var mask: nat := MaskAt(o);
    ghost var k: nat := o;
    b, nbReset := x, 0;
    while mask != 0
      invariant o <= k <= 32 && mask == MaskAt(k)
      invariant Overwritten(x, b, o, k, false) && Count(b) + nbReset == Count(x)
      decreases 32 - k
    {
      MaskSteps(k);
      Widen(x, b, k, false);
      if And(b, mask) != 0 {
        nbReset := nbReset + 1;
        b := And(b, Not32(mask));
      }
      mask := mask * 2 % WORD;
      k := k + 1;
    }
    if k < 32 {
      MaskSteps(k);
    }
  }

  /** Sets the unset positions of one word below `k0`, highest first, while bits are missing. */
  method RefillWord(x: Word, k0: nat, nbReset0: nat) returns (b: Word, nbReset: nat, ghost k: nat)
    requires k0 <= 32 && nbReset0 > 0
    ensures k <= k0 && Overwritten(x, b, k, k0, true)
    ensures Count(b) + nbReset == Count(x) + nbReset0
    ensures nbReset > 0 ==> k == 0
  {
    var mask: nat := MaskBelow(k0);
    k := k0;
    b, nbReset := x, nbReset0;
    while mask != 0
      invariant k <= k0 && mask == MaskBelow(k) && nbReset > 0
      invariant Overwritten(x, b, k, k0, true) && Count(b) + nbReset == Count(x) + nbReset0
      decreases k
    {
      MaskSteps(k);
      Widen(x, b, k - 1, true);
      k := k - 1;
      if And(b, mask) == 0 {
        b := Or(b, mask);
        nbReset := nbReset - 1;
        if nbReset == 0 {
          return;
        }
      }
      mask := mask / 2;
    }
    if k > 0 {
      MaskSteps(k);
    }
  }

  lemma StretchOn(s: seq<Word>, t: seq<Word>, u: seq<Word>, lo: nat, mid: nat, hi: nat, b: bool)
    requires Stretched(s, t, lo, mid, b) && Stretched(t, u, mid, hi, b) && lo <= mid <= hi
    ensures Stretched(s, u, lo, hi, b)
  {
  }

  /** Clears everything from position `size` on, and counts in 32 bits how many bits were set there. */
  method ClearFrom(bits: array<Word>, size: nat) returns (nbReset: nat, ghost cleared: nat)
    requires size / 32 < bits.Length
    modifies bits
    ensures Stretched(old(bits[..]), bits[..], size, 32 * bits.Length, false)
    ensures Total(bits[..]) + cleared == Total(old(bits[..])) && nbReset == cleared % WORD
  {
    var start := size / 32;
    var b;
    ghost var before := bits[..];
    b, nbReset := ClearHigh(bits[start], size % 32);
    cleared := nbReset;
    OnesMonotone(before[start], 0, 32);
    bits[start] := b;
    assert bits[..] == before[start := b];
    StretchWord(before, start, b, size % 32, 32, false);
    TotalUpdate(before, start, b);
    start := start + 1;
    while start < bits.Length
      invariant size / 32 < start <= bits.Length
      invariant Stretched(before, bits[..], size, 32 * start, false)
      invariant Total(bits[..]) + cleared == Total(before) && nbReset == cleared % WORD
    {
      var n := BaseCountBits(bits[start]);
      nbReset, cleared := (nbReset + n) % WORD, cleared + n;
      ghost var current := bits[..];
      bits[start] := 0;
      assert bits[..] == current[start := 0];
      ClearWord(current, start);
      StretchOn(before, current, bits[..], size, 32 * start, 32 * (start + 1), false);
      start := start + 1;
    }
  }

  lemma ClearWord(s: seq<Word>, i: nat)
    requires i < |s|
    ensures Stretched(s, s[i := 0], 32 * i, 32 * (i + 1), false)
    ensures Total(s) == Total(s[i := 0]) + Count(s[i])
  {
    forall j | 0 <= j < 32
      ensures !Bit(0, j)
    {
      BitOfZero(j);
    }
    OnesAll(0, 32, false);
    StretchWord(s, i, 0, 0, 32, false);
    TotalUpdate(s, i, 0);
  }

  /** Moves the cleared bits down: sets unset positions below `size`, highest first. Returns the number
      of bits that found no place. */
  method Refill(bits: array<Word>, size: nat, nbReset0: nat) returns (nbReset: nat, ghost q: nat)
    requires size / 32 < bits.Length && nbReset0 > 0
    modifies bits
    ensures q <= size && Stretched(old(bits[..]), bits[..], q, size, true)
    ensures Total(bits[..]) + nbReset == Total(old(bits[..])) + nbReset0
    ensures nbReset > 0 ==> q == 0
  {
    ghost var before := bits[..];
    var start: int, k0: nat := size / 32, size % 32;
    nbReset, q := nbReset0, size;
    while start >= 0
      invariant -1 <= start <= size / 32 && k0 <= 32 && nbReset > 0
      invariant q == 32 * start + k0 <= size
      invariant Stretched(before, bits[..], q, size, true)
      invariant Total(bits[..]) + nbReset == Total(before) + nbReset0
      decreases start + 1
    {
      var b;
      ghost var k;
      ghost var current := bits[..];
      b, nbReset, k := RefillWord(bits[start], k0, nbReset);
      bits[start] := b;
      assert bits[..] == current[start := b];
      StretchWord(current, start, b, k, k0, true);
      TotalUpdate(current, start, b);
      q := 32 * start + k;
      if nbReset == 0 {
        return;
      }
      k0 := 32;
      start := start - 1;
    }
  }

  /** The number of set bits before position `size`. */
  function Below(s: seq<Word>, size: nat): nat {
    Rank(s, if size <= 32 * |s| then size else 32 * |s|)
  }

  /** How many bits were cleared. */
  lemma ClearedCount(s: seq<Word>, t: seq<Word>, size: nat)
    requires Stretched(s, t, size, 32 * |s|, false) && size <= 32 * |s|
    ensures Total(t) == Below(s, size)
  {
    RankStretch(t, size, 32 * |t|, false);
    RankAgree(s, t, size);
  }

  /** What is left of the count when `lost` of the cleared bits find no place. */
  ghost predicate Accounted(s: seq<Word>, t: seq<Word>, size: nat, lost: nat) {
    var kept := Below(s, size) + (Total(s) - Below(s, size)) % WORD;
    && Total(t) + lost == kept && (lost == 0 <==> kept <= size)
    && (Total(t) == Total(s) <==> Total(s) <= size && Total(s) - Below(s, size) < WORD)
  }

  /** `c` is the string once cleared, `t` the string once the cleared bits have been moved down to `q`. */
  lemma MovedCount(s: seq<Word>, c: seq<Word>, t: seq<Word>, size: nat, q: nat, lost0: nat, lost: nat)
    requires size <= 32 * |s| && Stretched(s, c, size, 32 * |s|, false)
    requires q <= size && Stretched(c, t, q, size, true)
    requires lost0 == (Total(s) - Total(c)) % WORD && Total(t) + lost == Total(c) + lost0
    requires Total(c) <= Total(s) && (lost > 0 ==> q == 0)
    ensures Accounted(s, t, size, lost)
  {
    ClearedCount(s, c, size);
    RankStretch(t, size, 32 * |t|, false);
    RankMonotone(t, 0, size);
    if lost > 0 {
      RankStretch(t, 0, size, true);
    }
  }

  lemma MovedPacked(s: seq<Word>, c: seq<Word>, t: seq<Word>, size: nat, q: nat)
    requires Stretched(s, c, size, 32 * |s|, false) && q <= size && Stretched(c, t, q, size, true)
    ensures Packed(s, t, size, q)
  {
  }

  lemma ShortString(s: seq<Word>, size: nat)
    requires 32 * |s| <= size
    ensures Accounted(s, s, size, 0) && Packed(s, s, size, size)
  {
    RankMonotone(s, 0, 32 * |s|);
  }

  /** debug_fixGeneratedBits. `lost` is the number of bits left over when the last statement of the
      function, which the source holds to be out of reach, is executed. The bits that are cleared are counted
      in 32 bits. */
  method FixGeneratedBits(bits: array<Word>, size: nat) returns (lost: nat)
    modifies bits
    ensures exists q :: Packed(old(bits[..]), bits[..], size, q)
    ensures Accounted(old(bits[..]), bits[..], size, lost)
  {
    lost := 0;
    ghost var before := bits[..];
    if size / 32 < bits.Length {
      ghost var cleared;
      lost, cleared := ClearFrom(bits, size);
      ghost var c, lost0, q := bits[..], lost, size;
      if lost != 0 {
        lost, q := Refill(bits, size, lost);
      }
      MovedPacked(before, c, bits[..], size, q);
      MovedCount(before, c, bits[..], size, q, lost0, lost);
    } else {
      ShortString(before, size);
    }
  }

  /** The last statement is reached: a single bit is set, and there is no position below 0 to move it to. */
  lemma LastStatementReached(s: seq<Word>, t: seq<Word>, size: nat, lost: nat)
    requires s == [1] && size == 0 && Accounted(s, t, size, lost)
    ensures lost > 0
  {
    assert BitAt(s, 0) && Rank(s, 1) == Rank(s, 0) + 1;
    RankMonotone(s, 1, 32);
    RankMonotone(s, 0, 32);
    DivModUnique(Total(s), WORD, 0, Total(s));
  }

  /** The contract of debug_fixGeneratedBits leaves one possible string: among the strings packed
      below `size`, the number of set bits decides every bit. */
  lemma PackedIsDetermined(s: seq<Word>, t: seq<Word>, u: seq<Word>, size: nat, q: nat, r: nat)
    requires Packed(s, t, size, q) && Packed(s, u, size, r) && Total(t) == Total(u)
    ensures forall p :: 0 <= p < 32 * |s| ==> (BitAt(t, p) <==> BitAt(u, p))
  {
    if q <= r {
      RankOfSubset(u, t, 32 * |s|);
    } else {
      RankOfSubset(t, u, 32 * |s|);
    }
  }

  lemma {:induction false} RankOfSubset(s: seq<Word>, t: seq<Word>, p: nat)
    requires |s| == |t| && p <= 32 * |s|
    requires forall q :: 0 <= q < p && BitAt(s, q) ==> BitAt(t, q)
    ensures Rank(s, p) <= Rank(t, p)
    ensures Rank(s, p) == Rank(t, p) ==> forall q :: 0 <= q < p ==> (BitAt(s, q) <==> BitAt(t, q))
  {
    if p > 0 {
      RankOfSubset(s, t, p - 1);
    }
  }
}
