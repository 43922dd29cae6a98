/** Splitting the chains of a hash table in two when it doubles, and sums over chains. `goes` tells which items
    move to the upper half. */
module Splitting {
  import opened Lists

  /** Moves the items of `l`, in order, each in front of its new chain; this is what the chain that takes the
      `high` (or low) ones becomes, starting from `onto`. */
  function Spill<T>(l: seq<T>, onto: seq<T>, goes: T -> bool, high: bool): seq<T>
    decreases |l|
  {
    if l == [] then onto
    else Spill(l[1..], if goes(l[0]) == high then [l[0]] + onto else onto, goes, high)
  }

  function Split<T>(chains: seq<seq<T>>, goes: T -> bool): (r: seq<seq<T>>)
    ensures |r| == 2 * |chains|
    ensures forall i :: 0 <= i < |chains| ==> r[i] == Spill(chains[i], [], goes, false)
    ensures forall i {:trigger chains[i]} :: 0 <= i < |chains| ==> r[i + |chains|] == Spill(chains[i], [], goes, true)
  {
    seq(2 * |chains|, (i: nat) =>
      if i < |chains| then Spill(chains[i], [], goes, false)
      else if i - |chains| < |chains| then Spill(chains[i - |chains|], [], goes, true)
      else [])
  }

  // ---- what becomes of one chain ----

  /** The items of `l` that go high (or low), in order. */
  function Half<T>(l: seq<T>, goes: T -> bool, high: bool): seq<T>
    decreases |l|
  {
    if l == [] then []
    else (if goes(l[0]) == high then [l[0]] else []) + Half(l[1..], goes, high)
  }

  function Reverse<T>(l: seq<T>): seq<T>
    decreases |l|
  {
    if l == [] then [] else Reverse(l[1..]) + [l[0]]
  }

  /** Each new chain is the reversal of the sub-sequence that it takes. */
  lemma {:induction false} SpillIsReversedHalf<T>(l: seq<T>, onto: seq<T>, goes: T -> bool, high: bool)
    ensures Spill(l, onto, goes, high) == Reverse(Half(l, goes, high)) + onto
    decreases |l|
  {
    if l != [] {
      var rest := Half(l[1..], goes, high);
      if goes(l[0]) == high {
        SpillIsReversedHalf(l[1..], [l[0]] + onto, goes, high);
        assert ([l[0]] + rest)[1..] == rest;
        assert Reverse([l[0]] + rest) == Reverse(rest) + [l[0]];
        assert Reverse(rest) + ([l[0]] + onto) == (Reverse(rest) + [l[0]]) + onto;
      } else {
        SpillIsReversedHalf(l[1..], onto, goes, high);
        assert [] + rest == rest;
      }
    }
  }

  lemma {:induction false} SpillMembers<T>(l: seq<T>, onto: seq<T>, goes: T -> bool, high: bool, x: T)
    ensures x in Spill(l, onto, goes, high) <==> x in onto || (x in l && goes(x) == high)
    decreases |l|
  {
    if l != [] {
      assert x in l <==> x == l[0] || x in l[1..];
      SpillMembers(l[1..], if goes(l[0]) == high then [l[0]] + onto else onto, goes, high, x);
    }
  }

  lemma {:induction false} SpillNoRepeat<T>(l: seq<T>, onto: seq<T>, goes: T -> bool, high: bool)
    requires NoRepeat(l) && NoRepeat(onto) && forall x :: x in l ==> x !in onto
    ensures NoRepeat(Spill(l, onto, goes, high))
    decreases |l|
  {
    if l != [] {
      assert NoRepeat(l[1..]) && l[0] !in l[1..];
      assert l[0] !in onto;
      SpillNoRepeat(l[1..], if goes(l[0]) == high then [l[0]] + onto else onto, goes, high);
    }
  }

  // ---- sums ----

  function Weight<T>(l: seq<T>, w: T -> nat): nat
    decreases |l|
  {
    if l == [] then 0 else w(l[0]) + Weight(l[1..], w)
  }

  /** The weight of the first `n` chains. */
  function WeightAll<T>(chains: seq<seq<T>>, n: nat, w: T -> nat): nat
    requires n <= |chains|
  {
    if n == 0 then 0 else WeightAll(chains, n - 1, w) + Weight(chains[n - 1], w)
  }

  lemma {:induction false} WeightConcat<T>(a: seq<T>, b: seq<T>, w: T -> nat)
    ensures Weight(a + b, w) == Weight(a, w) + Weight(b, w)
    decreases |a|
  {
    if a == [] {
      assert a + b == b;
    } else {
      assert (a + b)[1..] == a[1..] + b;
      WeightConcat(a[1..], b, w);
    }
  }

  lemma WeightWithout<T>(l: seq<T>, k: nat, w: T -> nat)
    requires k < |l|
    ensures Weight(l, w) == Weight(l[..k] + l[k + 1..], w) + w(l[k])
  {
    assert l == l[..k] + ([l[k]] + l[k + 1..]);
    WeightConcat(l[..k], [l[k]] + l[k + 1..], w);
    WeightConcat([l[k]], l[k + 1..], w);
    WeightConcat(l[..k], l[k + 1..], w);
  }

  lemma {:induction false} WeightUpdate<T>(chains: seq<seq<T>>, i: nat, l: seq<T>, n: nat, w: T -> nat)
    requires i < |chains| && n <= |chains|
    ensures WeightAll(chains[i := l], n, w)
         == WeightAll(chains, n, w) + if i < n then Weight(l, w) - Weight(chains[i], w) else 0
  {
    if n > 0 {
      WeightUpdate(chains, i, l, n - 1, w);
    }
  }

  lemma {:induction false} WeightPositive<T>(chains: seq<seq<T>>, i: nat, n: nat, w: T -> nat)
    requires i < n <= |chains| && Weight(chains[i], w) > 0
    ensures WeightAll(chains, n, w) > 0
  {
    if i < n - 1 {
      WeightPositive(chains, i, n - 1, w);
    }
  }

  lemma {:induction false} WeightEmpty<T>(chains: seq<seq<T>>, n: nat, w: T -> nat)
    requires n <= |chains| && forall i :: 0 <= i < n ==> chains[i] == []
    ensures WeightAll(chains, n, w) == 0
  {
    if n > 0 {
      WeightEmpty(chains, n - 1, w);
    }
  }

  lemma {:induction false} WeightSpill<T>(l: seq<T>, lo: seq<T>, hi: seq<T>, goes: T -> bool, w: T -> nat)
    ensures Weight(Spill(l, lo, goes, false), w) + Weight(Spill(l, hi, goes, true), w)
         == Weight(l, w) + Weight(lo, w) + Weight(hi, w)
    decreases |l|
  {
    if l != [] {
      if goes(l[0]) {
        WeightSpill(l[1..], lo, [l[0]] + hi, goes, w);
      } else {
        WeightSpill(l[1..], [l[0]] + lo, hi, goes, w);
      }
    }
  }

  lemma {:induction false} WeightSplit<T>(a: seq<seq<T>>, n: nat, b: seq<seq<T>>, w: T -> nat)
    requires n <= |a| && |b| == 2 * |a|
    requires forall i {:trigger a[i]} :: 0 <= i < |a| ==> Weight(b[i], w) + Weight(b[i + |a|], w) == Weight(a[i], w)
    ensures WeightAll(b, n, w) + (WeightAll(b, |a| + n, w) - WeightAll(b, |a|, w)) == WeightAll(a, n, w)
  {
    if n > 0 {
      WeightSplit(a, n - 1, b, w);
    }
  }

  lemma HalvesWeight<T>(chains: seq<seq<T>>, goes: T -> bool, w: T -> nat, i: nat)
    requires i < |chains|
    ensures var b := Split(chains, goes); Weight(b[i], w) + Weight(b[i + |chains|], w) == Weight(chains[i], w)
  {
    WeightSpill(chains[i], [], [], goes, w);
  }

  lemma BothHalves<T>(a: seq<seq<T>>, b: seq<seq<T>>, w: T -> nat)
    requires |b| == 2 * |a|
    requires forall i {:trigger a[i]} :: 0 <= i < |a| ==> Weight(b[i], w) + Weight(b[i + |a|], w) == Weight(a[i], w)
    ensures WeightAll(b, |b|, w) == WeightAll(a, |a|, w)
  {
    WeightSplit(a, |a|, b, w);
  }

  /** Splitting keeps every sum over the items: nothing is lost or duplicated. */
  lemma SplitWeight<T>(chains: seq<seq<T>>, goes: T -> bool, w: T -> nat)
    ensures WeightAll(Split(chains, goes), 2 * |chains|, w) == WeightAll(chains, |chains|, w)
  {
    var b := Split(chains, goes);
    forall i {:trigger chains[i]} | 0 <= i < |chains|
      ensures Weight(b[i], w) + Weight(b[i + |chains|], w) == Weight(chains[i], w)
    {
      HalvesWeight(chains, goes, w, i);
    }
    BothHalves(chains, b, w);
  }

  /** Counting is a sum. */
  lemma {:induction false} WeightOfOnes<T>(l: seq<T>, w: T -> nat)
    requires forall x :: x in l ==> w(x) == 1
    ensures Weight(l, w) == |l|
    decreases |l|
  {
    if l != [] {
      WeightOfOnes(l[1..], w);
    }
  }
}
