/** How large two hash tables grow and how full they get when they may be swapped: a table takes over the size, the
    threshold and the rehash switch of the other (include/hash/tables.h). */
module SwapSizes {
  import opened Words
  import opened BucketModel
  import opened SwapRuns
  import opened TableSize

  datatype Gauges = Gauges(a: Gauge, b: Gauge)

  datatype Move = First(call: TableSize.Call) | Second(call: TableSize.Call) | Exchange

  function OfPair(p: Pair): Gauges {
    Gauges(Of(p.a), Of(p.b))
  }

  function NextPair(g: Gauges, move: Move): Gauges {
    match move
    case First(call) => Gauges(Next(g.a, call), g.b)
    case Second(call) => Gauges(g.a, Next(g.b, call))
    case Exchange => Gauges(g.b, g.a)
  }

  function RunPair(g: Gauges, moves: seq<Move>): Gauges
    decreases |moves|
  {
    if moves == [] then g else RunPair(NextPair(g, moves[0]), moves[1..])
  }

  /** AbstractTable(sizePower2, aggressive), twice. */
  function InitialPair(powerA: nat, aggressiveA: bool, powerB: nat, aggressiveB: bool): Gauges {
    Gauges(Initial(powerA, aggressiveA), Initial(powerB, aggressiveB))
  }

  // ---- runs of one table are runs of the pair ----

  function OnFirst(calls: seq<TableSize.Call>): seq<Move> {
    seq(|calls|, i requires 0 <= i < |calls| => First(calls[i]))
  }

  function OnSecond(calls: seq<TableSize.Call>): seq<Move> {
    seq(|calls|, i requires 0 <= i < |calls| => Second(calls[i]))
  }

  lemma {:induction false} OneTableRuns(g: Gauges, calls: seq<TableSize.Call>)
    ensures RunPair(g, OnFirst(calls)) == Gauges(Run(g.a, calls), g.b)
    ensures RunPair(g, OnSecond(calls)) == Gauges(g.a, Run(g.b, calls))
    decreases |calls|
  {
    if calls != [] {
      assert OnFirst(calls)[1..] == OnFirst(calls[1..]);
      assert OnSecond(calls)[1..] == OnSecond(calls[1..]);
      OneTableRuns(NextPair(g, First(calls[0])), calls[1..]);
      OneTableRuns(NextPair(g, Second(calls[0])), calls[1..]);
    }
  }

  // ---- the cap ----

  predicate WithinCap(g: Gauges) {
    g.a.size <= MAX_TABLE_SIZE && g.b.size <= MAX_TABLE_SIZE
  }

  /** No run takes either table beyond the maximum size. */
  ghost predicate StaysWithinCap(g: Gauges) {
    forall moves :: WithinCap(RunPair(g, moves))
  }

  lemma {:induction false} RunIsWithinCap(g: Gauges, moves: seq<Move>)
    requires Capped(g.a) && Capped(g.b)
    ensures WithinCap(RunPair(g, moves))
    decreases |moves|
  {
    if moves != [] {
      match moves[0] {
        case First(call) => NextIsCapped(g.a, call);
        case Second(call) => NextIsCapped(g.b, call);
        case Exchange =>
      }
      RunIsWithinCap(NextPair(g, moves[0]), moves[1..]);
    }
  }

  lemma InitialIsCapped(power: nat, aggressive: bool)
    requires power < 26
    ensures Capped(Initial(power, aggressive))
  {
    MaxIsPower();
    Pow2Monotone(26, power);
    Pow2Monotone(power, 26);
  }

  /** No run of two tables, swapped at any time, takes one beyond the maximum size exactly when both were built
      below that size. */
  lemma PairCapHoldsIff(powerA: nat, aggressiveA: bool, powerB: nat, aggressiveB: bool)
    ensures StaysWithinCap(InitialPair(powerA, aggressiveA, powerB, aggressiveB)) <==> powerA < 26 && powerB < 26
  {
    var g := InitialPair(powerA, aggressiveA, powerB, aggressiveB);
    if powerA < 26 && powerB < 26 {
      InitialIsCapped(powerA, aggressiveA);
      InitialIsCapped(powerB, aggressiveB);
      forall moves
        ensures WithinCap(RunPair(g, moves))
      {
        RunIsWithinCap(g, moves);
      }
    } else if StaysWithinCap(g) {
      forall calls
        ensures Run(Initial(powerA, aggressiveA), calls).size <= MAX_TABLE_SIZE
      {
        OneTableRuns(g, calls);
        assert WithinCap(RunPair(g, OnFirst(calls)));
      }
      forall calls
        ensures Run(Initial(powerB, aggressiveB), calls).size <= MAX_TABLE_SIZE
      {
        OneTableRuns(g, calls);
        assert WithinCap(RunPair(g, OnSecond(calls)));
      }
      CapHoldsIff(powerA, aggressiveA);
      CapHoldsIff(powerB, aggressiveB);
    }
  }

  /** One swap takes a table built with 2^8 entries beyond the maximum size, if the other was built beyond it. */
  lemma SwapBreaksCap(powerA: nat, powerB: nat)
    requires powerA == 8 && powerB == 27
    ensures WithinCap(InitialPair(powerA, false, powerA, false))
    ensures var g := InitialPair(powerA, false, powerB, false);
            g.a.size <= MAX_TABLE_SIZE && RunPair(g, [Exchange]).a.size > MAX_TABLE_SIZE
  {
    InitialIsCapped(powerA, false);
    MaxIsPower();
    Pow2Monotone(26, powerB);
    assert Pow2(27) == 2 * Pow2(26);
    assert [Exchange][1..] == [];
  }

  // ---- the load ----

  predicate Enabled(move: Move) {
    move.Exchange? || !move.call.DisableCall?
  }

  predicate AllEnabled(moves: seq<Move>) {
    forall k :: 0 <= k < |moves| ==> Enabled(moves[k])
  }

  predicate WithinLoad(g: Gauges) {
    LoadBounded(g.a) && LoadBounded(g.b)
  }

  /** No run in which rehashing is never disabled fills a table beyond its threshold below the maximum size. */
  ghost predicate StaysWithinLoad(g: Gauges) {
    forall moves :: AllEnabled(moves) ==> WithinLoad(RunPair(g, moves))
  }

  lemma {:induction false} RunIsWithinLoad(g: Gauges, moves: seq<Move>)
    requires LoadKept(g.a) && LoadKept(g.b) && AllEnabled(moves)
    ensures WithinLoad(RunPair(g, moves))
    decreases |moves|
  {
    if moves != [] {
      assert Enabled(moves[0]);
      match moves[0] {
        case First(call) => NextIsLoadKept(g.a, call);
        case Second(call) => NextIsLoadKept(g.b, call);
        case Exchange =>
      }
      RunIsWithinLoad(NextPair(g, moves[0]), moves[1..]);
    }
  }

  /** While rehashing is disabled for neither, both tables stay within their thresholds below the maximum size,
      exactly when neither was built as an aggressive table of a single entry. */
  lemma PairLoadHoldsIff(powerA: nat, aggressiveA: bool, powerB: nat, aggressiveB: bool)
    ensures StaysWithinLoad(InitialPair(powerA, aggressiveA, powerB, aggressiveB))
       <==> (aggressiveA ==> powerA >= 1) && (aggressiveB ==> powerB >= 1)
  {
    var g := InitialPair(powerA, aggressiveA, powerB, aggressiveB);
    if (aggressiveA ==> powerA >= 1) && (aggressiveB ==> powerB >= 1) {
      InitialLoad(powerA, aggressiveA);
      InitialLoad(powerB, aggressiveB);
      forall moves | AllEnabled(moves)
        ensures WithinLoad(RunPair(g, moves))
      {
        RunIsWithinLoad(g, moves);
      }
    } else if StaysWithinLoad(g) {
      forall calls | NeverDisabled(calls)
        ensures LoadBounded(Run(Initial(powerA, aggressiveA), calls))
        ensures LoadBounded(Run(Initial(powerB, aggressiveB), calls))
      {
        OneTableRuns(g, calls);
        assert AllEnabled(OnFirst(calls)) && AllEnabled(OnSecond(calls));
        assert WithinLoad(RunPair(g, OnFirst(calls))) && WithinLoad(RunPair(g, OnSecond(calls)));
      }
      LoadHoldsIff(powerA, aggressiveA);
      LoadHoldsIff(powerB, aggressiveB);
    }
  }

  /** The switch moves too: a table for which rehashing was never disabled is filled beyond its threshold after
      a swap with one for which it was. */
  lemma SwapBringsDisabled(power: nat)
    requires power == 0
    ensures var moves := [Second(DisableCall), Exchange, First(Inc)];
            && (forall k :: 0 <= k < |moves| ==> moves[k] != First(DisableCall))
            && !LoadBounded(RunPair(InitialPair(power, false, power, false), moves).a)
  {
    var moves := [Second(DisableCall), Exchange, First(Inc)];
    assert moves[1..] == [Exchange, First(Inc)] && moves[2..] == [First(Inc)] && moves[3..] == [];
    assert moves[1..][1..] == moves[2..] && moves[2..][1..] == moves[3..];
    ShrCases(0, 0);
  }

  // ---- runs of the tables themselves ----

  function MoveOf(call: SwapRuns.Call): Move {
    match call
    case OnA(op) => First(CallOf(op))
    case OnB(op) => Second(CallOf(op))
    case Swap => Exchange
  }

  function MovesOf(calls: seq<SwapRuns.Call>): seq<Move> {
    seq(|calls|, i requires 0 <= i < |calls| => MoveOf(calls[i]))
  }

  lemma StepMoves(p: Pair, call: SwapRuns.Call)
    requires Ready(p) && SwapRuns.Correct(p, call)
    ensures OfPair(SwapRuns.Step(p, call)) == NextPair(OfPair(p), MoveOf(call))
  {
    match call
    case OnA(op) => GaugeFollows(WorldA(p), op);
    case OnB(op) => GaugeFollows(WorldA(Mirror(p)), op);
    case Swap =>
  }

  /** Sizes, counts, thresholds and switches of two tables move as the calls on them do. */
  lemma {:induction false} PairFollows(p: Pair, calls: seq<SwapRuns.Call>)
    requires Ready(p) && SwapRuns.CorrectRun(p, calls)
    ensures OfPair(SwapRuns.After(p, calls)) == RunPair(OfPair(p), MovesOf(calls))
    decreases |calls|
  {
    if calls != [] {
      StepMoves(p, calls[0]);
      PairFollows(SwapRuns.Step(p, calls[0]), calls[1..]);
      assert MovesOf(calls)[1..] == MovesOf(calls[1..]);
    }
  }

  predicate Disables(call: SwapRuns.Call) {
    !call.Swap? && call.op.OpDisable?
  }

  /** Two tables that were built below the maximum size never exceed it; and while rehashing is disabled for
      neither, below that size they hold no more buckets than their thresholds, unless one was built aggressive
      with one entry. */
  lemma PairStaysInBounds(p: Pair, powerA: nat, aggressiveA: bool, powerB: nat, aggressiveB: bool,
                          calls: seq<SwapRuns.Call>)
    requires Ready(p) && OfPair(p) == InitialPair(powerA, aggressiveA, powerB, aggressiveB)
    requires SwapRuns.CorrectRun(p, calls)
    ensures powerA < 26 && powerB < 26 ==> WithinCap(OfPair(SwapRuns.After(p, calls)))
    ensures (forall k :: 0 <= k < |calls| ==> !Disables(calls[k])) &&
            (aggressiveA ==> powerA >= 1) && (aggressiveB ==> powerB >= 1) ==>
              WithinLoad(OfPair(SwapRuns.After(p, calls)))
  {
    PairFollows(p, calls);
    PairCapHoldsIff(powerA, aggressiveA, powerB, aggressiveB);
    PairLoadHoldsIff(powerA, aggressiveA, powerB, aggressiveB);
    assert powerA < 26 && powerB < 26 ==> WithinCap(RunPair(OfPair(p), MovesOf(calls)));
    if forall k :: 0 <= k < |calls| ==> !Disables(calls[k]) {
      assert AllEnabled(MovesOf(calls));
    }
  }
}
