/** Runs of two hash tables in one memory that may be swapped at any time (include/hash/tables.h). Hash values and
    `info` words belong to the buckets, whichever table these are in. */
module SwapRuns {
  import opened BucketModel
  import opened BucketRuns

  datatype Pair = Pair(a: Table, b: Table, hash: map<nat, nat>, info: map<nat, nat>)

  datatype Call = OnA(op: Op) | OnB(op: Op) | Swap

  function WorldA(p: Pair): World {
    World(p.a, p.hash, p.info)
  }

  function Mirror(p: Pair): Pair {
    Pair(p.b, p.a, p.hash, p.info)
  }

  /** The bucket that the operation is about is not in the other table. */
  predicate Foreign(op: Op, others: set<nat>) {
    match op
    case OpInsert(b, h, w) => b !in others
    case OpIncRef(b, n) => b !in others
    case OpDecRef(b, n) => b !in others
    case _ => true
  }

  predicate Ready(p: Pair) {
    |p.a.chains| > 0 && |p.b.chains| > 0
  }

  predicate CorrectA(p: Pair, op: Op)
    requires Ready(p)
  {
    BucketRuns.Correct(WorldA(p), op) && Foreign(op, Members(p.b.chains))
  }

  predicate Correct(p: Pair, call: Call)
    requires Ready(p)
  {
    match call
    case OnA(op) => CorrectA(p, op)
    case OnB(op) => CorrectA(Mirror(p), op)
    case Swap => true
  }

  function StepA(p: Pair, op: Op): Pair
    requires Ready(p) && CorrectA(p, op)
  {
    var w := BucketRuns.Step(WorldA(p), op);
    Pair(w.t, p.b, w.hash, w.info)
  }

  function Step(p: Pair, call: Call): Pair
    requires Ready(p) && Correct(p, call)
  {
    match call
    case OnA(op) => StepA(p, op)
    case OnB(op) => Mirror(StepA(Mirror(p), op))
    case Swap => Mirror(p)
  }

  /** The same call on two sets of buckets. */
  function MembersAfter(m: (set<nat>, set<nat>), call: Call): (set<nat>, set<nat>) {
    match call
    case OnA(op) => (BucketRuns.MembersAfter(m.0, op), m.1)
    case OnB(op) => (m.0, BucketRuns.MembersAfter(m.1, op))
    case Swap => (m.1, m.0)
  }

  ghost predicate Ok(p: Pair) {
    && Inv(p.a, p.hash, p.info) && Inv(p.b, p.hash, p.info)
    && Members(p.a.chains) !! Members(p.b.chains)
  }

  predicate CorrectRun(p: Pair, calls: seq<Call>)
    requires Ready(p)
    decreases |calls|
  {
    calls == [] ||
    (Correct(p, calls[0]) && Ready(Step(p, calls[0])) && CorrectRun(Step(p, calls[0]), calls[1..]))
  }

  function After(p: Pair, calls: seq<Call>): Pair
    requires Ready(p) && CorrectRun(p, calls)
    decreases |calls|
  {
    if calls == [] then p else After(Step(p, calls[0]), calls[1..])
  }

  function MembersAfterAll(m: (set<nat>, set<nat>), calls: seq<Call>): (set<nat>, set<nat>)
    decreases |calls|
  {
    if calls == [] then m else MembersAfterAll(MembersAfter(m, calls[0]), calls[1..])
  }

  function MembersOf(p: Pair): (set<nat>, set<nat>) {
    (Members(p.a.chains), Members(p.b.chains))
  }

  /** Hash values and words of other buckets may change. */
  lemma OtherInv(t: Table, hash: map<nat, nat>, info: map<nat, nat>, hash': map<nat, nat>, info': map<nat, nat>)
    requires Inv(t, hash, info)
    requires forall x :: x in Members(t.chains) && x in hash && x in info ==>
               x in hash' && x in info' && hash'[x] == hash[x] && info'[x] == info[x]
    ensures Inv(t, hash', info')
  {
    forall i, x | 0 <= i < |t.chains| && x in t.chains[i]
      ensures Belongs(x, i, |t.chains|, hash', info')
    {
      assert x in Members(t.chains) && Belongs(x, i, |t.chains|, hash, info);
    }
  }

  lemma StepAKeepsOk(p: Pair, op: Op)
    requires Ok(p) && CorrectA(p, op)
    ensures Ok(StepA(p, op))
    ensures Members(StepA(p, op).a.chains) == BucketRuns.MembersAfter(Members(p.a.chains), op)
  {
    StepKeepsInv(WorldA(p), op);
    OtherInv(p.b, p.hash, p.info, StepA(p, op).hash, StepA(p, op).info);
  }

  lemma StepKeepsOk(p: Pair, call: Call)
    requires Ok(p) && Correct(p, call)
    ensures Ok(Step(p, call)) && MembersOf(Step(p, call)) == MembersAfter(MembersOf(p), call)
  {
    match call
    case OnA(op) => StepAKeepsOk(p, op);
    case OnB(op) => StepAKeepsOk(Mirror(p), op);
    case Swap =>
  }

  /** Over every run of two tables, swapped at any time: both keep their invariant, and each holds the buckets
      that were inserted into what is now its array and not removed, where its mask points. */
  lemma {:induction false} EveryRunIsOk(p: Pair, calls: seq<Call>)
    requires Ok(p) && CorrectRun(p, calls)
    ensures Ok(After(p, calls)) && MembersOf(After(p, calls)) == MembersAfterAll(MembersOf(p), calls)
    decreases |calls|
  {
    if calls != [] {
      StepKeepsOk(p, calls[0]);
      EveryRunIsOk(Step(p, calls[0]), calls[1..]);
    }
  }
}
