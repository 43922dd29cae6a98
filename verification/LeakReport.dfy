/** The leak report (src/debug/new.cpp, StatsTable and the destructor of NewPointerTable). */
module LeakReport {
  import opened Splitting
  import opened Words
  import opened MonitorModel
  import opened MonitorProofs

  const STATS_SIZE: nat := 256

  datatype Where = Unknown | From(pos: Position)

  /** What tells one kind of leak from another. */
  datatype Key = Key(size: nat, where: Where)

  datatype Leak = Leak(key: Key, nb: nat)

  /** The hash value of addLeak. */
  function HashOf(k: Key): nat {
    Xor(k.size, match k.where
                case Unknown => 0
                case From(p) => Xor(Xor(p.filename, p.line), p.function_))
  }

  function Entry(k: Key): (i: nat)
    ensures i < STATS_SIZE
  {
    HashOf(k) % STATS_SIZE
  }

  /** The position of the entry for `k`, or the length of the chain. */
  function Locate(l: seq<Leak>, k: Key): (j: nat)
    ensures j <= |l| && (j < |l| ==> l[j].key == k)
    decreases |l|
  {
    if l == [] || l[0].key == k then 0 else 1 + Locate(l[1..], k)
  }

  function Bump(l: seq<Leak>, k: Key): seq<Leak> {
    var j := Locate(l, k);
    if j < |l| then l[j := Leak(k, l[j].nb + 1)] else [Leak(k, 1)] + l
  }

  function AddLeak(stats: seq<seq<Leak>>, k: Key): (r: seq<seq<Leak>>)
    requires |stats| == STATS_SIZE
    ensures |r| == STATS_SIZE
  {
    stats[Entry(k) := Bump(stats[Entry(k)], k)]
  }

  /** The kind of leak that a record is reported as. */
  function KeyOf(r: Record): Key {
    if Extended(r) && r.ExtMem? then Key(BucketSize(r), From(r.pos)) else Key(r.size, Unknown)
  }

  function Gather(stats: seq<seq<Leak>>, l: seq<Record>): (r: seq<seq<Leak>>)
    requires |stats| == STATS_SIZE
    ensures |r| == STATS_SIZE
    decreases |l|
  {
    if l == [] then stats else Gather(AddLeak(stats, KeyOf(l[0])), l[1..])
  }

  /** The first `n` chains gathered. */
  function GatherAll(chains: seq<seq<Record>>, n: nat): (r: seq<seq<Leak>>)
    requires n <= |chains|
    ensures |r| == STATS_SIZE
  {
    if n == 0 then seq(STATS_SIZE, _ => []) else Gather(GatherAll(chains, n - 1), chains[n - 1])
  }

  /** addLeak looks at one entry of the table only: the size, the file, the line and the function, xored. There one
      more is counted of the first leak of this kind; if there is none, a new one comes first. */
  lemma AddLeakAt(stats: seq<seq<Leak>>, size: nat, where: Where, i: nat)
    requires |stats| == STATS_SIZE
    requires i == (match where
                   case Unknown => size
                   case From(p) => Xor(size, Xor(Xor(p.filename, p.line), p.function_))) % 256
    ensures var k, t, l := Key(size, where), AddLeak(stats, Key(size, where)), stats[i];
            && (forall e :: 0 <= e < 256 && e != i ==> t[e] == stats[e])
            && ((forall j :: 0 <= j < |l| ==> l[j].key != k) ==> t[i] == [Leak(k, 1)] + l)
            && forall j :: 0 <= j < |l| && l[j].key == k && (forall e :: 0 <= e < j ==> l[e].key != k) ==>
                 t[i] == l[j := Leak(k, l[j].nb + 1)]
  {
    LocateFirst(stats[i], Key(size, where));
  }

  // ---- sums over a report ----

  function LeakWeight(l: seq<Leak>, v: Key -> nat): nat
    decreases |l|
  {
    if l == [] then 0 else l[0].nb * v(l[0].key) + LeakWeight(l[1..], v)
  }

  function ReportWeight(stats: seq<seq<Leak>>, n: nat, v: Key -> nat): nat
    requires n <= |stats|
  {
    if n == 0 then 0 else ReportWeight(stats, n - 1, v) + LeakWeight(stats[n - 1], v)
  }

  function ByKey(v: Key -> nat): Record -> nat {
    r => v(KeyOf(r))
  }

  lemma {:induction false} BumpWeight(l: seq<Leak>, k: Key, v: Key -> nat)
    ensures LeakWeight(Bump(l, k), v) == LeakWeight(l, v) + v(k)
    decreases |l|
  {
    var j := Locate(l, k);
    if j == |l| {
      assert ([Leak(k, 1)] + l)[1..] == l;
    } else {
      UpdateWeight(l, j, Leak(k, l[j].nb + 1), v);
      assert (l[j].nb + 1) * v(k) == l[j].nb * v(k) + v(k);
    }
  }

  lemma {:induction false} UpdateWeight(l: seq<Leak>, j: nat, x: Leak, v: Key -> nat)
    requires j < |l|
    ensures LeakWeight(l[j := x], v) + l[j].nb * v(l[j].key) == LeakWeight(l, v) + x.nb * v(x.key)
    decreases |l|
  {
    if j == 0 {
      assert l[0 := x][1..] == l[1..];
    } else {
      assert l[j := x][1..] == l[1..][j - 1 := x];
      UpdateWeight(l[1..], j - 1, x, v);
    }
  }

  lemma {:induction false} ReportUpdate(stats: seq<seq<Leak>>, i: nat, l: seq<Leak>, n: nat, v: Key -> nat)
    requires i < |stats| && n <= |stats|
    ensures ReportWeight(stats[i := l], n, v)
         == ReportWeight(stats, n, v) + if i < n then LeakWeight(l, v) - LeakWeight(stats[i], v) else 0
  {
    if n > 0 {
      ReportUpdate(stats, i, l, n - 1, v);
    }
  }

  /** addLeak adds the weight of its key to every sum. */
  lemma AddLeakWeight(stats: seq<seq<Leak>>, k: Key, v: Key -> nat)
    requires |stats| == STATS_SIZE
    ensures ReportWeight(AddLeak(stats, k), STATS_SIZE, v) == ReportWeight(stats, STATS_SIZE, v) + v(k)
  {
    BumpWeight(stats[Entry(k)], k, v);
    ReportUpdate(stats, Entry(k), Bump(stats[Entry(k)], k), STATS_SIZE, v);
  }

  lemma {:induction false} GatherWeight(stats: seq<seq<Leak>>, l: seq<Record>, v: Key -> nat)
    requires |stats| == STATS_SIZE
    ensures ReportWeight(Gather(stats, l), STATS_SIZE, v) == ReportWeight(stats, STATS_SIZE, v) + Weight(l, ByKey(v))
    decreases |l|
  {
    if l != [] {
      AddLeakWeight(stats, KeyOf(l[0]), v);
      GatherWeight(AddLeak(stats, KeyOf(l[0])), l[1..], v);
    }
  }

  lemma {:induction false} EmptyReport(stats: seq<seq<Leak>>, n: nat, v: Key -> nat)
    requires n <= |stats| && forall i :: 0 <= i < n ==> stats[i] == []
    ensures ReportWeight(stats, n, v) == 0
  {
    if n > 0 {
      EmptyReport(stats, n - 1, v);
    }
  }

  /** Every sum over the report is the sum over the records. */
  lemma {:induction false} GatherAllWeight(chains: seq<seq<Record>>, n: nat, v: Key -> nat)
    requires n <= |chains|
    ensures ReportWeight(GatherAll(chains, n), STATS_SIZE, v) == WeightAll(chains, n, ByKey(v))
  {
    if n == 0 {
      EmptyReport(GatherAll(chains, 0), STATS_SIZE, v);
    } else {
      GatherAllWeight(chains, n - 1, v);
      GatherWeight(GatherAll(chains, n - 1), chains[n - 1], v);
    }
  }

  // ---- one entry for each kind of leak ----

  ghost predicate ChainOk(l: seq<Leak>, i: nat) {
    && (forall x :: x in l ==> x.nb > 0 && Entry(x.key) == i)
    && (forall j, k :: 0 <= j < k < |l| ==> l[j].key != l[k].key)
  }

  ghost predicate ReportOk(stats: seq<seq<Leak>>) {
    |stats| == STATS_SIZE && forall i :: 0 <= i < STATS_SIZE ==> ChainOk(stats[i], i)
  }

  lemma {:induction false} LocateFirst(l: seq<Leak>, k: Key)
    ensures forall j :: 0 <= j < Locate(l, k) ==> l[j].key != k
    decreases |l|
  {
    if l != [] && l[0].key != k {
      LocateFirst(l[1..], k);
    }
  }

  lemma BumpOk(l: seq<Leak>, k: Key)
    requires ChainOk(l, Entry(k))
    ensures ChainOk(Bump(l, k), Entry(k))
  {
    LocateFirst(l, k);
    var j := Locate(l, k);
    if j < |l| {
      var q := Bump(l, k);
      forall x | x in q
        ensures x.nb > 0 && Entry(x.key) == Entry(k)
      {
        assert x in l || x == Leak(k, l[j].nb + 1);
      }
    }
  }

  lemma AddLeakOk(stats: seq<seq<Leak>>, k: Key)
    requires ReportOk(stats)
    ensures ReportOk(AddLeak(stats, k))
  {
    BumpOk(stats[Entry(k)], k);
  }

  lemma {:induction false} GatherOk(stats: seq<seq<Leak>>, l: seq<Record>)
    requires ReportOk(stats)
    ensures ReportOk(Gather(stats, l))
    decreases |l|
  {
    if l != [] {
      AddLeakOk(stats, KeyOf(l[0]));
      GatherOk(AddLeak(stats, KeyOf(l[0])), l[1..]);
    }
  }

  lemma {:induction false} GatherAllOk(chains: seq<seq<Record>>, n: nat)
    requires n <= |chains|
    ensures ReportOk(GatherAll(chains, n))
  {
    if n > 0 {
      GatherAllOk(chains, n - 1);
      GatherOk(GatherAll(chains, n - 1), chains[n - 1]);
    }
  }

  /** The number that the report gives for `k`, zero if it has no entry. */
  function Reported(stats: seq<seq<Leak>>, k: Key): nat
    requires |stats| == STATS_SIZE
  {
    var l := stats[Entry(k)];
    if Locate(l, k) < |l| then l[Locate(l, k)].nb else 0
  }

  function Is(k: Key): Key -> nat {
    x => if x == k then 1 else 0
  }

  lemma {:induction false} ChainCount(l: seq<Leak>, k: Key)
    requires forall i, j :: 0 <= i < j < |l| ==> l[i].key != l[j].key
    ensures LeakWeight(l, Is(k)) == if Locate(l, k) < |l| then l[Locate(l, k)].nb else 0
    decreases |l|
  {
    if l != [] {
      if l[0].key == k {
        NoneLeft(l[1..], k);
      } else {
        ChainCount(l[1..], k);
      }
    }
  }

  lemma {:induction false} NoneLeft(l: seq<Leak>, k: Key)
    requires forall j :: 0 <= j < |l| ==> l[j].key != k
    ensures LeakWeight(l, Is(k)) == 0
    decreases |l|
  {
    if l != [] {
      NoneLeft(l[1..], k);
    }
  }

  lemma {:induction false} ReportCount(stats: seq<seq<Leak>>, k: Key, n: nat)
    requires ReportOk(stats) && n <= STATS_SIZE
    ensures ReportWeight(stats, n, Is(k)) == if Entry(k) < n then Reported(stats, k) else 0
  {
    if n > 0 {
      ReportCount(stats, k, n - 1);
      var l := stats[n - 1];
      assert ChainOk(l, n - 1);
      if Entry(k) == n - 1 {
        ChainCount(l, k);
      } else {
        forall j | 0 <= j < |l|
          ensures l[j].key != k
        {
          assert l[j] in l;
        }
        NoneLeft(l, k);
      }
    }
  }

  // ---- the report agrees with the table ----

  function Always(k: Key): nat { 1 }

  /** What an entry of the report stands for, user pointers without a size apart. */
  function KeySize(k: Key): nat {
    if k.size == NOSIZE then 0 else k.size
  }

  lemma {:induction false} SameWeight(l: seq<Record>, w: Record -> nat, v: Record -> nat)
    requires forall r :: r in l ==> w(r) == v(r)
    ensures Weight(l, w) == Weight(l, v)
    decreases |l|
  {
    if l != [] {
      SameWeight(l[1..], w, v);
    }
  }

  lemma {:induction false} SameWeightAll(chains: seq<seq<Record>>, n: nat, w: Record -> nat, v: Record -> nat)
    requires n <= |chains| && forall i, r :: 0 <= i < n && r in chains[i] ==> w(r) == v(r)
    ensures WeightAll(chains, n, w) == WeightAll(chains, n, v)
  {
    if n > 0 {
      SameWeightAll(chains, n - 1, w, v);
      SameWeight(chains[n - 1], w, v);
    }
  }

  lemma ModAdd(a: nat, b: nat, c: nat, d: nat)
    requires a % WORD == c % WORD && b % WORD == d % WORD
    ensures (a + b) % WORD == (c + d) % WORD
  {
  }

  lemma {:induction false} CongruentWeight(l: seq<Record>, w: Record -> nat, v: Record -> nat)
    requires forall r :: r in l ==> w(r) % WORD == v(r) % WORD
    ensures Weight(l, w) % WORD == Weight(l, v) % WORD
    decreases |l|
  {
    if l != [] {
      CongruentWeight(l[1..], w, v);
      ModAdd(w(l[0]), Weight(l[1..], w), v(l[0]), Weight(l[1..], v));
    }
  }

  lemma {:induction false} CongruentWeightAll(chains: seq<seq<Record>>, n: nat, w: Record -> nat, v: Record -> nat)
    requires n <= |chains| && forall i, r :: 0 <= i < n && r in chains[i] ==> w(r) % WORD == v(r) % WORD
    ensures WeightAll(chains, n, w) % WORD == WeightAll(chains, n, v) % WORD
  {
    if n > 0 {
      CongruentWeightAll(chains, n - 1, w, v);
      CongruentWeight(chains[n - 1], w, v);
      ModAdd(WeightAll(chains, n - 1, w), Weight(chains[n - 1], w),
             WeightAll(chains, n - 1, v), Weight(chains[n - 1], v));
    }
  }

  /** What is reported for a record is, in 32 bits, what it counts in `totalAlloc`. */
  lemma KeyHasAmount(r: Record)
    requires RecordOk(r)
    ensures KeySize(KeyOf(r)) % WORD == Amount(r) % WORD
  {
    if r.Mem? {
      SizeParts(NOSIZE);
      if r.size != NOSIZE {
        AmountKeptIff(r, r.size);
      }
    }
  }

  /** The kind of a record, field by field. */
  lemma KindOf(r: Record)
    requires RecordOk(r)
    ensures KeyOf(r) == match r
                        case Mem(ptr, size) => Key(size, Unknown)
                        case ExtMem(ptr, size, pos) => Key(size % EXTENSION_BIT, From(pos))
  {
    SizeParts(r.size);
  }

  /** After the gathering loop the report has one entry for each kind of leak, counting exactly the records of
      that kind. */
  lemma ReportCountsRecords(chains: seq<seq<Record>>, k: Key)
    ensures var stats := GatherAll(chains, |chains|);
            ReportOk(stats) && Reported(stats, k) == WeightAll(chains, |chains|, ByKey(Is(k)))
  {
    GatherAllOk(chains, |chains|);
    GatherAllWeight(chains, |chains|, Is(k));
    ReportCount(GatherAll(chains, |chains|), k, STATS_SIZE);
  }

  /** The counts of the report add up to the number of records, and the sized ones to the allocated memory. */
  lemma ReportAgrees(y: Layout, m: Monitor)
    requires Inv(y, m)
    ensures var stats := GatherAll(m.chains, |m.chains|);
            && ReportWeight(stats, STATS_SIZE, Always) == m.nb
            && Wrap(ReportWeight(stats, STATS_SIZE, KeySize)) == m.total
  {
    var n := |m.chains|;
    GatherAllWeight(m.chains, n, Always);
    forall i, r | 0 <= i < n && r in m.chains[i]
      ensures ByKey(Always)(r) == One(r)
    {
      assert Always(KeyOf(r)) == One(r);
    }
    SameWeightAll(m.chains, n, ByKey(Always), One);
    GatherAllWeight(m.chains, n, KeySize);
    forall i, r | 0 <= i < n && r in m.chains[i]
      ensures ByKey(KeySize)(r) % WORD == Amount(r) % WORD
    {
      assert AllAt(m.chains[i], i, n);
      KeyHasAmount(r);
    }
    CongruentWeightAll(m.chains, n, ByKey(KeySize), Amount);
    WrapCongruentIff(0, WeightAll(m.chains, n, ByKey(KeySize)), WeightAll(m.chains, n, Amount));
  }
}
