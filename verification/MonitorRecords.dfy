/** What a call of the allocation monitor records, counts and later reports (src/debug/new.cpp), in numbers. */
module MonitorRecords {
  import opened Words
  import opened MonitorModel
  import opened MonitorProofs
  import opened MonitorRuns
  import opened LeakReport

  // ---- the counters ----

  /** One more record of `bytes` bytes, for `size` bytes if it has a size: the counters, and when the table grows. */
  ghost predicate CountedOne(y: Layout, m: Monitor, n: Monitor, size: nat, bytes: nat, memory: bool) {
    && n.nb == m.nb + 1
    && n.total == (if size != NOSIZE then Wrap(m.total + size) else m.total)
    && |n.chains| == (if memory && m.nb + 1 > (|m.chains| - 1) / 2 then 2 * |m.chains| else |m.chains|)
    && n.overhead == Wrap(m.overhead + bytes + (|n.chains| - |m.chains|) * y.pointer)
  }

  lemma EnterFields(y: Layout, m: Monitor, r: Record, size: nat, memory: bool, s: nat, bytes: nat)
    requires s == |m.chains| > 0 && bytes == if r.Mem? then y.mem else y.ext
    ensures var n := Enter(y, m, r, size, memory); var grows := memory && m.nb + 1 > (s - 1) / 2;
            && n.nb == m.nb + 1 && n.total == (if size != NOSIZE then Wrap(m.total + size) else m.total)
            && |n.chains| == (if grows then 2 * s else s)
            && n.overhead == if grows then Wrap(Wrap(Wrap(m.overhead + bytes) + 2 * s * y.pointer) - s * y.pointer)
                             else Wrap(m.overhead + bytes)
  {
  }

  lemma EnterCounts(y: Layout, m: Monitor, r: Record, size: nat, memory: bool)
    requires |m.chains| > 0
    ensures CountedOne(y, m, Enter(y, m, r, size, memory), size, if r.Mem? then y.mem else y.ext, memory)
  {
    var bytes := if r.Mem? then y.mem else y.ext;
    EnterFields(y, m, r, size, memory, |m.chains|, bytes);
    NewOverhead(m.overhead, bytes, |m.chains|, |Enter(y, m, r, size, memory).chains|, y.pointer);
  }

  lemma NewOverhead(overhead: int, bytes: nat, s: nat, q: nat, p: nat)
    ensures q == s ==> Wrap(overhead + bytes) == Wrap(overhead + bytes + (q - s) * p)
    ensures q == 2 * s ==>
              Wrap(Wrap(Wrap(overhead + bytes) + 2 * s * p) - s * p) == Wrap(overhead + bytes + (q - s) * p)
  {
    var a := s * p;
    assert 2 * s * p == 2 * a && (2 * s - s) * p == a && (s - s) * p == 0;
    WrapAdd(overhead + bytes, 2 * a);
    WrapAdd(overhead + bytes + 2 * a, -a);
  }

  /** remember counts a record of the small kind, unless the pointer is registered: then it does nothing. */
  lemma RememberCounts(y: Layout, m: Monitor, ptr: nat, size: nat, memory: bool)
    requires |m.chains| > 0
    ensures var n := Remember(y, m, ptr, size, memory);
            if exists r :: r in m.chains[ptr / 4 % |m.chains|] && r.ptr == ptr && Sized(r) then n == m
            else CountedOne(y, m, n, size, y.mem, memory)
  {
    EnterCounts(y, m, Mem(ptr, size), size, memory);
  }

  /** remember with a position counts a record of the large kind; it does nothing if there is a size and the pointer
      is registered. */
  lemma RememberAtCounts(y: Layout, m: Monitor, ptr: nat, size: nat, pos: Position, memory: bool)
    requires |m.chains| > 0
    ensures var n := RememberAt(y, m, ptr, size, pos, memory);
            if size != NOSIZE && exists r :: r in m.chains[ptr / 4 % |m.chains|] && r.ptr == ptr && Sized(r) then n == m
            else CountedOne(y, m, n, size, y.ext, memory)
  {
    EnterCounts(y, m, ExtMem(ptr, Or(size, EXTENSION_BIT), pos), size, memory);
  }

  // ---- the record ----

  /** remember stores the pointer and the size in the chain of the pointer. */
  lemma Remembered(y: Layout, m: Monitor, ptr: nat, size: nat, memory: bool)
    requires SizeOk(|m.chains|) && |m.chains| > 0 && !Registered(m.chains[Index(ptr, |m.chains|)], ptr)
    ensures var n := Remember(y, m, ptr, size, memory);
            && |n.chains| > 0
            && exists r :: r in n.chains[ptr / 4 % |n.chains|] && r.Mem? && r.ptr == ptr && r.size == size
  {
    EnteredIsThere(y, m, Mem(ptr, size), size, memory);
  }

  /** remember with a position stores the pointer, the lower 31 bits of the size, the mark of an extended record,
      and the whole position. */
  lemma RememberedAt(y: Layout, m: Monitor, ptr: nat, size: nat, pos: Position, memory: bool)
    requires SizeOk(|m.chains|) && |m.chains| > 0
    requires size == NOSIZE || !Registered(m.chains[Index(ptr, |m.chains|)], ptr)
    ensures var n := RememberAt(y, m, ptr, size, pos, memory);
            && |n.chains| > 0
            && exists r :: r in n.chains[ptr / 4 % |n.chains|] && r.ExtMem? && r.ptr == ptr && Extended(r)
                 && r.size % 0x8000_0000 == size % 0x8000_0000
                 && r.pos.filename == pos.filename && r.pos.line == pos.line && r.pos.function_ == pos.function_
  {
    var r := ExtMem(ptr, Or(size, EXTENSION_BIT), pos);
    EnteredIsThere(y, m, r, size, memory);
    RecordKeeps(size, ptr, pos);
    SizeParts(r.size);
  }

  // ---- the report ----

  /** The report after the call is the one before, with one more of the kind `k`. */
  ghost predicate ReportsOneMore(m: Monitor, n: Monitor, k: Key) {
    forall x :: Reported(GatherAll(n.chains, |n.chains|), x)
             == Reported(GatherAll(m.chains, |m.chains|), x) + if x == k then 1 else 0
  }

  lemma EnteredIsReported(y: Layout, m: Monitor, r: Record, size: nat, memory: bool, k: Key)
    requires |m.chains| > 0 && KeyOf(r) == k
    ensures ReportsOneMore(m, Enter(y, m, r, size, memory), k)
  {
    var n := Enter(y, m, r, size, memory);
    forall x
      ensures Reported(GatherAll(n.chains, |n.chains|), x)
           == Reported(GatherAll(m.chains, |m.chains|), x) + if x == k then 1 else 0
    {
      ReportCountsRecords(m.chains, x);
      ReportCountsRecords(n.chains, x);
      EnterWeight(y, m, r, size, memory, ByKey(Is(x)));
      assert ByKey(Is(x))(r) == if x == k then 1 else 0;
    }
  }

  /** From remember with a position to the report: for every size, one more of the lower 31 bits of the size at
      exactly that position, and nothing else; nothing at all if there is a size and the pointer is registered. */
  lemma RememberAtIsReported(y: Layout, m: Monitor, ptr: nat, size: nat, pos: Position, memory: bool)
    requires |m.chains| > 0
    ensures var n := RememberAt(y, m, ptr, size, pos, memory);
            if size != NOSIZE && Registered(m.chains[Index(ptr, |m.chains|)], ptr) then n == m
            else ReportsOneMore(m, n, Key(size % 0x8000_0000, From(Position(pos.filename, pos.line, pos.function_))))
  {
    var r := ExtMem(ptr, Or(size, EXTENSION_BIT), pos);
    RecordKeeps(size, ptr, pos);
    EnteredIsReported(y, m, r, size, memory, Key(size % 0x8000_0000, From(pos)));
  }

  /** The same without a position. A size with bit 31 set would make the record pass for an extended one. */
  lemma RememberIsReported(y: Layout, m: Monitor, ptr: nat, size: nat, memory: bool)
    requires |m.chains| > 0 && And(size, EXTENSION_BIT) == 0
    ensures var n := Remember(y, m, ptr, size, memory);
            if Registered(m.chains[Index(ptr, |m.chains|)], ptr) then n == m
            else ReportsOneMore(m, n, Key(size, Unknown))
  {
    EnteredIsReported(y, m, Mem(ptr, size), size, memory, Key(size, Unknown));
  }

  // ---- forget ----

  /** forget takes away the first record of the pointer that has a size, or that has none, as asked: the counters,
      and one less of its kind in the report. Null, or a pointer without such a record, changes nothing. */
  lemma ForgetIsReported(y: Layout, m: Monitor, ptr: nat, nosize: bool, k: nat)
    requires Inv(y, m)
    requires k <= |m.chains[ptr / 4 % |m.chains|]|
    requires forall j :: 0 <= j < k ==> var r := m.chains[ptr / 4 % |m.chains|][j]; r.ptr != ptr || Sized(r) == nosize
    requires k < |m.chains[ptr / 4 % |m.chains|]| ==>
               var r := m.chains[ptr / 4 % |m.chains|][k]; r.ptr == ptr && Sized(r) == !nosize
    ensures var l := m.chains[Index(ptr, |m.chains|)]; Find(l, ptr, nosize) < |l| ==> m.nb > 0
    ensures var n := Forget(y, m, ptr, nosize); var l := m.chains[ptr / 4 % |m.chains|];
            if ptr == 0 || k == |l| then n == m
            else
              && |n.chains| == |m.chains| && n.nb == m.nb - 1
              && n.total == (if nosize then m.total else Wrap(m.total - l[k].size % 0x8000_0000))
              && n.overhead == Wrap(m.overhead - if l[k].Mem? then y.mem else y.ext)
              && ReportsOneMore(n, m, match l[k]
                                      case Mem(p, size) => Key(size, Unknown)
                                      case ExtMem(p, size, pos) => Key(size % 0x8000_0000, From(pos)))
  {
    FoundIsCounted(y, m, ptr, nosize);
    var i := Index(ptr, |m.chains|);
    var l := m.chains[i];
    FirstIsFound(l, ptr, nosize, k);
    if ptr != 0 && k < |l| {
      assert l[k] in l && AllAt(l, i, |m.chains|);
      SizeParts(l[k].size);
      KindOf(l[k]);
      DroppedIsReported(y, m, i, k, nosize, KeyOf(l[k]));
    }
  }

  lemma {:induction false} FirstIsFound(l: seq<Record>, ptr: nat, nosize: bool, k: nat)
    requires k <= |l| && forall j :: 0 <= j < k ==> !Matches(l[j], ptr, nosize)
    requires k < |l| ==> Matches(l[k], ptr, nosize)
    ensures Find(l, ptr, nosize) == k
    decreases |l|
  {
    if k > 0 {
      FirstIsFound(l[1..], ptr, nosize, k - 1);
    }
  }

  lemma DroppedIsReported(y: Layout, m: Monitor, i: nat, k: nat, nosize: bool, key: Key)
    requires i < |m.chains| && k < |m.chains[i]| && m.nb > 0 && KeyOf(m.chains[i][k]) == key
    ensures ReportsOneMore(Drop(y, m, i, k, nosize), m, key)
  {
    var n := Drop(y, m, i, k, nosize);
    forall x
      ensures Reported(GatherAll(m.chains, |m.chains|), x)
           == Reported(GatherAll(n.chains, |n.chains|), x) + if x == key then 1 else 0
    {
      ReportCountsRecords(m.chains, x);
      ReportCountsRecords(n.chains, x);
      ForgetWeight(m.chains, i, k, ByKey(Is(x)));
      assert ByKey(Is(x))(m.chains[i][k]) == if x == key then 1 else 0;
    }
  }
}
