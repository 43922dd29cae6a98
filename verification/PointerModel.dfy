/** The open-addressing pointer table as values (src/hash/PointerTable.cpp). A table is the sequence of its
    slots; 0 is the null pointer. */
module PointerModel {
  import opened Words

  const TOMBSTONE: nat := 0xffff_ffff_ffff_ffff

  predicate IsPtr(x: nat) {
    x != 0 && x != TOMBSTONE
  }

  /** getIndex. */
  function Home(n: nat, p: nat): (h: nat)
    requires n > 0
    ensures h < n
  {
    p / 8 % n
  }

  /** The slot at offset `d` from slot `h`, wrapping around. */
  function Slot(n: nat, h: nat, d: nat): (i: nat)
    requires h < n && d < n
    ensures i < n
  {
    if h + d < n then h + d else h + d - n
  }

  /** The offset at which the probe sequence from `h` meets slot `i`. */
  function Offset(n: nat, h: nat, i: nat): (d: nat)
    requires h < n && i < n
    ensures d < n && Slot(n, h, d) == i
  {
    if h <= i then i - h else i + n - h
  }

  /** Where a probe for `p` stops: at a null slot, at `p`, and when adding also at a tombstone. */
  predicate Stops(x: nat, p: nat, adding: bool) {
    x == 0 || x == p || (adding && x == TOMBSTONE)
  }

  /** The first offset from `d` on at which the probe stops, or the size of the table. */
  function Probe(t: seq<nat>, h: nat, d: nat, p: nat, adding: bool): (e: nat)
    requires h < |t|
    ensures e <= |t| && (e < |t| ==> Stops(t[Slot(|t|, h, e)], p, adding))
    decreases |t| - d
  {
    if d >= |t| then |t|
    else if Stops(t[Slot(|t|, h, d)], p, adding) then d
    else Probe(t, h, d + 1, p, adding)
  }

  /** The slot a probe for `p` ends at. */
  function Target(t: seq<nat>, p: nat, adding: bool): (i: nat)
    requires |t| > 0 && Probe(t, Home(|t|, p), 0, p, adding) < |t|
    ensures i < |t| && Stops(t[i], p, adding)
  {
    Slot(|t|, Home(|t|, p), Probe(t, Home(|t|, p), 0, p, adding))
  }

  function Found(t: seq<nat>, p: nat): bool
    requires |t| > 0
  {
    Probe(t, Home(|t|, p), 0, p, false) < |t| && t[Target(t, p, false)] == p
  }

  // ---- the operations ----

  datatype Table = Table(slots: seq<nat>, count: nat)

  function New(): Table {
    Table([0, 0], 0)
  }

  function Clear(t: Table): Table {
    Table(seq(|t.slots|, _ => 0), 0)
  }

  function Del(t: Table, p: nat): (Table, bool)
    requires |t.slots| > 0 && (Found(t.slots, p) ==> t.count > 0)
  {
    if Found(t.slots, p) then (Table(t.slots[Target(t.slots, p, false) := TOMBSTONE], t.count - 1), true)
    else (t, false)
  }

  /** The first free slot for `p` in a table without tombstones. */
  function Place(t: seq<nat>, p: nat): (r: seq<nat>)
    requires |t| > 0
    ensures |r| == |t|
  {
    var d := Probe(t, Home(|t|, p), 0, 0, false);
    if d < |t| then t[Slot(|t|, Home(|t|, p), d) := p] else t
  }

  /** The loop of rehash: re-inserts the pointers of `t` from slot `i` on. */
  function PlaceAll(t: seq<nat>, i: nat, into: seq<nat>): (r: seq<nat>)
    requires i <= |t| && |into| > 0
    ensures |r| == |into|
    decreases |t| - i
  {
    if i == |t| then into
    else PlaceAll(t, i + 1, if IsPtr(t[i]) then Place(into, t[i]) else into)
  }

  function Rehash(t: seq<nat>): seq<nat>
    requires |t| > 0
  {
    PlaceAll(t, 0, seq(2 * |t|, _ => 0))
  }

  function Add(t: Table, p: nat): (Table, bool)
    requires |t.slots| > 0 && Probe(t.slots, Home(|t.slots|, p), 0, p, true) < |t.slots|
  {
    var i := Target(t.slots, p, true);
    if t.slots[i] == p then (t, false)
    else
      var s := t.slots[i := p];
      var retries := Probe(t.slots, Home(|t.slots|, p), 0, p, true);
      (Table(Settle(s, t.count + 1, retries), t.count + 1), true)
  }

  /** The end of add: rehash after a long probe or once more than half of the slots are taken. */
  function Settle(s: seq<nat>, count: nat, retries: nat): seq<nat>
    requires |s| > 0
  {
    if retries > 7 || count > |s| / 2 then Rehash(s) else s
  }

  /** operator==. */
  function Equal(t: Table, u: Table): bool
    requires |u.slots| > 0
  {
    t.count == u.count && forall i :: 0 <= i < |t.slots| && IsPtr(t.slots[i]) ==> Found(u.slots, t.slots[i])
  }

  // ---- what a table holds ----

  /** The pointers in the table, with repetitions. */
  function Bag(t: seq<nat>): multiset<nat> {
    multiset(t)[0 := 0][TOMBSTONE := 0]
  }

  /** No null slot lies between a pointer and the slot it hashes to. */
  ghost predicate Reachable(t: seq<nat>)
    requires |t| > 0
  {
    forall i, d :: 0 <= i < |t| && IsPtr(t[i]) && 0 <= d < Offset(|t|, Home(|t|, t[i]), i) ==>
      t[Slot(|t|, Home(|t|, t[i]), d)] != 0
  }

  ghost predicate Inv(t: Table) {
    && SizeOk(|t.slots|)
    && |t.slots| >= 2
    && Reachable(t.slots)
    && t.count == |Bag(t.slots)|
    && t.count <= |t.slots| / 2
  }
}
