/** The pointer table as the source has it: an array of slots probed and written in place
    (src/hash/PointerTable.cpp, include/hash/PointerTable.h). */
module PointerTable {
  import opened Words
  import opened PointerModel
  import opened PointerProofs

  /** Masking with a size that is a power of two, less one, wraps around. */
  lemma MaskWraps(n: nat, x: nat)
    requires SizeOk(n)
    ensures And(x, n - 1) == x % n
  {
    var k: nat :| n == Pow2(k);
    AndMask(x, k);
  }

  lemma NextWraps(n: nat, index: nat)
    requires SizeOk(n) && index < n
    ensures And(index + 1, n - 1) == if index + 1 == n then 0 else index + 1
  {
    MaskWraps(n, index + 1);
    if index + 1 == n {
      DivModUnique(n, n, 1, 0);
    } else {
      DivModUnique(index + 1, n, 0, index + 1);
    }
  }

  /** A pointer that add has stored leaves room. */
  lemma Stored(t: Table, p: nat)
    requires Inv(t) && IsPtr(p) && Probe(t.slots, Home(|t.slots|, p), 0, p, true) < |t.slots|
    requires t.slots[Target(t.slots, p, true)] != p
    ensures 0 < |Bag(t.slots[Target(t.slots, p, true) := p])| <= |t.slots|
    ensures var s := t.slots[Target(t.slots, p, true) := p];
            var retries := Probe(t.slots, Home(|t.slots|, p), 0, p, true);
            PointerModel.Add(t, p) == (Table(Settle(s, t.count + 1, retries), t.count + 1), true)
  {
    StoreKeepsAll(t.slots, p);
  }

  class PointerTable {
    var table: array<nat>
    var nbPointers: nat

    function Model(): Table
      reads this, table
    {
      Table(table[..], nbPointers)
    }

    ghost predicate Valid()
      reads this, table
    {
      Inv(Model())
    }

    constructor ()
      ensures Valid() && fresh(table) && Model() == New()
    {
      table := new nat[2](_ => 0);
      nbPointers := 0;
      new;
      assert table[..] == [0, 0];
      NewIsOk();
    }

    method GetIndex(ptr: nat) returns (index: nat)
      requires SizeOk(table.Length)
      ensures index == Home(table.Length, ptr)
    {
      MaskWraps(table.Length, ptr / 8);
      index := And(ptr / 8, table.Length - 1);
    }

    /** (index + 1) & (tableSize - 1). */
    method Next(index: nat) returns (r: nat)
      requires SizeOk(table.Length) && index < table.Length
      ensures r == if index + 1 == table.Length then 0 else index + 1
    {
      NextWraps(table.Length, index);
      r := And(index + 1, table.Length - 1);
    }

    method Clear()
      requires Valid()
      modifies this, table
      ensures Valid() && table == old(table) && Model() == PointerModel.Clear(old(Model()))
    {
      ClearIsOk(Model());
      for i := 0 to table.Length
        invariant table == old(table)
        invariant forall j :: 0 <= j < i ==> table[j] == 0
      {
        table[i] := 0;
      }
      nbPointers := 0;
      assert table[..] == seq(table.Length, _ => 0);
    }

    /** The loop shared by has and del: stops at a null slot, at `ptr`, or back at the start. */
    method Search(ptr: nat) returns (index: nat, wrapped: bool)
      requires SizeOk(table.Length)
      ensures wrapped <==> Probe(table[..], Home(table.Length, ptr), 0, ptr, false) == table.Length
      ensures !wrapped ==> index == Target(table[..], ptr, false)
      ensures index < table.Length
    {
      index := GetIndex(ptr);
      ghost var d: nat := 0;
      var start := index;
      while table[index] != 0 && table[index] != ptr
        invariant d < table.Length && index == Slot(table.Length, start, d)
        invariant Probe(table[..], start, 0, ptr, false) == Probe(table[..], start, d, ptr, false)
        decreases table.Length - d
      {
        index := Next(index);
        d := d + 1;
        if index == start {
          return index, true;
        }
      }
      wrapped := false;
    }

    method Has(ptr: nat) returns (found: bool)
      requires Valid()
      ensures found == Found(table[..], ptr)
      ensures IsPtr(ptr) ==> (found <==> Bag(table[..])[ptr] > 0)
      ensures ptr == 0 ==> (found <==> 0 in table[..])
      ensures ptr == TOMBSTONE ==> (found <==> TombstoneAhead(table[..]))
    {
      var index, wrapped := Search(ptr);
      found := !wrapped && table[index] == ptr;
      HasIsExactIff(table[..], ptr);
      if ptr == 0 {
        FoundIffPresent(table[..], ptr);
      } else if ptr == TOMBSTONE {
        FoundTombstoneIff(table[..]);
      }
    }

    /** The loop of add, which has no check for coming back to the start: it ends all the same. */
    method SearchFree(ptr: nat) returns (index: nat, retries: nat)
      requires SizeOk(table.Length) && Probe(table[..], Home(table.Length, ptr), 0, ptr, true) < table.Length
      ensures retries == Probe(table[..], Home(table.Length, ptr), 0, ptr, true)
      ensures index == Target(table[..], ptr, true)
    {
      index := GetIndex(ptr);
      retries := 0;
      ghost var start := index;
      while table[index] != 0 && table[index] != TOMBSTONE && table[index] != ptr
        invariant retries < table.Length && index == Slot(table.Length, start, retries)
        invariant Probe(table[..], start, 0, ptr, true) == Probe(table[..], start, retries, ptr, true)
        decreases table.Length - retries
      {
        index := Next(index);
        retries := retries + 1;
      }
    }

    method Add(ptr: nat) returns (added: bool)
      requires Valid() && IsPtr(ptr)
      modifies this, table
      ensures Valid() && (table == old(table) || fresh(table))
      ensures old(Probe(table[..], Home(table.Length, ptr), 0, ptr, true) < table.Length)
      ensures (Model(), added) == PointerModel.Add(old(Model()), ptr)
      ensures Bag(table[..]) == old(Bag(table[..])) + (if added then multiset{ptr} else multiset{})
    {
      ghost var t := Model();
      AddIsExact(t, ptr);
      var index, retries := SearchFree(ptr);
      if table[index] == ptr {
        return false;
      }
      Stored(t, ptr);
      Enter(index, ptr, retries);
      added := true;
    }

    /** What add does once it has found a free slot. */
    method Enter(index: nat, ptr: nat, retries: nat)
      requires index < table.Length && SizeOk(table.Length) && 0 < |Bag(table[..][index := ptr])| <= table.Length
      modifies this, table
      ensures table == old(table) || fresh(table)
      ensures var s, count := old(table[..])[index := ptr], old(nbPointers) + 1;
              Model() == Table(Settle(s, count, retries), count)
    {
      Store(index, ptr);
      SettleTable(retries);
    }

    /** The end of add. */
    method SettleTable(retries: nat)
      requires SizeOk(table.Length) && 0 < |Bag(table[..])| <= table.Length
      modifies this
      ensures nbPointers == old(nbPointers) && (table == old(table) || fresh(table))
      ensures table[..] == Settle(old(table[..]), nbPointers, retries)
    {
      if retries > 7 || nbPointers > table.Length / 2 {
        Rehash();
      }
    }

    method Store(index: nat, ptr: nat)
      requires index < table.Length
      modifies this`nbPointers, table
      ensures table[..] == old(table[..])[index := ptr] && nbPointers == old(nbPointers) + 1
    {
      table[index] := ptr;
      nbPointers := nbPointers + 1;
    }

    method Del(ptr: nat) returns (removed: bool)
      requires Valid() && IsPtr(ptr)
      modifies this, table
      ensures Valid() && table == old(table)
      ensures old(Found(table[..], ptr)) ==> old(nbPointers) > 0
      ensures (Model(), removed) == PointerModel.Del(old(Model()), ptr)
      ensures old(Bag(table[..])) == Bag(table[..]) + (if removed then multiset{ptr} else multiset{})
      ensures removed <==> old(ptr in table[..])
    {
      DelIsExact(Model(), ptr);
      ghost var t := Model();
      var index, wrapped := Search(ptr);
      if wrapped {
        return false;
      }
      if table[index] == ptr {
        table[index] := TOMBSTONE;
        nbPointers := nbPointers - 1;
        assert table[..] == t.slots[index := TOMBSTONE];
        return true;
      }
      removed := false;
    }

    /** Doubles the table and re-inserts what is neither null nor a tombstone. */
    method Rehash()
      requires SizeOk(table.Length) && Bag(table[..]) != multiset{} && |Bag(table[..])| <= table.Length
      modifies this
      ensures fresh(table) && nbPointers == old(nbPointers)
      ensures table[..] == PointerModel.Rehash(old(table[..]))
    {
      var oldTable := table;
      var oldSize := table.Length;
      table := new nat[2 * oldSize](_ => 0);
      DoubleSize(oldSize);
      ghost var all := PointerModel.Rehash(oldTable[..]);
      assert table[..] == seq(2 * oldSize, _ => 0);
      NullsHoldNothing(2 * oldSize);
      for i := 0 to oldSize
        invariant fresh(table) && table.Length == 2 * oldSize && nbPointers == old(nbPointers)
        invariant oldTable[..] == old(table[..])
        invariant all == PlaceAll(oldTable[..], i, table[..])
        invariant Reachable(table[..]) && TOMBSTONE !in table[..] && |Bag(table[..])| <= i
      {
        Reinsert(oldTable, i);
      }
    }

    /** One step of rehash: re-inserts what is neither null nor a tombstone. */
    method Reinsert(oldTable: array<nat>, i: nat)
      requires i < oldTable.Length && oldTable != table && SizeOk(table.Length) && i < table.Length
      requires Reachable(table[..]) && TOMBSTONE !in table[..] && |Bag(table[..])| <= i
      modifies table
      ensures PlaceAll(oldTable[..], i, old(table[..])) == PlaceAll(oldTable[..], i + 1, table[..])
      ensures Reachable(table[..]) && TOMBSTONE !in table[..] && |Bag(table[..])| <= i + 1
    {
      if oldTable[i] != 0 && oldTable[i] != TOMBSTONE {
        PlaceOne(oldTable[i]);
      }
    }

    /** The inner loop of rehash. */
    method SearchNull(p: nat) returns (j: nat)
      requires SizeOk(table.Length) && Probe(table[..], Home(table.Length, p), 0, 0, false) < table.Length
      ensures j == Slot(table.Length, Home(table.Length, p), Probe(table[..], Home(table.Length, p), 0, 0, false))
    {
      j := GetIndex(p);
      ghost var start, d: nat := j, 0;
      while table[j] != 0
        invariant d < table.Length && j == Slot(table.Length, start, d)
        invariant Probe(table[..], start, 0, 0, false) == Probe(table[..], start, d, 0, false)
        decreases table.Length - d
      {
        j := Next(j);
        d := d + 1;
      }
    }

    /** Re-inserts one pointer. The search ends because some slot is null. */
    method PlaceOne(p: nat)
      requires SizeOk(table.Length) && Reachable(table[..]) && IsPtr(p)
      requires TOMBSTONE !in table[..] && |Bag(table[..])| < table.Length
      modifies table
      ensures table[..] == Place(old(table[..]), p)
      ensures Reachable(table[..]) && TOMBSTONE !in table[..]
      ensures Bag(table[..]) == old(Bag(table[..])) + multiset{p}
    {
      PlaceKeepsAll(table[..], p);
      NullAhead(table[..], Home(table.Length, p));
      var j := SearchNull(p);
      table[j] := p;
    }

    /** operator==. */
    method Equals(arg: PointerTable) returns (equal: bool)
      requires Valid() && arg.Valid()
      ensures equal == Equal(Model(), arg.Model())
    {
      if nbPointers != arg.nbPointers {
        return false;
      }
      for i := 0 to table.Length
        invariant forall j :: 0 <= j < i && IsPtr(table[j]) ==> Found(arg.table[..], table[j])
      {
        if table[i] != 0 && table[i] != TOMBSTONE {
          var found := arg.Has(table[i]);
          if !found {
            return false;
          }
        }
      }
      equal := true;
    }
  }
}
