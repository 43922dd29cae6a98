/** The item allocator as the source has it: cells written in place, one free list
    (include/base/ItemAllocator.h). */
module ItemAllocator {
  import opened ItemModel

  class ItemAllocator {
    const numberOfItems: nat
    var mem: map<Item, Content>
    var pool: seq<nat>
    var freeItem: Item

    function Model(): State
      reads this
    {
      State(mem, pool, freeItem)
    }

    /** `raw` is what memory holds to begin with. */
    constructor (nbItems: nat, raw: map<Item, Content>)
      requires nbItems > 1
      ensures numberOfItems == nbItems && Model() == Initial(raw)
    {
      numberOfItems := nbItems;
      mem := raw;
      pool := [];
      freeItem := Null;
    }

    method Allocate(place: nat) returns (item: Item)
      requires numberOfItems > 1
      modifies this
      ensures (Model(), item) == ItemModel.Allocate(old(Model()), place, numberOfItems)
    {
      if freeItem == Null {
        AddPool(place);
      }
      item := freeItem;
      freeItem := NextOf(mem, item);
    }

    method Deallocate(item: Item)
      modifies this
      ensures Model() == ItemModel.Deallocate(old(Model()), item)
    {
      mem := mem[item := Next(freeItem)];
      freeItem := item;
    }

    /** `deleted` are the pools that are given back: here, unlike in the chunk allocator, all of them. */
    method Reset() returns (deleted: seq<nat>)
      modifies this
      ensures Model() == ItemModel.Reset(old(Model())) && deleted == old(pool)
    {
      var p := pool;
      pool := [];
      freeItem := Null;
      deleted := [];
      while p != []
        invariant pool == [] && freeItem == Null && mem == old(mem)
        invariant deleted + p == old(pool)
        decreases |p|
      {
        deleted := deleted + [p[0]];
        p := p[1..];
      }
    }

    /** The do-while loop is entered once before its condition is looked at. */
    method AddPool(place: nat)
      requires numberOfItems > 1
      modifies this
      ensures Model() == ItemModel.AddPool(old(Model()), place, numberOfItems)
    {
      pool := [place] + pool;
      freeItem := Cell(place, 0);
      var i, n := 0, numberOfItems - 1;
      mem := mem[Cell(place, i) := Next(Cell(place, i + 1))];
      i, n := i + 1, n - 1;
      while n != 0
        invariant 0 < i && 0 <= n && i + n == numberOfItems - 1
        invariant pool == [place] + old(pool) && freeItem == Cell(place, 0)
        invariant mem == Threaded(old(mem), place, i)
        decreases n
      {
        mem := mem[Cell(place, i) := Next(Cell(place, i + 1))];
        i, n := i + 1, n - 1;
      }
      mem := mem[Cell(place, i) := Next(Null)];
    }
  }
}
