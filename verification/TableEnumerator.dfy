/** The enumerator as the source has it, over the memory of a hash table. */
module TableEnumerator {
  import opened Linkable
  import opened Enumerator
  import opened HashTable

  class LinkableEnumerator {
    const memory: Memory
    const table: nat
    var size: nat
    var pos: nat
    var current: nat

    function Model(): Cursor
      reads this
    {
      Cursor(size, pos, current)
    }

    constructor (memory: Memory, sizeOfTable: nat, table: nat)
      ensures this.memory == memory && this.table == table
      ensures Model() == Start(memory.Model(), table, sizeOfTable)
    {
      this.memory := memory;
      this.table := table;
      size := sizeOfTable;
      pos := 0;
      current := memory.Get(Slot(table, 0));
    }

    method GetNextLinkable() returns (item: nat)
      modifies this
      ensures (Model(), item) == Next(memory.Model(), table, old(Model()))
    {
      item := current;
      if item != 0 {
        current := memory.Get(NextOf(current));
      } else if size != 0 {
        ghost var end := Skip(memory.Model(), table, pos, size);
        pos := pos + 1;
        size := size - 1;
        while size != 0 && memory.Get(Slot(table, pos)) == 0
          invariant end == if size != 0 && At(memory.Model(), Slot(table, pos)) == 0
                           then Skip(memory.Model(), table, pos, size) else (pos, size)
          invariant current == 0 && item == 0
        {
          pos := pos + 1;
          size := size - 1;
        }
        if size != 0 {
          item := memory.Get(Slot(table, pos));
          current := memory.Get(NextOf(item));
        }
      }
    }
  }
}
