/** The chunk allocator as the source has it: fields that its operations update, free lists threaded
    through the freed words (src/base/DataAllocator.cpp, include/base/array_t.h). */
module DataAllocator {
  import opened PoolModel
  import opened PoolSteps

  /** array_t<uintptr_t*>. */
  class ArrayT {
    var data: array<nat>

    constructor (initSize: nat)
      ensures fresh(data) && data.Length == (if initSize == 0 then 1 else initSize)
      ensures forall k :: 0 <= k < data.Length ==> data[k] == 0
    {
      data := new nat[if initSize == 0 then 1 else initSize](_ => 0);
    }

    /** Reading outside the array gives the null pointer. */
    method Read(at: nat) returns (v: nat)
      ensures v == PoolModel.Get(data[..], at)
    {
      v := if at < data.Length then data[at] else 0;
    }

    /** array_t::replace, with array_t::ensurePos in front. `junk` is what the new words happened to hold. */
    method Replace(at: nat, value: nat) returns (res: nat, ghost junk: nat -> nat)
      modifies this, data
      ensures var grown := Grown(old(data[..]), at, junk); data[..] == grown[at := value] && res == grown[at]
      ensures data == old(data) || fresh(data)
    {
      junk := EnsurePos(at);
      res := data[at];
      data[at] := value;
    }

    method EnsurePos(at: nat) returns (ghost junk: nat -> nat)
      modifies this
      ensures data[..] == Grown(old(data[..]), at, junk)
      ensures data.Length == if at < old(data.Length) then old(data.Length) else at + 8
      ensures forall k :: 0 <= k < old(data.Length) ==> data[k] == old(data[k])
      ensures data == old(data) || fresh(data)
    {
      junk := k => 0;
      if at >= data.Length {
        var newData := new nat[at + INC];
        ghost var raw := newData[..];
        junk := (k: nat) => if k < |raw| then raw[k] else 0;
        for k := 0 to data.Length
          invariant newData.Length == at + INC && data == old(data) && data[..] == old(data[..])
          invariant forall j :: 0 <= j < newData.Length ==> newData[j] == if j < k then data[j] else raw[j]
        {
          newData[k] := data[k];
        }
        data := newData;
      }
    }

    /** pointer_t::reset. */
    method Clear()
      modifies data
      ensures forall k :: 0 <= k < data.Length ==> data[k] == 0
    {
      for k := 0 to data.Length
        invariant forall j :: 0 <= j < k ==> data[j] == 0
      {
        data[k] := 0;
      }
    }
  }

  /** `mem` is the address space. Whoever knows `Inv` of the model, with some bookkeeping, may use the
      lemmas of PoolSteps and PoolRuns: each method says which step of the model it takes. */
  class DataAllocator {
    const c: Build
    const mem: array<nat>
    const freeMem: ArrayT
    var pools: seq<nat>
    var freePtr: nat
    var endFree: nat

    function Model(): State
      reads this, mem, freeMem, freeMem.data
    {
      State(mem[..], freeMem.data[..], pools, freePtr, endFree)
    }

    /** What running an operation needs of the state: pointers that can be followed. */
    ghost predicate Ready()
      reads this, mem, freeMem, freeMem.data
    {
      && mem != freeMem.data
      && |pools| > 0 && freePtr <= endFree <= mem.Length
      && forall k :: 0 <= k < freeMem.data.Length ==> freeMem.data[k] < mem.Length
    }

    lemma SoundIsReady(g: Book)
      requires mem != freeMem.data && Inv(c, Model(), g)
      ensures Ready()
    {
      forall k | 0 <= k < freeMem.data.Length
        ensures freeMem.data[k] < mem.Length
      {
        assert Linked(mem[..], Model().table[k], g.lists[k]);
      }
    }

    constructor (c: Build, mem: array<nat>, base: nat)
      requires 0 < base && base + CHUNK <= mem.Length
      ensures Ready() && this.c == c && this.mem == mem && fresh(freeMem) && fresh(freeMem.data)
      ensures Model() == Initial(mem[..], base)
    {
      this.c := c;
      this.mem := mem;
      freeMem := new ArrayT(TABLE_SIZE);
      pools := [base];
      freePtr := base;
      endFree := base + CHUNK;
      new;
      assert freeMem.data[..] == seq(TABLE_SIZE, _ => 0);
    }

    /** DODEBUG(*data = intSize). */
    method StoreSize(data: nat, size: nat)
      requires data < mem.Length
      modifies mem
      ensures mem[..] == Header(c, old(mem[..]), data, size)
    {
      if c.debug {
        mem[data] := size;
      }
    }

    /** The first branch of allocate: the head of a free list. */
    method TakeFree(size: nat, data: nat)
      requires Ready() && size < freeMem.data.Length && freeMem.data[size] == data
      modifies mem, freeMem.data
      ensures Model() == Pop(c, old(Model()), size)
    {
      freeMem.data[size] := mem[data];
      StoreSize(data, size);
    }

    /** allocate, once the current pool is found too small: files what is left of it. */
    method FileRest(data: nat) returns (ghost junk: nat -> nat)
      requires Ready() && data == freePtr
      modifies mem, freeMem, freeMem.data
      ensures freeMem.data == old(freeMem.data) || fresh(freeMem.data)
      ensures Model().(freePtr := endFree) == PoolModel.Retire(c, old(Model()), junk)
    {
      junk := k => 0;
      var memLeft := endFree - data;
      if memLeft != 0 {
        var head;
        head, junk := freeMem.Replace(c.ArchSize(memLeft), data);
        mem[data] := head;
      }
    }

    /** The last branch of allocate: a new pool. */
    method FromNewPool(size: nat, base: nat) returns (data: nat, ghost junk: nat -> nat)
      requires Ready() && 0 < size && base + size <= mem.Length
      modifies this, mem, freeMem, freeMem.data
      ensures freeMem.data == old(freeMem.data) || fresh(freeMem.data)
      ensures data == base && Model() == Bump(c, AddPool(PoolModel.Retire(c, old(Model()), junk), base), size)
    {
      junk := FileRest(freePtr);
      pools := [base] + pools;
      data := base;
      freePtr := data + size;
      endFree := base + CHUNK;
      StoreSize(data, size);
    }

    /** `base` is where a new pool would be placed; `junk` is what a grown table happened to expose. */
    method Allocate(n: nat, base: nat) returns (ptr: nat, ghost junk: nat -> nat)
      requires Ready() && base + c.BlockSize(n) <= mem.Length
      modifies this, mem, freeMem, freeMem.data
      ensures freeMem.data == old(freeMem.data) || fresh(freeMem.data)
      ensures PoolModel.Allocate(c, old(Model()), n, base, junk) == (Model(), ptr)
    {
      junk := k => 0;
      if n == 0 {
        return 0, junk;
      }
      var size := c.ArchSize(n);
      size := size + c.Offset();
      var data := freeMem.Read(size);
      if data != 0 {
        TakeFree(size, data);
        return data + c.Offset(), junk;
      }
      data := freePtr;
      if freePtr + size <= endFree {
        freePtr := freePtr + size;
        StoreSize(data, size);
        return data + c.Offset(), junk;
      }
      data, junk := FromNewPool(size, base);
      ptr := data + c.Offset();
    }

    method Deallocate(ptr: nat, n: nat) returns (ghost junk: nat -> nat)
      requires Ready() && (n > 0 ==> c.Offset() <= ptr && ptr - c.Offset() < mem.Length)
      modifies this, mem, freeMem, freeMem.data
      ensures freeMem.data == old(freeMem.data) || fresh(freeMem.data)
      ensures Model() == PoolModel.Deallocate(c, old(Model()), ptr, n, junk)
    {
      junk := k => 0;
      if n != 0 {
        var data := ptr - c.Offset();
        var size := c.ArchSize(n);
        size := size + c.Offset();
        if data + size == freePtr {
          freePtr := data;
        } else {
          var head;
          head, junk := freeMem.Replace(size, data);
          mem[data] := head;
        }
      }
    }

    /** The loop that gives a chain of pools back to the system, one after the other. */
    method DeleteChain(chain: seq<nat>) returns (deleted: seq<nat>)
      ensures deleted == chain
    {
      deleted := [];
      var pool := chain;
      while pool != []
        invariant deleted + pool == chain
        decreases |pool|
      {
        deleted := deleted + [pool[0]];
        pool := pool[1..];
      }
    }

    /** `deleted` are the pools that are given back: none, since the chain is cut before the loop. These are
        all pools but the base, as promised, only if there is nothing but the base. */
    method Reset() returns (deleted: seq<nat>)
      requires Ready()
      modifies this, freeMem.data
      ensures freeMem.data == old(freeMem.data)
      ensures Model() == PoolModel.Reset(old(Model())) && deleted == []
      ensures deleted == old(pools)[1..] <==> |old(pools)| == 1
    {
      pools := pools[..1];
      freePtr := pools[0];
      endFree := pools[0] + CHUNK;
      deleted := DeleteChain(pools[1..]);
      freeMem.Clear();
      assert freeMem.data[..] == seq(freeMem.data.Length, _ => 0);
    }

    /** The destructor gives back the pools that are in the chain. */
    method Destroy() returns (deleted: seq<nat>)
      ensures deleted == pools
    {
      deleted := DeleteChain(pools);
    }

    method InUsedPart(data: nat) returns (inPool: bool)
      requires |pools| > 0
      ensures inPool <==>
        pools[0] <= data < freePtr || exists j :: 1 <= j < |pools| && pools[j] <= data < pools[j] + CHUNK
    {
      inPool := pools[0] <= data < freePtr;
      for k := 1 to |pools|
        invariant inPool <==>
          pools[0] <= data < freePtr || exists j :: 1 <= j < k && pools[j] <= data < pools[j] + CHUNK
      {
        if pools[k] <= data < pools[k] + CHUNK {
          inPool := true;
        }
      }
    }

    /** Walks the free list that starts at `fdata`; `l` are its blocks. */
    method InFreeList(data: nat, head: nat, ghost l: seq<nat>) returns (found: bool)
      requires Linked(mem[..], head, l)
      ensures found <==> data in l
    {
      var fdata := head;
      ghost var j: nat := 0;
      while fdata != 0
        invariant j <= |l| && fdata == Nth(l, j)
        invariant data !in l[..j]
        decreases |l| - j
      {
        if data == fdata {
          return true;
        }
        fdata := mem[fdata];
        j := j + 1;
      }
      assert l[..j] == l;
      found := false;
    }

    /** The debug check of deallocate. */
    method HasInPools(data: nat, size: nat, ghost g: Book) returns (found: bool)
      requires |pools| > 0 && ThreadsOk(mem[..], freeMem.data[..], g.lists)
      ensures found <==> PoolSteps.HasInPools(Model(), g, data, size)
    {
      found := InUsedPart(data);
      if found {
        var head := freeMem.Read(size);
        ghost var l := if size < |g.lists| then g.lists[size] else [];
        assert Linked(mem[..], head, l);
        var listed := InFreeList(data, head, l);
        found := !listed;
      }
    }
  }
}
