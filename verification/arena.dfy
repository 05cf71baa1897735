/** `ArenaAllocator<T, sizeLimit>` of util.h: a free list of blocks of one size. Freed
    blocks are kept, up to `sizeLimit` of them, and handed out again last-in,
    first-out. */
module Arena {

  /** A block of memory of `sizeof(T)` bytes; its contents are not modelled. */
  class Block {
    constructor()
    {
    }
  }

  /** The default `sizeLimit`. */
  const DefaultSizeLimit: nat := 10000

  class ArenaAllocator {
    const sizeLimit: nat
    /** The free list; its last block is handed out first. */
    var nodes: seq<Block>

    ghost predicate Valid()
      reads this
    {
      |nodes| <= sizeLimit
    }

    constructor(sizeLimit: nat)
      ensures Valid() && this.sizeLimit == sizeLimit && nodes == []
    {
      this.sizeLimit := sizeLimit;
      nodes := [];
    }

    /** `alloc()`: the most recently freed block when there is one, otherwise a new
        block. */
    method Alloc() returns (b: Block)
      requires Valid()
      modifies this
      ensures Valid()
      ensures old(nodes) != [] ==> b == old(nodes)[|old(nodes)| - 1] && nodes == old(nodes)[..|old(nodes)| - 1]
      ensures old(nodes) == [] ==> fresh(b) && nodes == []
    {
      if |nodes| > 0 {
        b := nodes[|nodes| - 1];
        nodes := nodes[..|nodes| - 1];
        return;
      }
      b := new Block();
    }

    /** `free(mem)`: a null pointer is ignored; a block is kept when the list is below
        its limit and released otherwise. */
    method Free(mem: Block?)
      requires Valid()
      modifies this
      ensures Valid()
      ensures mem == null || |old(nodes)| >= sizeLimit ==> nodes == old(nodes)
      ensures mem != null && |old(nodes)| < sizeLimit ==> nodes == old(nodes) + [mem]
    {
      if mem == null {
        return;
      }
      if |nodes| >= sizeLimit {
        return;
      }
      nodes := nodes + [mem];
    }
  }

  /** Freeing a block and allocating again gives that block back whenever the list had
      room for it. */
  method FreeThenAlloc(arena: ArenaAllocator, mem: Block) returns (b: Block)
    requires arena.Valid() && |arena.nodes| < arena.sizeLimit
    modifies arena
    ensures b == mem && arena.nodes == old(arena.nodes)
  {
    arena.Free(mem);
    b := arena.Alloc();
  }
}
