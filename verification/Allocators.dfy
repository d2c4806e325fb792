/** What an allocator has lent out (include/tda/alloc/alloc.h). A container keeps the books straight when each block it
    asks for is lent to it once and each block it lets go is handed back once. */
module Allocators {
  class Allocator {
    ghost var lent: set<object>

    constructor ()
      ensures lent == {}
    {
      lent := {};
    }

    /** A block nobody holds. */
    ghost method Lend(block: object)
      requires block !in lent
      modifies `lent
      ensures lent == old(lent) + {block}
    {
      lent := lent + {block};
    }

    /** A block comes back: only one that is out, so none comes back twice. */
    ghost method TakeBack(block: object)
      requires block in lent
      modifies `lent
      ensures lent == old(lent) - {block}
    {
      lent := lent - {block};
    }
  }
}
