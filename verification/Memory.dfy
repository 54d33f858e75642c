/** A ledger of allocated blocks, so that leaks, double frees and uses after free become visible. */
module Memory {

  /** The objects that count as blocks: all of them. Contracts name it to speak of every new object. */
  ghost predicate IsBlock(o: object) { true }

  class Memory {
    /** The blocks that were allocated and not freed yet. */
    var live: set<object>
    /** The blocks that were freed. */
    ghost var freed: set<object>

    constructor ()
      ensures live == {} && freed == {}
    {
      live, freed := {}, {};
    }

    /** Record a new block. */
    method Allocated(block: object)
      requires block !in live && block !in freed
      modifies this
      ensures live == old(live) + {block} && freed == old(freed)
      ensures forall o: object :: IsBlock(o) ==> !fresh(o)
    {
      live := live + {block};
    }

    /** Free a block; only a live one may be freed. */
    method Free(block: object)
      requires block in live
      modifies this
      ensures live == old(live) - {block} && freed == old(freed) + {block}
      ensures forall o: object :: IsBlock(o) ==> !fresh(o)
    {
      live := live - {block};
      freed := freed + {block};
    }
  }
}
