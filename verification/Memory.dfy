/** The allocator behind `internal_hooks`: any request may be refused, and what has been handed out stays live until
 released. */
module Memory {
  import opened Strings

  class Allocator {
    /** Whether the k-th request is refused; nothing is known about it. */
    const refuses: nat -> bool
    var requests: nat
    ghost var refusals: nat
    ghost var live: set<object>

    constructor (refuses: nat -> bool)
      ensures live == {} && refusals == 0 && this.refuses == refuses
    {
      this.refuses, requests, refusals, live := refuses, 0, 0, {};
    }

    method Allocate(size: nat) returns (block: array?<Byte>)
      modifies this
      ensures block == null ==> live == old(live) && refusals == old(refusals) + 1
      ensures block != null ==>
        fresh(block) && block.Length == size && live == old(live) + {block} && refusals == old(refusals)
    {
      var refused := refuses(requests);
      requests := requests + 1;
      if refused {
        refusals := refusals + 1;
        return null;
      }
      var bytes := new Byte[size];
      live := live + {bytes};
      block := bytes;
    }

    /** `realloc`: on success the old block is gone and its bytes are in the new one, as far as they fit. */
    method Reallocate(previous: array<Byte>, size: nat) returns (block: array?<Byte>)
      requires previous in live
      modifies this
      ensures block == null ==> live == old(live) && refusals == old(refusals) + 1
      ensures block != null ==>
        fresh(block) && block.Length == size && live == old(live) - {previous} + {block} && refusals == old(refusals)
      ensures block != null ==> forall i | 0 <= i < size && i < previous.Length :: block[i] == previous[i]
    {
      var refused := refuses(requests);
      requests := requests + 1;
      if refused {
        refusals := refusals + 1;
        return null;
      }
      var bytes := new Byte[size](i requires 0 <= i reads previous => if i < previous.Length then previous[i] else 0);
      live := live - {previous} + {bytes};
      block := bytes;
    }

    /** `free`: only what is live may be released, so nothing is released twice. */
    method Release(block: object)
      requires block in live
      modifies this
      ensures live == old(live) - {block} && refusals == old(refusals)
    {
      live := live - {block};
    }
  }
}
