/** The kernel allocator as the driver sees it: live blocks by address.  A freed address may be
    handed out again.  Which address an allocation returns, or null, is the caller's argument,
    so every theorem holds for whatever the allocator decides. */
module KernelHeaps {
  import opened Bytes
  import opened CircularBuffers

  lemma {:induction false} SomeAddressIsFree(used: set<Ptr>) returns (p: Ptr)
    ensures forall q :: q in used ==> q < p
    ensures p != NULL
  {
    if used == {} {
      p := 1;
    } else {
      var q :| q in used;
      p := SomeAddressIsFree(used - {q});
      p := Max(p, q + 1);
      assert forall r :: r in used ==> r == q || r in used - {q};
    }
  }

  class KernelHeap {
    var blocks: map<Ptr, Text>

    constructor ()
      ensures blocks == map[]
    {
      blocks := map[];
    }

    /** An address the allocator might return next. */
    method FreeAddress() returns (p: Ptr)
      ensures p != NULL && p !in blocks
    {
      ghost var free := SomeAddressIsFree(blocks.Keys);
      p := 1;
      while p in blocks
        invariant p != NULL && p <= free
        decreases free - p
      {
        p := p + 1;
      }
    }

    method Kmalloc(size: nat, choice: Ptr) returns (p: Ptr)
      requires choice == NULL || choice !in blocks
      modifies this
      ensures p == choice
      ensures p == NULL ==> blocks == old(blocks)
      ensures p != NULL ==> p in blocks && |blocks[p]| == size && blocks == old(blocks)[p := blocks[p]]
    {
      p := choice;
      if p != NULL {
        blocks := blocks[p := seq(size, _ => 0)];
      }
    }

    /** On success the old block is gone, unless it was resized in place; its bytes are a prefix
        of the new block and the rest is unspecified.  On failure nothing changes. */
    method Krealloc(p: Ptr, size: nat, choice: Ptr) returns (q: Ptr)
      requires p in blocks && |blocks[p]| <= size
      requires choice == NULL || choice == p || choice !in blocks
      modifies this
      ensures q == choice
      ensures q == NULL ==> blocks == old(blocks)
      ensures q != NULL ==>
                && q in blocks && |blocks[q]| == size
                && old(blocks[p]) <= blocks[q]
                && blocks == (old(blocks) - {p})[q := blocks[q]]
    {
      q := choice;
      if q != NULL {
        blocks := (blocks - {p})[q := blocks[p] + seq(size - |blocks[p]|, _ => 0)];
      }
    }

    /** memcpy and copy_from_user into a live block. */
    method Store(p: Ptr, off: nat, data: Text)
      requires p in blocks && off + |data| <= |blocks[p]|
      modifies this
      ensures blocks == old(blocks)[p := old(blocks[p])[..off] + data + old(blocks[p])[off + |data|..]]
    {
      blocks := blocks[p := blocks[p][..off] + data + blocks[p][off + |data|..]];
    }

    /** Freeing a block that is not live is ruled out by the precondition. */
    method Kfree(p: Ptr)
      requires p in blocks
      modifies this
      ensures blocks == old(blocks) - {p}
    {
      blocks := blocks - {p};
    }
  }
}
