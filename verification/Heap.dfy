// The kernel allocator as the driver sees it: blocks named by identifiers that are never reused.
// Whether a request is granted, and whether krealloc moves the block, is decided outside.
module Heap {
  import opened Bytes
  import opened Ring

  datatype Heap = Heap(blocks: map<nat, seq<byte>>, next: nat, used: int) {
    ghost predicate Valid() {
      && next > NULL
      && 0 <= used < LOFF_T_LIMIT
      && forall p :: p in blocks ==> NULL < p < next
    }

    /** No request is granted that the address space could not hold. */
    predicate Grants(grant: bool, extra: nat) {
      grant && used + extra < LOFF_T_LIMIT
    }

    /** kmalloc(|fill|): the content of a fresh block is unspecified, here `fill`. */
    function Kmalloc(grant: bool, fill: seq<byte>): (Heap, nat) {
      if Grants(grant, |fill|) then (Heap(blocks[next := fill], next + 1, used + |fill|), next)
      else (this, NULL)
    }

    /** krealloc(p, old size + |fill|): keeps the old content; a failure leaves the old block allocated. */
    function Krealloc(p: nat, grant: bool, moves: bool, fill: seq<byte>): (Heap, nat)
      requires p in blocks
    {
      var grown := blocks[p] + fill;
      if !Grants(grant, |fill|) then (this, NULL)
      else if moves then (Heap((blocks - {p})[next := grown], next + 1, used + |fill|), next)
      else (Heap(blocks[p := grown], next, used + |fill|), p)
    }

    /** kfree(p) demands a block that is still allocated, or NULL. */
    function Kfree(p: nat): Heap
      requires p == NULL || p in blocks
    {
      if p == NULL then this
      else Heap(blocks - {p}, next, used - |blocks[p]|)
    }

    /** Overwrites part of a block. */
    function Store(p: nat, at: nat, bytes: seq<byte>): Heap
      requires p in blocks && at + |bytes| <= |blocks[p]|
    {
      this.(blocks := blocks[p := blocks[p][..at] + bytes + blocks[p][at + |bytes|..]])
    }
  }
}
