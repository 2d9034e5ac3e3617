/** The kernel allocator as the core sees it (`memory_alloc`, `memory_alloc_module`,
    `memory_free`, `memory_free_module`): an abstract heap that may refuse a request and
    keeps a ghost account of the live blocks with their requested sizes, so that "no leak"
    and "freed with the recorded size" can be stated. */
module Memory {

  /** The address of a block. */
  type Handle = nat

  /** Freeing a block just granted gives back the live blocks from before the request. */
  lemma FreeUndoesAlloc(live: map<Handle, nat>, h: Handle, size: nat)
    requires h !in live
    ensures live[h := size] - {h} == live
  {
  }

  /** The same for two blocks granted one after the other and freed in either order. */
  lemma FreeUndoesAllocs(live: map<Handle, nat>, a: Handle, sa: nat, b: Handle, sb: nat)
    requires a !in live && b !in live && a != b
    ensures live[a := sa][b := sb] - {a} - {b} == live
    ensures live[a := sa][b := sb] - {b} - {a} == live
  {
  }

  class Heap {
    /** Live blocks and the size each was requested with. */
    ghost var live: map<Handle, nat>
    /** Next address handed out; every live address lies below it. */
    var next: Handle

    ghost predicate Valid()
      reads this
    {
      forall h :: h in live ==> h < next
    }

    constructor ()
      ensures Valid() && live == map[]
    {
      live := map[];
      next := 0;
    }

    /** Request a block of `size` bytes; the allocator may refuse (NULL). */
    method Alloc(size: nat) returns (h: Handle, ok: bool)
      requires Valid()
      modifies this
      ensures Valid()
      ensures ok ==> h !in old(live) && live == old(live)[h := size]
      ensures !ok ==> live == old(live)
    {
      h := next;
      if * {
        live := live[h := size];
        next := next + 1;
        ok := true;
      } else {
        ok := false;
      }
    }

    /** `memory_free`: release a live block whatever its size. */
    method Free(h: Handle)
      requires Valid() && h in live
      modifies this
      ensures Valid()
      ensures live == old(live) - {h}
    {
      live := live - {h};
    }

    /** `memory_free_module(base, size)`: release a module region, naming its size,
        which must be the size the region was requested with. */
    method FreeModule(h: Handle, size: nat)
      requires Valid() && h in live && live[h] == size
      modifies this
      ensures Valid()
      ensures live == old(live) - {h}
    {
      live := live - {h};
    }
  }
}
