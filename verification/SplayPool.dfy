/** The free list of src/splay.c and its two counters, chained over the uplinks. */
module SplayPool {
  import opened SplayTrees

  const SP_ALLOC_N := 200

  /** `s` are the nodes on the uplink chain from `head`, each once. */
  ghost predicate Chain(s: seq<Node>, head: Node?)
    reads s`up
  {
    if s == [] then head == null
    else head == s[0] && s[0] !in s[1..] && Chain(s[1..], s[0].up)
  }

  class Pool {
    var freeList: Node?
    var spAllocated: int
    var spEntries: int
    ghost var free: seq<Node>

    /** The chain is intact, and every node ever allocated is in use or free. */
    ghost predicate Valid()
      reads this, free`up
    {
      && Chain(free, freeList)
      && spAllocated == spEntries + |free|
    }

    constructor ()
      ensures Valid() && free == [] && spAllocated == 0
    {
      freeList, spAllocated, spEntries, free := null, 0, 0, [];
    }

    /** sp_free_blk */
    method FreeBlk(n: Node)
      requires Valid() && n !in free
      modifies this`freeList, this`spEntries, this`free, n`up
      ensures Valid() && free == [n] + old(free)
      ensures spAllocated == old(spAllocated) && spEntries == old(spEntries) - 1
    {
      n.up := freeList;
      freeList := n;
      spEntries := spEntries - 1;
      free := [n] + free;
      assert free[1..] == old(free);
    }

    /** sp_alloc_blk */
    method AllocBlk() returns (p: Node)
      requires Valid()
      modifies this`freeList, this`spAllocated, this`spEntries, this`free
      ensures Valid() && p !in free && spEntries == old(spEntries) + 1
      ensures (p in old(free) || fresh(p)) && forall x :: x in free ==> x in old(free) || fresh(x)
      ensures forall x :: x in old(free) ==> x == p || x in free
      ensures old(free) != [] ==> [p] + free == old(free) && spAllocated == old(spAllocated)
      ensures old(free) == [] ==>
                fresh(p) && fresh(free) && |free| == 199 && spAllocated == old(spAllocated) + 200
    {
      if freeList == null {
        for i := 0 to SP_ALLOC_N
          invariant Valid() && |free| == i && fresh(free) && spEntries == old(spEntries)
          invariant spAllocated == old(spAllocated) + i
        {
          ghost var was := free;
          var q := new Node();
          q.up := freeList;
          freeList := q;
          spAllocated := spAllocated + 1;
          free := [q] + free;
          assert free[1..] == was;
        }
      }
      p := freeList;
      freeList := p.up;
      spEntries := spEntries + 1;
      free := free[1..];
    }
  }
}
