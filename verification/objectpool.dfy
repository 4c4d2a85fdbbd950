/** The recycling allocator of nc_core.h (NcObjectPool). Freed objects are
    kept in a FIFO free list and handed out again, oldest first, exactly as
    they were freed: nothing is reset on the way out. When the free list is
    empty a new object is made; `made` is what that allocation produced,
    `None` standing for an allocation that failed. */
module ObjectPool {
  import opened Common

  datatype Pool<T> = Pool(free: seq<T>, nfree: nat, current: Option<T>)

  /** A pool with nothing in it yet. */
  function EmptyPool<T>(): (p: Pool<T>)
    ensures p.free == [] && p.nfree == 0 && p.current.None?
  {
    Pool([], 0, None)
  }

  /** Checkout: the head of the free list if there is one, else `made`.
      The object handed out becomes `current`; the free counter is not
      decremented. */
  function Alloc<T>(p: Pool<T>, made: Option<T>): (r: (Pool<T>, Option<T>))
    ensures p.free != [] ==> r.1 == Some(p.free[0]) && r.0.free == p.free[1..]
    ensures p.free == [] ==> r.1 == made && r.0.free == []
    ensures r.0.current == r.1 && r.0.nfree == p.nfree
  {
    if p.free != [] then
      (p.(free := p.free[1..], current := Some(p.free[0])), Some(p.free[0]))
    else
      (p.(current := made), made)
  }

  /** Return: a NULL object is ignored; otherwise it joins the tail of the
      free list and the 32-bit free counter goes up by one. */
  function Free<T>(p: Pool<T>, o: Option<T>): (r: Pool<T>)
    ensures o.None? ==> r == p
    ensures o.Some? ==> r.free == p.free + [o.value] && r.nfree == U32(p.nfree + 1)
    ensures r.current == p.current
  {
    match o
    case None => p
    case Some(x) => p.(free := p.free + [x], nfree := U32(p.nfree + 1))
  }

  /** What is freed into an empty free list is the next thing allocated,
      unchanged. */
  lemma AllocReturnsFreed<T>(p: Pool<T>, x: T, made: Option<T>)
    requires p.free == []
    ensures Alloc(Free(p, Some(x)), made).1 == Some(x)
    ensures Alloc(Free(p, Some(x)), made).0.free == []
  {
  }

  /** First in, first out: allocating after a free still yields the oldest
      freed object, and the newly freed one waits at the tail. */
  lemma AllocIsFifo<T>(p: Pool<T>, x: T, made: Option<T>)
    requires p.free != []
    ensures Alloc(Free(p, Some(x)), made).1 == Some(p.free[0])
    ensures Alloc(Free(p, Some(x)), made).0.free == Alloc(p, made).0.free + [x]
  {
  }

  /** The free list does not guard against double frees. */
  lemma DoubleFreeQueuesTwice<T>(p: Pool<T>, x: T)
    ensures Free(Free(p, Some(x)), Some(x)).free == p.free + [x, x]
  {
  }
}
