/**
 * A `sync.Pool` used sequentially: a free list of objects put back by
 * their users. `Get` hands out the most recently put object, or reports a
 * miss so that the caller allocates a fresh one (the pool's `New`).
 * The ghost counters record how many objects were taken and put back, so
 * that every caller can state that each `Get` is matched by its `Put`.
 */
module Pooling {
  import opened Wire

  class Pool<T(==)> {
    var free: seq<T>
    ghost var gets: nat
    ghost var puts: nat

    /** No object sits in the free list twice. */
    ghost predicate Distinct()
      reads this
    {
      forall i, j :: 0 <= i < j < |free| ==> free[i] != free[j]
    }

    constructor ()
      ensures free == [] && gets == 0 && puts == 0
    {
      free := [];
      gets, puts := 0, 0;
    }

    method Get() returns (x: Option<T>)
      requires Distinct()
      modifies this
      ensures Distinct()
      ensures gets == old(gets) + 1 && puts == old(puts)
      ensures old(free) == [] ==> x == None && free == []
      ensures old(free) != [] ==>
        var n := |old(free)| - 1;
        x == Some(old(free)[n]) && free == old(free)[..n] && x.value !in free
    {
      if free == [] {
        x := None;
      } else {
        var n := |free| - 1;
        x := Some(free[n]);
        free := free[..n];
      }
      gets := gets + 1;
    }

    method Put(x: T)
      requires Distinct() && x !in free
      modifies this
      ensures Distinct()
      ensures free == old(free) + [x]
      ensures puts == old(puts) + 1 && gets == old(gets)
    {
      free := free + [x];
      puts := puts + 1;
    }
  }
}
