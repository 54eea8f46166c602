/** The allocator table that src/fast_slabs.c calls through: either the shared-memory allocator, or
    any other allocator, of which only is known that its pieces do not overlap and that it may
    refuse. */
module SlabAllocator {
  import opened ShmemState
  import Shmem

  class Allocator {
    const shm: Shmem.Shmem?  // null for another allocator
    const splits: bool       // whether the table has an entry for split_alloc
    var top: nat
    ghost var pieces: map<nat, nat>
    ghost var refusals: nat

    ghost predicate Valid()
      reads this, shm
    {
      if shm != null then shm.Valid() else
        && (forall a :: a in pieces ==> a + pieces[a] < top)
        && (forall a, b :: a in pieces && b in pieces && a != b ==> a + pieces[a] <= b || b + pieces[b] <= a)
    }

    /** The piece at `a` is allocated and has at least `n` bytes. */
    ghost predicate Holds(a: nat, n: nat)
      reads this, shm
    {
      if shm != null then
        var h := shm.config.header;
        a >= h && a - h in Live(shm.blocks) && Live(shm.blocks)[a - h].size >= n
      else a in pieces && pieces[a] >= n
    }

    /** Every piece with every size that it has at least. */
    ghost function Held(): iset<(nat, nat)>
      reads this, shm
    {
      iset p: (nat, nat) | Holds(p.0, p.1)
    }

    /** A request that was just refused would be refused again by the shared-memory allocator. */
    ghost predicate Refuses(size: nat)
      reads this, shm
    {
      shm != null ==> !shm.Servable(size)
    }

    twostate predicate Unchanged()
      reads this, shm
    {
      pieces == old(pieces) && refusals == old(refusals) && (shm != null ==> shm.Now() == old(shm.Now()))
    }

    /** The same pieces are allocated, but for those at the addresses `except`. */
    twostate predicate Kept(new except: set<nat>)
      reads this, shm
    {
      forall a, n :: a !in except ==> (Holds(a, n) <==> old(Holds(a, n)))
    }

    /** The pieces freed and granted, as a relation between what is held before and after. */
    twostate lemma KeptMoves(new except: set<nat>)
      requires Kept(except)
      ensures Moves(old(Held()), Held(), {}, except)
      ensures (forall a :: a in except ==> !Holds(a, 0)) ==> Moves(old(Held()), Held(), except, {})
    {
      forall a | !Holds(a, 0) ensures forall n :: !Holds(a, n) {
        NotHeld(a);
      }
    }

    constructor (shm: Shmem.Shmem?, splits: bool)
      requires shm != null ==> shm.Valid()
      ensures this.shm == shm && this.splits == splits && Valid() && (shm == null ==> forall a, n :: !Holds(a, n))
    {
      this.shm, this.splits, top := shm, splits, 0;
      pieces, refusals := map[], 0;
    }

    /** Allocated pieces do not overlap. */
    lemma HeldApart(a: nat, m: nat, b: nat, n: nat)
      requires Valid() && Holds(a, m) && Holds(b, n) && a != b
      ensures a + m <= b || b + n <= a
      ensures shm != null ==> var c := shm.config;
        && c.base + c.header <= a && a + m <= c.total
        && (a + m + c.header <= b || b + n + c.header <= a)
    {
      hide Merged, Listed, Avail, Tiled;
      if shm != null {
        var h := shm.config.header;
        Disjoint(shm.config, shm.Now(), a - h, b - h);
      }
    }

    lemma HoldsLess(a: nat, m: nat, n: nat)
      requires Holds(a, n) && m <= n
      ensures Holds(a, m)
    {
    }

    lemma NotHeld(a: nat)
      requires !Holds(a, 0)
      ensures forall n :: !Holds(a, n)
    {
    }

    /** The alloc entry. */
    method Alloc(size: nat) returns (p: Option)
      requires Valid()
      modifies this, shm
      ensures Valid()
      ensures p.None? ==> Refuses(size) && refusals == old(refusals) + 1 && Kept({})
      ensures p.None? && shm != null ==> shm.Now() == old(shm.Now())
      ensures p.Some? ==> refusals == old(refusals) && !old(Holds(p.value, 0)) && Holds(p.value, size) && Kept({p.value})
      ensures shm != null ==> (p.Some? <==> old(shm.Servable(size)))
    {
      hide CanServe, FirstFound, Shmem.Shmem.Valid, Live;
      p := None;
      if shm != null {
        ghost var h := shm.Now();
        var e;
        p, e := shm.Alloc(size);
        if p.Some? {
          FreeNotLive(h, p.value - shm.config.header, size);
        }
      } else {
        var grant: bool := *;
        if grant {
          p := Some(top);
          pieces := pieces[top := size];
          top := top + size + 1;
        }
      }
      if p.None? {
        refusals := refusals + 1;
      }
    }

    /** The split_alloc entry: one piece of at least `least` bytes, from the shared-memory
        allocator a largest free block. */
    method SplitAlloc(least: nat) returns (p: Option, size: nat)
      requires Valid() && splits
      modifies this, shm
      ensures Valid()
      ensures p.None? ==> refusals == old(refusals) + 1 && Kept({})
      ensures p.None? && shm != null ==> shm.Now() == old(shm.Now())
      ensures p.Some? ==> refusals == old(refusals) && !old(Holds(p.value, 0)) && Holds(p.value, size) && size >= least && Kept({p.value})
      ensures shm != null ==> (p.Some? <==> exists x :: Fits(old(shm.Now()), x, least))
      ensures shm != null && p.Some? ==> forall x :: Fits(old(shm.Now()), x, 0) ==> old(shm.blocks)[x].size <= size
    {
      hide CanServe, Shmem.Shmem.Valid, Live;
      p, size := None, least;
      if shm != null {
        ghost var h := shm.Now();
        var e;
        p, size, e := shm.SplitAlloc(least);
        if p.Some? {
          FreeNotLive(h, p.value - shm.config.header, least);
        }
      } else {
        var grant: bool := *;
        if grant {
          size :| size >= least;
          p := Some(top);
          pieces := pieces[top := size];
          top := top + size + 1;
        }
      }
      if p.None? {
        refusals := refusals + 1;
      }
    }

    /** The free entry. */
    method Free(p: nat)
      requires Valid() && Holds(p, 0)
      modifies this, shm
      ensures Valid() && refusals == old(refusals) && Kept({p}) && !Holds(p, 0)
    {
      hide Shmem.Shmem.Valid, Live;
      if shm != null {
        LiveIs(shm.blocks, p - shm.config.header);
        var e := shm.Free(p);
      } else {
        pieces := pieces - {p};
      }
    }
  }

  /** From `before` to `after` exactly the pieces at `gone` are freed, and nothing else changes but
      at the addresses `granted`. */
  ghost predicate Moves(before: iset<(nat, nat)>, after: iset<(nat, nat)>, gone: set<nat>, granted: set<nat>)
  {
    forall p: (nat, nat) :: p.0 !in granted ==> (p in after <==> p in before && p.0 !in gone)
  }

  lemma MovesOn(h0: iset<(nat, nat)>, h1: iset<(nat, nat)>, h2: iset<(nat, nat)>, k0: set<nat>, k1: set<nat>, k2: set<nat>, granted: set<nat>)
    requires Moves(h0, h1, k0 - k1, {}) && Moves(h1, h2, k1 - k2, granted) && k2 <= k1 <= k0
    ensures Moves(h0, h2, k0 - k2, granted)
  {
  }

  /** What is not held after pieces were freed was not held before, or is one of them. */
  lemma MovesNew(before: iset<(nat, nat)>, after: iset<(nat, nat)>, gone: set<nat>, a: nat)
    requires Moves(before, after, gone, {}) && (a, 0) !in after
    ensures a in gone || (a, 0) !in before
  {
  }

  lemma MovesWeaker(before: iset<(nat, nat)>, after: iset<(nat, nat)>, gone: set<nat>, granted: set<nat>, gone': set<nat>, granted': set<nat>)
    requires Moves(before, after, gone, granted) && granted <= granted' && gone' == gone - granted'
    ensures Moves(before, after, gone', granted')
  {
  }

  lemma MovesNot(h: iset<(nat, nat)>, k: set<nat>)
    ensures Moves(h, h, k - k, {})
  {
  }

  lemma FreeNotLive(h: Heap, x: nat, size: nat)
    requires Fits(h, x, size)
    ensures x !in Live(h.blocks)
  {
  }

  lemma LiveIs(blocks: map<nat, Block>, x: nat)
    requires x in Live(blocks)
    ensures x in blocks && blocks[x].alloc
  {
  }
}
