/** The growable arrays of src/fast_array.c on a pool. */
module PoolArray {
  import opened MemoryPool

  class Array {
    const pool: Pool
    const size: nat
    var elts: nat
    var nelts: nat
    var nalloc: nat

    /** The memory that the array owns. */
    ghost function Own(): Region
      reads this`elts, this`nalloc
    {
      Region(elts, size * nalloc)
    }

    /** The array owns a live piece of its pool that holds its elements. */
    ghost predicate Valid()
      reads this, pool, pool.blocks, pool.memory
    {
      pool.Valid() && size > 0 && 0 < nalloc && nelts <= nalloc && Own() in pool.Live()
    }

    /** The bytes of the elements, one element after the other. */
    ghost function Contents(): seq<bv8>
      reads this`elts, this`nelts, pool.memory`cell
    {
      Bytes(pool.memory, elts, size * nelts)
    }

    /** A zeroed structure. */
    constructor (pool: Pool, size: nat)
      ensures this.pool == pool && this.size == size && nelts == 0 && nalloc == 0
    {
      this.pool, this.size, elts, nelts, nalloc := pool, size, 0, 0, 0;
    }

    /** array_init: room for `n` elements. */
    method Init(n: nat) returns (ok: bool)
      requires pool.Valid()
      modifies this, pool, pool.blocks, pool.memory`regions, pool.memory`top, pool.memory`refusals, pool.memory`room
      ensures n == 0 || size == 0 ==> !ok
      ensures !ok && n > 0 && size > 0 ==> pool.memory.refusals > old(pool.memory.refusals)
      ensures pool.Kept() && old(pool.Live()) <= pool.Live()
      ensures ok ==> Valid() && Contents() == [] && nalloc == n && Own() !in old(pool.Live())
    {
      hide Pool.Live, Pool.Linked, Pool.Filled, Pool.Large;
      if n == 0 || size == 0 {
        return false;
      }
      nelts, nalloc := 0, n;
      Commute(n, size);
      var p := AllocFor(n * size);
      if p.None? {
        return false;
      }
      elts := p.value;
      ok := true;
    }

    /** A piece of the pool for the elements. */
    method AllocFor(n: nat) returns (p: Option)
      requires pool.Valid()
      modifies pool, pool.blocks, pool.memory`regions, pool.memory`top, pool.memory`refusals, pool.memory`room
      ensures pool.Kept() && old(pool.Live()) <= pool.Live()
      ensures p.None? && n > 0 ==> pool.memory.refusals > old(pool.memory.refusals)
      ensures p.Some? ==> n > 0 && Region(p.value, n) in pool.Live() && Region(p.value, n) !in old(pool.Live())
    {
      hide Pool.Live, Pool.Linked, Pool.Filled, Pool.Large;
      ghost var node;
      p, node := pool.Alloc(n);
    }

    /** memory_memcpy between two regions that do not overlap. */
    method Copy(to: nat, from: nat, n: nat)
      requires Apart(Region(to, n), Region(from, n))
      modifies pool.memory`cell
      ensures Bytes(pool.memory, to, n) == old(Bytes(pool.memory, from, n))
      ensures forall x: nat :: !(to <= x < to + n) ==> pool.memory.cell(x) == old(pool.memory.cell)(x)
    {
      var f := pool.memory.cell;
      pool.memory.cell := (x: nat) => if to <= x < to + n && x + from >= to then f(from + x - to) else f(x);
    }

    /** The other live pieces are still there, with their bytes. */
    twostate predicate OthersKept()
      reads this, pool, pool.blocks, pool.memory
    {
      forall a :: a in old(pool.Live()) && a != old(Own()) ==>
        a in pool.Live() && forall x: nat :: a.base <= x < a.base + a.size ==> pool.memory.cell(x) == old(pool.memory.cell)(x)
    }

    /** The array ends where the first block of its pool is filled to, and there is room behind it. */
    method GrowInPlace()
      requires Valid() && Own().base + Own().size == pool.first.last && pool.first.last + size <= pool.first.end
      modifies this`nalloc, pool.blocks`last, pool.blocks`allocs
      ensures Valid() && nalloc == old(nalloc) + 1 && pool.blocks == old(pool.blocks)
      ensures pool.Live() == old(pool.Live()) - {old(Own())} + {Own()}
    {
      hide Pool.Live, Pool.Filled, Pool.Large;
      Longer(size, nalloc);
      assert pool.first in pool.blocks by { assert pool.blocks[0] == pool.first; }
      pool.ExtendFirst(size, Own());
      nalloc := nalloc + 1;
    }

    lemma Longer(size: nat, n: nat)
      requires n > 0 && size > 0
      ensures size * n + size == size * (n + 1) && size * n > 0 && 2 * (size * n) == size * (n * 2)
    {
    }

    /** The array moves to a new piece of twice its size. */
    method Move() returns (ok: bool)
      requires Valid() && nelts == nalloc
      modifies this`elts, this`nalloc, pool, pool.blocks, pool.memory
      ensures Valid() && pool.Kept() && OthersKept()
      ensures !ok ==> elts == old(elts) && nalloc == old(nalloc) && pool.memory.cell == old(pool.memory.cell)
      ensures !ok ==> pool.memory.refusals > old(pool.memory.refusals)
      ensures ok ==> nalloc == 2 * old(nalloc) && Contents() == old(Contents())
    {
      hide Pool.Live, Pool.Valid;
      Longer(size, nalloc);
      var n := size * nalloc;
      ghost var own := Own();
      var p := AllocFor(2 * n);
      ok := p.Some?;
      if ok {
        ghost var place := Region(p.value, 2 * n);
        pool.LiveApart(own, place);
        ApartWithin(own, own, Region(p.value, n), place);
        forall a | a in old(pool.Live()) ensures Apart(a, place) {
          pool.LiveApart(a, place);
        }
        Copy(p.value, elts, n);
        elts := p.value;
        nalloc := nalloc * 2;
      }
    }

    /** The array ends where the first block of the pool is filled to, with room for one more element. */
    ghost predicate AtFront()
      reads this`elts, this`nalloc, pool.first`last
    {
      elts + size * nalloc == pool.first.last && pool.first.last + size <= pool.first.end
    }

    /** array_push: the place for one more element; the elements so far stay what they are,
        whether the array grows in place or moves, and no other live piece changes. */
    method Push() returns (elt: Option)
      requires Valid()
      modifies this, pool, pool.blocks, pool.memory
      ensures Valid() && OthersKept()
      ensures elt.None? ==> pool.memory.refusals > old(pool.memory.refusals)
      ensures elt.None? ==> nelts == old(nelts) && Contents() == old(Contents()) && pool.memory.cell == old(pool.memory.cell)
      ensures elt.Some? && (old(nelts) < old(nalloc) || old(AtFront())) ==> elts == old(elts)
      ensures elt.Some? ==>
        nalloc == if old(nelts) < old(nalloc) then old(nalloc) else if old(AtFront()) then old(nalloc) + 1 else 2 * old(nalloc)
      ensures elt.Some? ==> nelts == old(nelts) + 1 && var n := |old(Contents())|;
        n == size * old(nelts) && elt.value == elts + n && Bytes(pool.memory, elts, n) == old(Contents())
    {
      hide Pool.Live, Pool.Valid, Contents;
      ContentsAre();
      var ok := Grow();
      if !ok {
        return None;
      }
      elt := Some(elts + size * nelts);
      ContentsAre();
      nelts := nelts + 1;
    }

    lemma ContentsAre()
      ensures Contents() == Bytes(pool.memory, elts, size * nelts)
    {
    }

    /** Makes room for one more element. */
    method Grow() returns (ok: bool)
      requires Valid()
      modifies this`elts, this`nalloc, pool, pool.blocks, pool.memory
      ensures Valid() && OthersKept() && Contents() == old(Contents()) && (ok ==> nelts < nalloc)
      ensures ok && (old(nelts) < old(nalloc) || old(AtFront())) ==> elts == old(elts)
      ensures ok ==>
        nalloc == if old(nelts) < old(nalloc) then old(nalloc) else if old(AtFront()) then old(nalloc) + 1 else 2 * old(nalloc)
      ensures !ok ==> pool.memory.cell == old(pool.memory.cell) && pool.memory.refusals > old(pool.memory.refusals)
      ensures !ok ==> elts == old(elts) && nalloc == old(nalloc) == nelts && !old(AtFront())
    {
      hide Pool.Live, Pool.Valid, Contents;
      if nelts < nalloc {
        return true;
      }
      var n := size * nalloc;
      if elts + n == pool.first.last && pool.first.last + size <= pool.first.end {
        GrowInPlace();
        return true;
      }
      ok := Move();
    }

    /** A push and the stores into the new element append its bytes. */
    method Append(v: seq<bv8>) returns (ok: bool)
      requires Valid() && |v| == size
      modifies this, pool, pool.blocks, pool.memory
      ensures Valid() && (!ok ==> pool.memory.refusals > old(pool.memory.refusals))
      ensures Contents() == if ok then old(Contents()) + v else old(Contents())
    {
      hide Pool.Live, Pool.Valid, AtFront;
      ghost var before := nelts;
      var elt := Push();
      ok := elt.Some?;
      if ok {
        var f, at := pool.memory.cell, elt.value;
        Next(size, before);
        pool.memory.cell := (x: nat) => if at <= x < at + |v| then v[x - at] else f(x);
        assert Contents()[..size * before] == old(Contents());
        assert Contents()[size * before..] == v;
      }
    }

    lemma Next(size: nat, n: nat)
      ensures size * n + size == size * (n + 1)
    {
    }
  }

  lemma Commute(n: nat, size: nat)
    requires n > 0 && size > 0
    ensures n * size == size * n > 0
  {
  }

  /** An array without a pool: its elements have a region of the memory, and it never grows. */
  class Plain {
    const memory: Memory
    const size: nat
    var elts: nat
    var nelts: nat
    var nalloc: nat

    ghost function Own(): Region
      reads this`elts, this`nalloc
    {
      Region(elts, size * nalloc)
    }

    ghost predicate Valid()
      reads this, memory
    {
      memory.Valid() && size > 0 && 0 < nalloc && nelts <= nalloc && Own() in memory.regions
    }

    ghost function Contents(): seq<bv8>
      reads this`elts, this`nelts, memory`cell
    {
      Bytes(memory, elts, size * nelts)
    }

    constructor (memory: Memory, size: nat)
      ensures this.memory == memory && this.size == size && nelts == 0 && nalloc == 0
    {
      this.memory, this.size, elts, nelts, nalloc := memory, size, 0, 0, 0;
    }

    /** array_init */
    method Init(n: nat) returns (ok: bool)
      requires memory.Valid()
      modifies this, memory`regions, memory`top, memory`refusals, memory`room
      ensures memory.Valid() && (n == 0 || size == 0 ==> !ok)
      ensures !ok ==> memory.regions == old(memory.regions)
      ensures !ok && n > 0 && size > 0 ==> memory.refusals > old(memory.refusals)
      ensures ok ==> Valid() && Contents() == [] && nalloc == n
      ensures ok ==> Own() !in old(memory.regions) && memory.regions == old(memory.regions) + {Own()}
    {
      if n == 0 || size == 0 {
        return false;
      }
      nelts, nalloc := 0, n;
      Commute(n, size);
      var p := memory.Alloc(n * size);
      if p.None? {
        return false;
      }
      elts := p.value;
      ok := true;
    }

    /** array_push: the place for one more element, unless the array is full. */
    method Push() returns (elt: Option)
      requires Valid()
      modifies this`nelts
      ensures Valid() && (elt.None? <==> old(nelts) == nalloc)
      ensures elt.None? ==> nelts == old(nelts)
      ensures elt.Some? ==> nelts == old(nelts) + 1 && var n := |old(Contents())|;
        elt.value == elts + n && elt.value + size <= Own().base + Own().size && Contents()[..n] == old(Contents())
    {
      if nelts == nalloc {
        return None;
      }
      elt := Some(elts + size * nelts);
      Fits(size, nelts, nalloc);
      nelts := nelts + 1;
    }

    lemma Fits(size: nat, n: nat, m: nat)
      requires n < m
      ensures size * n + size == size * (n + 1) <= size * m
    {
    }

    /** array_destroy: the region goes back to the memory, and nothing else does. */
    method Destroy()
      requires Valid()
      modifies memory`regions, memory`room
      ensures memory.Valid() && memory.regions == old(memory.regions) - {Own()}
    {
      memory.Free(elts, size * nalloc);
    }
  }

  /** `n` bytes of the memory. */
  ghost function Bytes(m: Memory, from: nat, n: nat): (s: seq<bv8>)
    reads m`cell
    ensures |s| == n
  {
    var f := m.cell;
    seq(n, i requires 0 <= i < n => f(from + i))
  }
}
