/** The pool allocator of src/fast_memory_pool.c: blocks that are filled from the front, and
    large pieces of their own. */
module MemoryPool {

  const ALIGN := 8
  const POOL_SIZE := 56       // sizeof(pool_t)
  const POOL_DATA_SIZE := 24  // sizeof(pool_data_t)
  const LARGE_SIZE := 24      // sizeof(pool_large_t)

  datatype Option = None | Some(value: nat)

  /** The addresses from `base` on. */
  datatype Region = Region(base: nat, size: nat)

  predicate Apart(a: Region, b: Region)
  {
    a.base + a.size <= b.base || b.base + b.size <= a.base
  }

  predicate Within(a: Region, b: Region)
  {
    b.base <= a.base && a.base + a.size <= b.base + b.size
  }

  lemma ApartWithin(a: Region, b: Region, c: Region, d: Region)
    requires Within(a, b) && Within(c, d) && Apart(b, d)
    ensures Apart(a, c)
  {
  }

  /** fast_align_ptr */
  function AlignPtr(p: nat): (r: nat)
    ensures p <= r < p + ALIGN && r % ALIGN == 0
  {
    (p + (ALIGN - 1)) / ALIGN * ALIGN
  }

  /** The memory behind the pools: regions that memory_alloc handed out and nobody freed, how often
      it has refused, and the bytes that are left. */
  class Memory {
    ghost var regions: set<Region>
    ghost var refusals: nat
    var top: nat
    var room: nat
    var cell: nat -> bv8  // the bytes of the pieces

    ghost predicate Valid()
      reads this`regions, this`top
    {
      && (forall r :: r in regions ==> r.size > 0 && r.base + r.size <= top)
      && (forall r, s :: r in regions && s in regions && r != s ==> Apart(r, s))
    }

    constructor (room: nat)
      ensures Valid() && regions == {} && this.room == room
    {
      this.room, regions, refusals, top, cell := room, {}, 0, 0, x => 0;
    }

    /** memory_alloc: an aligned region apart from all others, or nothing. */
    method Alloc(size: nat) returns (p: Option)
      requires Valid() && size > 0
      modifies this`regions, this`top, this`refusals, this`room
      ensures Valid() && refusals == old(refusals) + if p.None? then 1 else 0
      ensures p.None? ==> regions == old(regions) && room == old(room)
      ensures p.Some? ==> room == old(room) - size && p.value % ALIGN == 0 && Region(p.value, size) !in old(regions) && regions == old(regions) + {Region(p.value, size)}
      ensures p.Some? ==> forall r :: r in old(regions) ==> Apart(r, Region(p.value, size))
    {
      var refuse: bool := *;
      if refuse || room < size {
        refusals := refusals + 1;
        return None;
      }
      var base := AlignPtr(top);
      top, room := base + size, room - size;
      regions := regions + {Region(base, size)};
      p := Some(base);
    }

    /** memory_free */
    method Free(base: nat, size: nat)
      requires Valid() && Region(base, size) in regions
      modifies this`regions, this`room
      ensures Valid() && regions == old(regions) - {Region(base, size)} && room == old(room) + size
    {
      regions, room := regions - {Region(base, size)}, room + size;
    }
  }

  /** A block, its header of `head` bytes, and its payload; `allocs` are the pieces handed out. */
  class Block {
    const base: nat
    const head: nat
    const end: nat
    var last: nat
    var next: Block?
    ghost var allocs: set<Region>

    ghost function Extent(): Region
    {
      Region(base, if end >= base then end - base else 0)
    }

    ghost function Payload(): Region
    {
      Region(base + head, if end >= base + head then end - base - head else 0)
    }

    ghost predicate Valid()
      reads this`last, this`allocs
    {
      && base % ALIGN == 0 && head > 0 && base + head <= last <= end
      && (forall a :: a in allocs ==> a.size > 0 && a.base % ALIGN == 0 && base + head <= a.base && a.base + a.size <= last)
      && (forall a, b :: a in allocs && b in allocs && a != b ==> Apart(a, b))
    }

    constructor (base: nat, size: nat, head: nat)
      requires base % ALIGN == 0 && 0 < head <= size
      ensures this.base == base && this.end == base + size && this.head == head && next == null
      ensures last == base + head && allocs == {} && Valid()
    {
      this.base, this.end, this.head, this.next := base, base + size, head, null;
      last, allocs := base + head, {};
    }

    /** Whether the block has room for `size` bytes. */
    ghost predicate Room(size: nat)
      reads this`last
    {
      AlignPtr(last) + size <= end
    }

    /** Hands out the `size` bytes from `m` on. */
    method Take(m: nat, size: nat)
      requires Valid() && size > 0 && m == AlignPtr(last) && m + size <= end
      modifies this`last, this`allocs
      ensures Valid() && Region(m, size) !in old(allocs) && allocs == old(allocs) + {Region(m, size)} && last == m + size
    {
      last := m + size;
      allocs := allocs + {Region(m, size)};
    }

    /** Lengthens the piece at the front by `n` bytes. */
    method Extend(n: nat, ghost a: Region)
      requires Valid() && a in allocs && a.base + a.size == last && last + n <= end
      modifies this`last, this`allocs
      ensures Valid() && last == old(last) + n && allocs == old(allocs) - {a} + {Region(a.base, a.size + n)}
    {
      assert forall b :: b in allocs && b != a ==> Apart(b, a);
      last := last + n;
      allocs := allocs - {a} + {Region(a.base, a.size + n)};
    }
  }

  class Pool {
    const memory: Memory
    const first: Block
    const max: nat
    var current: Block
    var large: seq<Region>
    ghost var blocks: seq<Block>
    ghost var at: nat

    /** The blocks are linked in the order of `blocks`, and `current` is one of them. */
    ghost predicate Linked()
      reads this`blocks, this`current, this`at, blocks`next
    {
      && at < |blocks| && current == blocks[at] && blocks[0] == first
      && (forall i {:trigger blocks[i].next} :: 0 <= i < |blocks| ==> blocks[i].next == Next(i))
      && (forall i, j :: 0 <= i < j < |blocks| ==> blocks[i] != blocks[j])
    }

    ghost function Next(i: nat): Block?
      reads this`blocks
    {
      if i + 1 < |blocks| then blocks[i + 1] else null
    }

    /** Every block is a region of the memory, and all have the size of the first. */
    ghost predicate Filled()
      reads this`blocks, blocks`last, blocks`allocs, memory`regions
    {
      && (forall b :: b in blocks ==> b.Valid() && b.Extent() in memory.regions && b.Extent().size == first.Extent().size)
      && (forall i, j :: 0 <= i < j < |blocks| ==> blocks[i].base != blocks[j].base)
      && (forall i :: 0 <= i < |blocks| ==> blocks[i].head == if i == 0 then POOL_SIZE else POOL_DATA_SIZE)
    }

    /** Large pieces are regions of their own. */
    ghost predicate Large()
      reads this`blocks, this`large, memory`regions
    {
      && (forall r :: r in large ==> r in memory.regions && r.base % ALIGN == 0 && forall b :: b in blocks ==> b.base != r.base)
      && (forall i, j :: 0 <= i < j < |large| ==> large[i] != large[j])
    }

    ghost predicate Valid()
      reads this, blocks, memory`regions, memory`top
    {
      memory.Valid() && Linked() && Filled() && Large() && max + POOL_SIZE <= first.Extent().size
    }

    /** The pieces that are handed out: those in blocks and the large ones. */
    ghost function Live(): set<Region>
      reads this`blocks, this`large, blocks`allocs
    {
      (set i, a | 0 <= i < |blocks| && a in blocks[i].allocs :: a) + (set r | r in large)
    }

    /** The regions of the memory that the pool must free. */
    ghost function Owned(): set<Region>
      reads this`blocks, this`large
    {
      (set b | b in blocks :: b.Extent()) + (set r | r in large)
    }

    ghost function Foreign(): set<Region>
      reads this`blocks, this`large, memory`regions
    {
      memory.regions - Owned()
    }

    /** pool_create, once its memory is there. */
    constructor (memory: Memory, base: nat, size: nat, max: nat)
      requires memory.Valid() && base % ALIGN == 0 && Region(base, size) in memory.regions && max + POOL_SIZE <= size
      ensures Valid() && fresh(first) && this.memory == memory && this.max == max && Live() == {} && blocks == [first] && large == []
      ensures first.base == base && first.end == base + size
    {
      var b := new Block(base, size, POOL_SIZE);
      this.memory, this.first, this.max, current, large := memory, b, max, b, [];
      blocks, at := [b], 0;
    }

    lemma OneBlockForeign()
      requires blocks == [first] && large == []
      ensures Foreign() == memory.regions - {first.Extent()}
    {
      assert Owned() == {first.Extent()};
    }

    /** A piece of block `i` lies in that block. */
    lemma InBlock(a: Region, i: nat)
      requires Filled() && i < |blocks| && a in blocks[i].allocs
      ensures blocks[i] in blocks && Within(a, blocks[i].Payload()) && Within(a, blocks[i].Extent())
      ensures blocks[i].Extent() in memory.regions && a.base % ALIGN == 0
    {
      assert blocks[i] in blocks && blocks[i].Valid();
    }

    lemma InBlockIf(a: Region, j: nat)
      requires Filled() && j < |blocks|
      ensures a in blocks[j].allocs ==> Within(a, blocks[j].Extent())
    {
      if a in blocks[j].allocs {
        InBlock(a, j);
      }
    }

    lemma ExtentsApart(i: nat, j: nat)
      requires memory.Valid() && Filled() && i < |blocks| && j < |blocks| && i != j
      ensures Apart(blocks[i].Extent(), blocks[j].Extent())
    {
      assert blocks[i] in blocks && blocks[j] in blocks && blocks[i].base != blocks[j].base;
    }

    lemma BlocksApart(a: Region, i: nat, b: Region, j: nat)
      requires memory.Valid() && Filled() && i < |blocks| && j < |blocks|
      requires a in blocks[i].allocs && b in blocks[j].allocs && a != b
      ensures Apart(a, b)
    {
      InBlock(a, i);
      InBlock(b, j);
      assert blocks[i].Valid();
      if i != j {
        ExtentsApart(i, j);
      }
    }

    lemma LargeApart(a: Region, b: Region, j: nat)
      requires memory.Valid() && Filled() && Large() && a in large && j < |blocks| && b in blocks[j].allocs
      ensures Apart(a, b) && Apart(b, a)
    {
      InBlock(b, j);
      assert Apart(a, blocks[j].Extent());
    }

    /** Live pieces are aligned, lie behind the header of one block or are a region of their own,
        and do not overlap. */
    lemma LiveApart(a: Region, b: Region)
      requires Valid() && a in Live() && b in Live() && a != b
      ensures Apart(a, b) && a.base % ALIGN == 0
      ensures a in large || exists k: Block {:trigger k.Payload()} :: k in blocks && Within(a, k.Payload())
    {
      if a in large {
        if b !in large {
          var j :| 0 <= j < |blocks| && b in blocks[j].allocs;
          LargeApart(a, b, j);
        }
      } else {
        var i :| 0 <= i < |blocks| && a in blocks[i].allocs;
        InBlock(a, i);
        if b in large {
          LargeApart(b, a, i);
        } else {
          var j :| 0 <= j < |blocks| && b in blocks[j].allocs;
          BlocksApart(a, i, b, j);
        }
      }
    }

    lemma OnlyThere(i: nat, a: Region)
      requires memory.Valid() && Filled() && Large() && i < |blocks| && a in blocks[i].allocs && a.size > 0
      ensures a !in large && forall j :: 0 <= j < |blocks| && j != i ==> a !in blocks[j].allocs
    {
      InBlock(a, i);
      if a in large {
        LargeApart(a, a, i);
      }
      forall j | 0 <= j < |blocks| && j != i ensures a !in blocks[j].allocs {
        ExtentsApart(i, j);
        InBlockIf(a, j);
      }
    }

    /** Block `i` handed out one more piece. */
    twostate lemma TakenLive(new i: nat, new a: Region)
      requires blocks == old(blocks) && large == old(large) && i < |blocks|
      requires memory.Valid() && Filled() && Large() && a.size > 0
      requires a !in old(blocks[i].allocs) && blocks[i].allocs == old(blocks[i].allocs) + {a}
      requires forall j :: 0 <= j < |blocks| && j != i ==> blocks[j].allocs == old(blocks[j].allocs)
      ensures a !in old(Live()) && Live() == old(Live()) + {a}
    {
      OnlyThere(i, a);
      hide Large, Filled;
      forall r ensures r in Live() <==> r in old(Live()) || r == a {
        if r in old(Live()) && r !in large {
          var j :| 0 <= j < |blocks| && r in old(blocks[j].allocs);
          assert r in blocks[j].allocs;
        }
      }
    }

    /** Hands out a piece of block `i`. */
    method TakeFrom(p: Block, m: nat, size: nat, ghost i: nat)
      requires Valid() && size > 0 && i < |blocks| && p == blocks[i] && m == AlignPtr(p.last) && m + size <= p.end
      modifies blocks`last, blocks`allocs
      ensures Valid() && Region(m, size) !in old(Live()) && Live() == old(Live()) + {Region(m, size)} && m % ALIGN == 0
    {
      hide Linked;
      assert blocks[i] in blocks;
      p.Take(m, size);
      TakenLive(i, Region(m, size));
    }

    /** Block `i` is the first one with room, from the current one on. */
    ghost predicate FirstRoom(size: nat, i: nat)
      reads this`blocks, this`at, blocks`last
    {
      at <= i < |blocks| && blocks[i].Room(size) && forall k :: at <= k < i ==> !blocks[k].Room(size)
    }

    ghost predicate HasRoom(size: nat)
      reads this`blocks, this`at, blocks`last
    {
      exists i :: at <= i < |blocks| && blocks[i].Room(size)
    }

    /** Tries the blocks from the current one on. */
    method FromBlocks(size: nat) returns (r: Option, ghost i: nat)
      requires Valid() && size > 0
      modifies blocks`last, blocks`allocs
      ensures Valid() && blocks == old(blocks) && at == old(at)
      ensures r.None? ==> Live() == old(Live()) && forall b :: b in blocks ==> b.last == old(b.last)
      ensures r.Some? ==> r.value % ALIGN == 0 && Region(r.value, size) !in old(Live()) && Live() == old(Live()) + {Region(r.value, size)}
      ensures r.Some? <==> old(HasRoom(size))
      ensures r.Some? ==> i < |blocks| && old(FirstRoom(size, i)) && r.value == AlignPtr(old(blocks[i].last))
    {
      hide Filled, Large;
      var p: Block? := current;
      i := at;
      while p != null
        invariant at <= i <= |blocks| && p == (if i < |blocks| then blocks[i] else null)
        invariant forall k :: at <= k < i ==> !blocks[k].Room(size)
        decreases |blocks| - i
      {
        assert p.next == Next(i);
        var m := AlignPtr(p.last);
        if m < p.end && p.end - m >= size {
          assert FirstRoom(size, i);
          TakeFrom(p, m, size, i);
          return Some(m), i;
        }
        p := p.next;
        i := i + 1;
      }
      r := None;
    }

    /** A new region of the memory with one piece handed out of it. */
    ghost predicate IsNew(np: Block, a: Region)
      reads this`blocks, this`large, memory`regions, np
    {
      && np !in blocks && np.next == null && np.head == POOL_DATA_SIZE && np.Valid() && np.allocs == {a} && np.Extent() in memory.regions
      && np.Extent().size == first.Extent().size
      && (forall b :: b in blocks ==> b.base != np.base) && (forall r :: r in large ==> r.base != np.base)
    }

    /** One more block holds the one piece `a`. */
    twostate lemma AppendedLive(new np: Block, new a: Region)
      requires blocks == old(blocks) + [np] && large == old(large) && np.allocs == {a} && a.size > 0
      requires memory.Valid() && Filled() && Large()
      requires forall j :: 0 <= j < |old(blocks)| ==> blocks[j].allocs == old(blocks[j].allocs)
      ensures a !in old(Live()) && Live() == old(Live()) + {a}
    {
      var n := |old(blocks)|;
      assert blocks[n] == np;
      OnlyThere(n, a);
      hide Large, Filled;
      forall r ensures r in Live() <==> r in old(Live()) || r == a {
        if r in old(Live()) && r !in large {
          var j :| 0 <= j < n && r in old(blocks[j].allocs);
          assert r in blocks[j].allocs;
        }
      }
    }

    /** Puts a new block behind the last one, `p`. */
    method Append(p: Block, np: Block, ghost a: Region)
      requires Valid() && IsNew(np, a) && p == blocks[|blocks| - 1] && a.size > 0
      modifies p`next, this`blocks
      ensures Valid() && blocks == old(blocks) + [np] && a !in old(Live()) && Live() == old(Live()) + {a} && large == old(large)
      ensures at == old(at) && current == old(current) && Foreign() == old(Foreign()) - {np.Extent()}
    {
      hide Foreign, Live;
      ghost var n := |blocks|;
      p.next := np;
      blocks := blocks + [np];
      assert blocks[n] == np && forall i :: 0 <= i < n ==> blocks[i] == old(blocks)[i];
      assert Linked();
      assert Filled() && Large();
      AppendedForeign(old(blocks), np);
      AppendedLive(np, a);
    }

    twostate lemma AppendedForeign(new before: seq<Block>, new np: Block)
      requires before == old(blocks) && blocks == before + [np] && large == old(large) && memory.regions == old(memory.regions)
      ensures Foreign() == old(Foreign()) - {np.Extent()}
    {
      forall r ensures r in Owned() <==> r in old(Owned()) || r == np.Extent() {
        assert forall b :: b in blocks <==> b in before || b == np;
      }
    }

    /** The memory has one more region, `r`; the pool is as it was. */
    twostate predicate Granted(new r: Region)
      reads this, blocks, memory`regions, memory`top
    {
      && blocks == old(blocks) && large == old(large) && Linked()
      && (forall b :: b in blocks ==> b.last == old(b.last) && b.allocs == old(b.allocs))
      && memory.Valid() && r !in old(memory.regions) && memory.regions == old(memory.regions) + {r}
    }

    twostate lemma StillValid(new r: Region)
      requires old(Valid()) && Granted(r)
      ensures Valid()
    {
      hide Memory.Valid, Linked;
      assert forall b :: b in blocks ==> old(b.Valid()) && b.Valid();
    }

    twostate lemma MoreForeign(new r: Region)
      requires old(Valid()) && Granted(r)
      ensures Foreign() == old(Foreign()) + {r} && r !in old(Foreign()) && r !in Owned()
    {
      hide Filled, Large, Linked, Memory.Valid;
      assert old(Owned()) <= old(memory.regions) by { OldOwned(); }
      assert Owned() == old(Owned());
    }

    twostate lemma OldOwned()
      requires old(Valid())
      ensures old(Owned()) <= old(memory.regions)
    {
    }

    /** A region that the pool does not own starts where no region of the pool starts. */
    lemma NewBase(r: Region)
      requires Valid() && r in memory.regions && r !in Owned()
      ensures (forall b :: b in blocks ==> b.base != r.base) && (forall x :: x in large ==> x.base != r.base)
    {
      hide Linked;
      forall b | b in blocks ensures b.base != r.base {
        assert b.Valid() && b.Extent() in memory.regions && b.Extent() in Owned();
      }
      forall x | x in large ensures x.base != r.base {
        assert x in Owned();
      }
    }

    /** A new block for a piece of `size` bytes. */
    method NewBlock(size: nat) returns (np: Block?, m: nat)
      requires Valid() && 0 < size <= max
      modifies memory`regions, memory`top, memory`refusals, memory`room
      ensures Valid() && blocks == old(blocks)
      ensures np != null ==> fresh(np) && m % ALIGN == 0 && IsNew(np, Region(m, size)) && np.Extent() !in old(memory.regions)
      ensures old(memory.regions) <= memory.regions && Foreign() == old(Foreign()) + if np == null then {} else {np.Extent()}
      ensures np != null ==> np.Extent() !in old(Foreign()) && m == AlignPtr(np.base + POOL_DATA_SIZE)
      ensures memory.refusals == old(memory.refusals) + if np == null then 1 else 0
    {
      hide Linked, Foreign, Owned, Filled, Large, Memory.Valid;
      var psize := first.end - first.base;
      m := 0;
      assert blocks[0] in blocks && first.Valid() by { FirstBlock(); }
      var nm := memory.Alloc(psize);
      if nm.None? {
        return null, 0;
      }
      StillValid(Region(nm.value, psize));
      MoreForeign(Region(nm.value, psize));
      NewBase(Region(nm.value, psize));
      np := new Block(nm.value, psize, POOL_DATA_SIZE);
      m := AlignPtr(nm.value + POOL_DATA_SIZE);
      np.Take(m, size);
    }

    lemma FirstBlock()
      requires Linked() && Filled()
      ensures blocks[0] == first && first in blocks && first.Valid() && first.end >= first.base
    {
    }

    /** Block `i` has no room for one more unit of alignment. */
    ghost predicate Full(i: nat)
      reads this`blocks, blocks`last
      requires i < |blocks|
    {
      blocks[i].end < blocks[i].last + ALIGN
    }

    /** Where the searches begin once a block is added: right behind the last full block from the
        current one on, the last block not counted, or else at the new block. */
    ghost predicate GoOnAt(c: nat)
      reads this`blocks, this`at, blocks`last
    {
      && (if c == |blocks| then true else at < c < |blocks| && Full(c - 1))
      && forall k {:trigger Full(k)} :: (if c == |blocks| then at else c) <= k < |blocks| - 1 ==> !Full(k)
    }

    /** The last block, and the block that the next search starts at, if one is nearly full. */
    method LastBlock() returns (p: Block, candidate: Block?, ghost c: nat)
      requires Valid()
      ensures p == blocks[|blocks| - 1] && (candidate != null ==> c < |blocks| && candidate == blocks[c])
      ensures GoOnAt(if candidate == null then |blocks| else c)
    {
      hide Filled, Large, Full;
      p, candidate := current, null;
      c := at;
      ghost var i := at;
      assert p.next == Next(i);
      while p.next != null
        invariant at <= i < |blocks| && p == blocks[i] && p.next == Next(i)
        invariant candidate != null ==> at < c <= i && candidate == blocks[c] && Full(c - 1)
        invariant forall k {:trigger Full(k)} :: (if candidate == null then at else c) <= k < i ==> !Full(k)
        decreases |blocks| - i
      {
        FullIs(i);
        if p.end - p.last < ALIGN {
          candidate := p.next;
          c := i + 1;
        }
        p := p.next;
        i := i + 1;
        assert p.next == Next(i);
      }
    }

    lemma FullIs(i: nat)
      requires i < |blocks|
      ensures Full(i) <==> blocks[i].end - blocks[i].last < ALIGN
    {
    }

    /** pool_alloc_block: one more block, whose first piece is handed out. */
    method AllocBlock(size: nat) returns (r: Option)
      requires Valid() && 0 < size <= max
      modifies this`current, this`at, this`blocks, blocks`next, memory`regions, memory`top, memory`refusals, memory`room
      ensures Valid() && |blocks| >= |old(blocks)| && blocks[..|old(blocks)|] == old(blocks) && fresh(blocks[|old(blocks)|..])
      ensures r.None? ==> Live() == old(Live()) && blocks == old(blocks)
      ensures r.Some? ==> r.value % ALIGN == 0 && Region(r.value, size) !in old(Live()) && Live() == old(Live()) + {Region(r.value, size)}
      ensures r.Some? ==> |blocks| == |old(blocks)| + 1 && r.value == AlignPtr(blocks[|old(blocks)|].base + POOL_DATA_SIZE)
      ensures if r.None? then at == old(at) else var c := at; old(GoOnAt(c))
      ensures old(memory.regions) <= memory.regions && forall b :: b in blocks[|old(blocks)|..] ==> b.Extent() !in old(memory.regions)
      ensures Foreign() == old(Foreign()) && large == old(large)
      ensures memory.refusals == old(memory.refusals) + if r.None? then 1 else 0
    {
      hide Filled, Large, IsNew, Live, Foreign, GoOnAt;
      var np, m := NewBlock(size);
      if np == null {
        return None;
      }
      var p, candidate;
      ghost var c;
      p, candidate, c := LastBlock();
      Append(p, np, Region(m, size));
      SetCurrent(if candidate != null then candidate else np, if candidate != null then c else |blocks| - 1);
      r := Some(m);
    }

    method SetCurrent(b: Block, ghost i: nat)
      requires Valid() && i < |blocks| && b == blocks[i]
      modifies this`current, this`at
      ensures Valid() && at == i
    {
      hide Filled, Large;
      current := b;
      at := i;
    }

    /** What every allocation leaves in place. */
    twostate predicate Kept()
      reads this, blocks, memory`regions, memory`top
    {
      && Valid() && |blocks| >= |old(blocks)| && blocks[..|old(blocks)|] == old(blocks) && fresh(blocks[|old(blocks)|..])
      && old(memory.regions) <= memory.regions && Foreign() == old(Foreign())
      && (forall b :: b in blocks[|old(blocks)|..] ==> b.Extent() !in old(memory.regions))
    }

    /** pool_alloc.  A piece that the blocks have room for needs no memory; it fails only when the
        memory refuses.  In a pool whose `max` is below the node of a large piece, a large request
        asks for one region after the other until the memory refuses, and frees them all again. */
    method Alloc(size: nat) returns (r: Option, ghost node: Region)
      requires Valid()
      modifies this, memory`regions, memory`top, memory`refusals, memory`room, blocks
      ensures Kept() && (size <= max ==> large == old(large))
      ensures 0 < size <= max && old(HasRoom(size)) ==> r.Some? && blocks == old(blocks) && memory.regions == old(memory.regions)
      ensures 0 < size <= max && old(HasRoom(size)) ==>
        at == old(at) && exists i: nat :: old(FirstRoom(size, i)) && i < |blocks| && r.value == AlignPtr(old(blocks[i].last))
      ensures r.Some? && size <= max && !old(HasRoom(size)) ==>
        && |blocks| == |old(blocks)| + 1 && r.value == AlignPtr(blocks[|old(blocks)|].base + POOL_DATA_SIZE)
        && var c := at; old(GoOnAt(c))
      ensures r.None? ==> Live() == old(Live()) && large == old(large) && (size == 0 || memory.refusals > old(memory.refusals))
      ensures size > max && LARGE_SIZE > max ==> r.None? && blocks == old(blocks) && memory.regions == old(memory.regions)
      ensures memory.refusals >= old(memory.refusals)
      ensures r.Some? ==> size > 0 && r.value % ALIGN == 0 && Region(r.value, size) !in old(Live())
      ensures r.Some? && size <= max ==> Live() == old(Live()) + {Region(r.value, size)}
      ensures r.Some? && size > max ==>
        && node.size == LARGE_SIZE && node !in old(Live()) && node != Region(r.value, size)
        && Live() == old(Live()) + {Region(r.value, size), node} && large == [Region(r.value, size)] + old(large)
      decreases memory.room, 1
    {
      hide Linked, Filled, Large, GoOnAt;
      node := Region(0, 0);
      if size == 0 {
        return None, node;
      }
      if size <= max {
        ghost var i;
        r, i := FromBlocks(size);
        if r.Some? {
          return;
        }
        r := AllocBlock(size);
        return;
      }
      r, node := AllocLarge(size);
    }

    /** A region of the memory that the pool does not use. */
    ghost predicate Spare(a: Region)
      reads this`blocks, this`large, memory`regions
    {
      a in memory.regions && a.base % ALIGN == 0 && a.size > 0 && a !in large && forall b :: b in blocks ==> b.base != a.base
    }

    method Reserve(size: nat) returns (r: Option)
      requires Valid() && size > 0
      modifies memory`regions, memory`top, memory`refusals, memory`room
      ensures Valid() && memory.regions == old(memory.regions) + if r.None? then {} else {Region(r.value, size)}
      ensures r.Some? ==> Spare(Region(r.value, size)) && Region(r.value, size) !in old(memory.regions)
      ensures Foreign() == old(Foreign()) + (if r.None? then {} else {Region(r.value, size)})
      ensures r.Some? ==> Region(r.value, size) !in old(Foreign())
      ensures memory.refusals == old(memory.refusals) + if r.None? then 1 else 0
      ensures r.Some? ==> memory.room < old(memory.room)
    {
      hide Linked;
      r := memory.Alloc(size);
    }

    /** Another allocation from the blocks leaves a spare region alone. */
    twostate lemma SpareKept(new a: Region)
      requires Kept() && old(Spare(a)) && large == old(large)
      ensures Spare(a)
    {
      hide Linked, Filled, Large;
      forall b | b in blocks ensures b.base != a.base {
        if b in blocks[..|old(blocks)|] {
          assert b in old(blocks);
        } else {
          SpareNewBlock(a, b);
        }
      }
    }

    twostate lemma SpareNewBlock(new a: Region, new b: Block)
      requires Kept() && old(Spare(a)) && b in blocks && b !in blocks[..|old(blocks)|]
      ensures b.base != a.base
    {
      hide Linked, Large;
      assert b in blocks[|old(blocks)|..];
      assert b.Valid() && b.Extent() in memory.regions && a in memory.regions;
    }

    method Unreserve(base: nat, size: nat)
      requires Valid() && Spare(Region(base, size))
      modifies memory`regions, memory`room
      ensures Valid() && memory.regions == old(memory.regions) - {Region(base, size)}
      ensures Foreign() == old(Foreign()) - {Region(base, size)}
    {
      hide Linked;
      memory.Free(base, size);
    }

    /** Puts a region on the list of large pieces. */
    method AddLarge(a: Region)
      requires Valid() && Spare(a)
      modifies this`large
      ensures large == [a] + old(large)
      ensures Valid() && a !in old(Live()) && Live() == old(Live()) + {a} && Foreign() == old(Foreign()) - {a}
    {
      hide Linked;
      SpareNotLive(a);
      large := [a] + large;
    }

    lemma SpareNotLive(a: Region)
      requires Valid() && Spare(a)
      ensures a !in Live()
    {
      forall i | 0 <= i < |blocks| ensures a !in blocks[i].allocs {
        InBlockIf(a, i);
        assert blocks[i] in blocks && blocks[i].Valid() && blocks[i].Extent() != a;
        assert Apart(blocks[i].Extent(), a);
      }
    }

    /** pool_alloc_large: a region of its own, and a node for it in the blocks. */
    method AllocLarge(size: nat) returns (r: Option, ghost node: Region)
      requires Valid() && size > max
      modifies this, memory`regions, memory`top, memory`refusals, memory`room, blocks
      ensures Kept() && memory.refusals >= old(memory.refusals)
      ensures r.None? ==> Live() == old(Live()) && large == old(large) && memory.refusals > old(memory.refusals)
      ensures LARGE_SIZE > max ==> r.None? && blocks == old(blocks) && memory.regions == old(memory.regions)
      ensures r.Some? ==>
        && r.value % ALIGN == 0 && Region(r.value, size) !in old(Live())
        && node.size == LARGE_SIZE && node !in old(Live()) && node != Region(r.value, size)
        && Live() == old(Live()) + {Region(r.value, size), node} && large == [Region(r.value, size)] + old(large)
      decreases memory.room, 0
    {
      hide Valid, Spare, Foreign, Live;
      node := Region(0, 0);
      r := Reserve(size);
      if r.None? {
        return;
      }
      SpareNotLive(Region(r.value, size));
      assert r.value % ALIGN == 0 by { SpareAligned(Region(r.value, size)); }
      label before:
      var n;
      ghost var none;
      n, none := Alloc(LARGE_SIZE);
      SpareKept@before(Region(r.value, size));
      if n.None? {
        Unreserve(r.value, size);
        return None, node;
      }
      node := Region(n.value, LARGE_SIZE);
      AddLarge(Region(r.value, size));
    }

    lemma SpareAligned(a: Region)
      requires Spare(a)
      ensures a.base % ALIGN == 0
    {
    }

    /** A piece that ends where the first block is filled to is a piece of that block. */
    lemma AtFront(a: Region)
      requires Valid() && a in Live() && a.size > 0 && a.base + a.size == first.last
      ensures first in blocks && a in first.allocs
    {
      assert blocks[0] in blocks && first.Valid();
      if a in large {
        EndsElsewhere(a, a, first.Extent(), first.last);
      } else {
        var i :| 0 <= i < |blocks| && a in blocks[i].allocs;
        if i != 0 {
          OtherBlockEnds(a, i);
        }
      }
    }

    lemma OtherBlockEnds(a: Region, i: nat)
      requires Valid() && 0 < i < |blocks| && a in blocks[i].allocs && a.size > 0
      ensures a.base + a.size != first.last
    {
      assert blocks[0] in blocks && first.Valid();
      InBlock(a, i);
      ExtentsApart(i, 0);
      EndsElsewhere(a, blocks[i].Extent(), first.Extent(), first.last);
    }

    lemma EndsElsewhere(a: Region, b: Region, c: Region, x: nat)
      requires a.size > 0 && Within(a, b) && Apart(b, c) && c.base < x <= c.base + c.size
      ensures a.base + a.size != x
    {
    }

    /** Lengthens the piece `a` at the front of the first block. */
    method ExtendFirst(n: nat, ghost a: Region)
      requires Valid() && a in Live() && a.size > 0 && a.base + a.size == first.last && first.last + n <= first.end && n > 0
      modifies first`last, first`allocs
      ensures Valid() && Live() == old(Live()) - {a} + {Region(a.base, a.size + n)} && Region(a.base, a.size + n) !in old(Live())
      ensures blocks == old(blocks)
    {
      AtFront(a);
      OnlyThere(0, a);
      ghost var b := Region(a.base, a.size + n);
      first.Extend(n, a);
      OnlyThere(0, b);
      ExtendedLive(a, b);
    }

    twostate lemma ExtendedLive(new a: Region, new b: Region)
      requires old(Valid()) && Valid() && blocks == old(blocks) && large == old(large) && a != b
      requires a in old(first.allocs) && first.allocs == old(first.allocs) - {a} + {b} && b !in old(first.allocs)
      requires forall i :: 0 < i < |blocks| ==> blocks[i].allocs == old(blocks[i].allocs) && a !in blocks[i].allocs && b !in blocks[i].allocs
      requires a !in large && b !in large
      ensures Live() == old(Live()) - {a} + {b} && b !in old(Live())
    {
      hide Filled, Large;
      forall r ensures r in Live() <==> (r in old(Live()) && r != a) || r == b {
        if r in old(Live()) && r !in large && r != a {
          var j :| 0 <= j < |blocks| && r in old(blocks[j].allocs);
          assert r in blocks[j].allocs;
        }
        if r == b {
          assert r in blocks[0].allocs;
        }
      }
    }

    /** What is left to free: all large pieces from `k` on, and all blocks from `i` on. */
    ghost function Left(k: nat, i: nat): set<Region>
      requires k <= |large| && i <= |blocks|
      reads this`blocks, this`large
    {
      (set b | b in blocks[i..] :: b.Extent()) + (set r | r in large[k..])
    }

    /** The regions of the pool are different, and its blocks are linked. */
    ghost predicate Separate()
      reads this`blocks, this`large, blocks`next
    {
      && (forall i, j :: 0 <= i < j < |large| ==> large[i] != large[j])
      && (forall i, j :: 0 <= i < j < |blocks| ==> blocks[i].base != blocks[j].base)
      && (forall r, b :: r in large && b in blocks ==> r.base != b.base)
      && (forall i {:trigger blocks[i].next} :: 0 <= i < |blocks| ==> blocks[i].next == Next(i) && blocks[i].end >= blocks[i].base)
    }

    lemma LeftLarge(k: nat)
      requires Separate() && k < |large| && 0 < |blocks|
      ensures Left(k + 1, 0) == Left(k, 0) - {large[k]} && large[k] in Left(k, 0)
    {
      var a, rest := large[k], large[k + 1..];
      assert large[k..] == [a] + rest && a in large;
      assert forall j :: 0 <= j < |rest| ==> rest[j] == large[k + 1 + j];
      assert blocks[0..] == blocks;
    }

    lemma LeftBlock(i: nat)
      requires Separate() && i < |blocks|
      ensures Left(|large|, i + 1) == Left(|large|, i) - {blocks[i].Extent()} && blocks[i].Extent() in Left(|large|, i)
    {
      var b, rest := blocks[i], blocks[i + 1..];
      assert blocks[i..] == [b] + rest;
      assert forall j :: 0 <= j < |rest| ==> rest[j] == blocks[i + 1 + j];
    }

    /** pool_destroy: all memory of the pool is freed, each region once, and nothing else is. */
    method Destroy()
      requires Valid()
      modifies memory`regions, memory`room
      ensures memory.Valid() && memory.regions == old(Foreign())
    {
      hide Valid, Left, Owned, Separate, Foreign, Linked, Filled, Large, Block.Valid, Memory.Valid;
      ghost var foreign := Foreign();
      LeftAll();
      var k := 0;
      while k < |large|
        invariant k <= |large| && memory.Valid() && memory.regions == foreign + Left(k, 0) && foreign !! Left(k, 0)
      {
        LeftLarge(k);
        memory.Free(large[k].base, large[k].size);
        k := k + 1;
      }
      var p: Block? := first;
      ghost var i := 0;
      while p != null
        invariant i <= |blocks| && p == (if i < |blocks| then blocks[i] else null)
        invariant memory.Valid() && memory.regions == foreign + Left(k, i) && foreign !! Left(k, i)
        decreases |blocks| - i
      {
        NextBlock(i);
        LeftBlock(i);
        memory.Free(p.base, p.end - p.base);
        p := p.next;
        i := i + 1;
      }
      NothingLeft();
    }

    lemma NextBlock(i: nat)
      requires Separate() && i < |blocks|
      ensures blocks[i].next == (if i + 1 < |blocks| then blocks[i + 1] else null) && blocks[i].end >= blocks[i].base
    {
    }

    lemma LeftAll()
      requires Valid()
      ensures memory.Valid() && Separate()
      ensures Left(0, 0) == Owned() && memory.regions == Foreign() + Left(0, 0) && Foreign() !! Left(0, 0)
      ensures 0 < |blocks| && blocks[0] == first
    {
      forall i | 0 <= i < |blocks| ensures blocks[i].end >= blocks[i].base {
        assert blocks[i] in blocks && blocks[i].Valid();
      }
      assert blocks[0..] == blocks && large[0..] == large;
    }

    lemma NothingLeft()
      ensures Left(|large|, |blocks|) == {}
    {
    }
  }

  /** pool_create */
  method Create(memory: Memory, size: nat, maxSize: nat) returns (p: Pool?)
    requires memory.Valid()
    modifies memory`regions, memory`top, memory`refusals, memory`room
    ensures memory.Valid() && (p == null ==> memory.regions == old(memory.regions))
    ensures memory.refusals == old(memory.refusals) + if p == null && size > 0 then 1 else 0
    ensures p != null ==> fresh(p) && p.Valid() && p.memory == memory && p.Live() == {} && size > 0
    ensures p != null ==> p.Foreign() == old(memory.regions) && p.blocks == [p.first] && fresh(p.first)
    ensures p != null ==> var n := if size < POOL_SIZE then size + POOL_SIZE else size;
      p.first.end - p.first.base == n && p.max == if n - POOL_SIZE < maxSize then n - POOL_SIZE else maxSize
  {
    hide Pool.Valid, Pool.Live, Pool.Foreign, Memory.Valid;
    if size == 0 {
      return null;
    }
    var n := if size < POOL_SIZE then size + POOL_SIZE else size;
    var base := memory.Alloc(n);
    if base.None? {
      return null;
    }
    p := new Pool(memory, base.value, n, if n - POOL_SIZE < maxSize then n - POOL_SIZE else maxSize);
    p.OneBlockForeign();
  }

  /** The life of a pool: whatever is allocated from it, and whether or not it succeeds, in the
      end the memory has the regions that it had before. */
  method Lifetime(memory: Memory, size: nat, maxSize: nat, requests: seq<nat>)
    requires memory.Valid()
    modifies memory`regions, memory`top, memory`refusals, memory`room
    ensures memory.Valid() && memory.regions == old(memory.regions)
  {
    hide Pool.Linked, Pool.Filled, Pool.Large, Pool.Live, Pool.Foreign, Memory.Valid;
    var p := Create(memory, size, maxSize);
    if p == null {
      return;
    }
    for i := 0 to |requests|
      invariant p.Valid() && p.memory == memory && p.Foreign() == old(memory.regions) && fresh(p) && fresh(p.blocks)
    {
      var r;
      ghost var node;
      r, node := p.Alloc(requests[i]);
    }
    p.Destroy();
  }
}
