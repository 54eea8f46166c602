/** The state of the shared-memory allocator of src/fast_shmem.c as a value.

    Addresses are offsets from the start of the region and the size of a block header is a
    positive constant.  `order` is the address-ordered list of all blocks, `lists` the free
    list of every size class, `available` the list of the classes whose free list is not
    empty. */
module ShmemState {
  import opened FastMath

  /** How the size classes grow. */
  datatype Config = Config(minSize: nat, factor: nat, freeLen: nat, linear: bool, header: nat, base: nat, total: nat)
  {
    ghost predicate Valid()
    {
      minSize > 0 && factor > 0 && freeLen > 0 && header > 0 && base + header <= total
    }
  }

  /** A block header; `home` is the class of the free list the block is on. */
  datatype Block = Block(size: nat, alloc: bool, act: nat, home: Option)

  datatype Option = None | Some(value: nat)

  datatype Heap = Heap(order: seq<nat>, blocks: map<nat, Block>, lists: seq<seq<nat>>,
                       available: seq<nat>, maxAvailable: nat)

  // ---------- size classes ----------

  /** The least size that belongs to class `i`. */
  function Bound(c: Config, i: nat): nat
  {
    if c.linear then c.minSize + i * c.factor else c.minSize * Pow2(i)
  }

  lemma BoundMonotone(c: Config, i: nat, j: nat)
    requires c.Valid() && i <= j
    ensures Bound(c, i) <= Bound(c, j)
  {
    if c.linear {
      MulLe(c.factor, i, j);
    } else {
      Pow2Monotone(i, j);
      MulLe(c.minSize, Pow2(i), Pow2(j));
    }
  }

  /** fast_shmem_get_insert_index */
  function InsertIndex(c: Config, size: nat): nat
    requires c.Valid()
  {
    if size <= c.minSize then 0
    else if c.linear then (size - c.minSize) / c.factor
    else Log2Down(size / c.minSize)
  }

  /** fast_shmem_get_alloc_index */
  function AllocIndex(c: Config, size: nat): nat
    requires c.Valid()
  {
    if size <= c.minSize then 0
    else if c.linear then UpDiv(size - c.minSize, c.factor)
    else Log2Up(UpDiv(size, c.minSize))
  }

  /** The class a free block is filed under starts at or below its size and ends above it. */
  lemma InsertIndexBounds(c: Config, size: nat)
    requires c.Valid()
    ensures size >= c.minSize ==> Bound(c, InsertIndex(c, size)) <= size
    ensures size < Bound(c, InsertIndex(c, size) + 1)
  {
    var i := InsertIndex(c, size);
    if size <= c.minSize {
      assert Pow2(1) == 2;
    } else if c.linear {
      DivMod(size - c.minSize, c.factor);
    } else {
      var p := size / c.minSize;
      DivMod(size, c.minSize);
      MulLe(c.minSize, 1, p);
      assert Pow2(i) <= p < Pow2(i + 1);
      MulLe(c.minSize, Pow2(i), p);
      MulLe(c.minSize, p + 1, Pow2(i + 1));
    }
  }

  /** The class a request is served from starts at or above the request, and the class before
      starts below it. */
  lemma AllocIndexBounds(c: Config, size: nat)
    requires c.Valid()
    ensures size <= Bound(c, AllocIndex(c, size))
    ensures AllocIndex(c, size) > 0 ==> Bound(c, AllocIndex(c, size) - 1) < size
    ensures AllocIndex(c, size) == 0 <==> size <= c.minSize
  {
    if size > c.minSize {
      if c.linear {
        UpDivBounds(size - c.minSize, c.factor);
      } else {
        AllocIndexExp(c, size);
      }
    }
  }

  lemma AllocIndexExp(c: Config, size: nat)
    requires c.Valid() && !c.linear && size > c.minSize
    ensures var i := AllocIndex(c, size); i > 0 && size <= Bound(c, i) && Bound(c, i - 1) < size
  {
    var i, p := AllocIndex(c, size), UpDiv(size, c.minSize);
    UpDivBounds(size, c.minSize);
    if p <= 1 {
      MulLe(c.minSize, p, 1);
    }
    MulLe(c.minSize, p, Pow2(i));
    MulLe(c.minSize, Pow2(i - 1), p - 1);
  }

  /** The class of a free block, clamped to the last one. */
  function Class(c: Config, size: nat): (k: nat)
    requires c.Valid()
    ensures k < c.freeLen
  {
    var i := InsertIndex(c, size);
    if i >= c.freeLen then c.freeLen - 1 else i
  }

  lemma IndexMonotone(c: Config, s: nat, t: nat)
    requires c.Valid() && s <= t
    ensures InsertIndex(c, s) <= InsertIndex(c, t)
  {
    InsertIndexBounds(c, s);
    InsertIndexBounds(c, t);
    var i, j := InsertIndex(c, s), InsertIndex(c, t);
    if j < i {
      BoundMonotone(c, j + 1, i);
    }
  }

  // ---------- sequences without repetition ----------

  ghost predicate NoDup(s: seq<nat>)
  {
    forall i, j :: 0 <= i < j < |s| ==> s[i] != s[j]
  }

  ghost predicate Increasing(s: seq<nat>)
  {
    forall i, j :: 0 <= i < j < |s| ==> s[i] < s[j]
  }

  /** The position of `x` in `s`, or the length of `s`. */
  function IndexOf(s: seq<nat>, x: nat): (i: nat)
    ensures i <= |s|
    ensures x in s ==> i < |s| && s[i] == x
    ensures x !in s ==> i == |s|
  {
    if s == [] || s[0] == x then 0 else 1 + IndexOf(s[1..], x)
  }

  /** queue_remove: the list without the entry `x`. */
  function Remove(s: seq<nat>, x: nat): (r: seq<nat>)
  {
    var i := IndexOf(s, x);
    if i < |s| then s[..i] + s[i + 1..] else s
  }

  lemma RemoveAt(s: seq<nat>, x: nat)
    requires x in s
    ensures var i, r := IndexOf(s, x), Remove(s, x);
      |r| == |s| - 1 && forall j :: 0 <= j < |r| ==> r[j] == s[if j < i then j else j + 1]
  {
    hide IndexOf;
  }

  lemma RemoveIncreasing(s: seq<nat>, x: nat)
    requires x in s && Increasing(s)
    ensures Increasing(Remove(s, x))
  {
    hide Remove, IndexOf;
    RemoveAt(s, x);
  }

  lemma RemoveMember(s: seq<nat>, x: nat)
    requires x in s && NoDup(s)
    ensures NoDup(Remove(s, x)) && |Remove(s, x)| == |s| - 1
    ensures forall y {:trigger y in Remove(s, x)} :: y in Remove(s, x) <==> y in s && y != x
    ensures Increasing(s) ==> Increasing(Remove(s, x))
  {
    hide Remove, IndexOf, Increasing;
    var i, r := IndexOf(s, x), Remove(s, x);
    RemoveAt(s, x);
    if Increasing(s) {
      RemoveIncreasing(s, x);
    }
    forall y ensures y in r <==> y in s && y != x {
      if y in s && y != x {
        var j :| 0 <= j < |s| && s[j] == y;
        assert r[if j < i then j else j - 1] == y;
      }
    }
  }

  // ---------- the invariant ----------

  /** The first address behind block `a`. */
  function End(c: Config, blocks: map<nat, Block>, a: nat): nat
    requires a in blocks
  {
    a + c.header + blocks[a].size
  }

  ghost predicate Known(order: seq<nat>, blocks: map<nat, Block>)
  {
    forall a :: a in order ==> a in blocks
  }

  /** The blocks of `order` tile the addresses `from .. to` without gap or overlap. */
  ghost predicate Tiles(c: Config, order: seq<nat>, blocks: map<nat, Block>, from: nat, to: nat)
    requires Known(order, blocks)
  {
    if order == [] then from == to
    else order[0] == from && Tiles(c, order[1..], blocks, End(c, blocks, from), to)
  }

  /** No two neighbours are both free. */
  ghost predicate Merged(order: seq<nat>, blocks: map<nat, Block>)
    requires Known(order, blocks)
  {
    |order| <= 1 || ((blocks[order[0]].alloc || blocks[order[1]].alloc) && Merged(order[1..], blocks))
  }

  /** The blocks of the order list, and no others, tile the region from `base` to `total`. */
  ghost predicate Tiled(c: Config, h: Heap)
  {
    && Known(h.order, h.blocks)
    && Tiles(c, h.order, h.blocks, c.base, c.total)
    && (forall a :: a in h.blocks ==> a in h.order)
  }

  /** Every free block that is not `loose` is on the free list of its class, once, and
      nothing else is on a free list. */
  ghost predicate Listed(c: Config, h: Heap, loose: set<nat>)
    requires c.Valid()
  {
    && |h.lists| == c.freeLen
    && (forall k :: 0 <= k < c.freeLen ==> NoDup(h.lists[k]))
    && (forall k, x :: 0 <= k < c.freeLen && x in h.lists[k] ==>
          x in h.blocks && h.blocks[x].home == Some(k))
    && (forall x {:trigger h.blocks[x]} :: x in h.blocks ==>
          if h.blocks[x].alloc || x in loose then h.blocks[x].home == None
          else h.blocks[x].home == Some(Class(c, h.blocks[x].size)) && x in h.lists[Class(c, h.blocks[x].size)])
  }

  /** `available` lists exactly the classes with a free block, in increasing order, and
      `maxAvailable` is its last entry. */
  ghost predicate Avail(c: Config, h: Heap)
  {
    && |h.lists| == c.freeLen
    && Increasing(h.available)
    && (forall k: nat :: k in h.available <==> k < c.freeLen && h.lists[k] != [])
    && h.maxAvailable == (if h.available == [] then c.freeLen else h.available[|h.available| - 1])
  }

  ghost predicate Inv(c: Config, h: Heap)
  {
    c.Valid() && Tiled(c, h) && Listed(c, h, {}) && Avail(c, h) && Merged(h.order, h.blocks)
  }

  // ---------- tilings ----------

  lemma {:induction false} TilesConcat(c: Config, p: seq<nat>, q: seq<nat>, blocks: map<nat, Block>, from: nat, mid: nat, to: nat)
    requires Known(p, blocks) && Known(q, blocks) && Tiles(c, p, blocks, from, mid) && Tiles(c, q, blocks, mid, to)
    ensures Known(p + q, blocks) && Tiles(c, p + q, blocks, from, to)
  {
    if p == [] {
      assert p + q == q;
    } else {
      TilesConcat(c, p[1..], q, blocks, End(c, blocks, from), mid, to);
      assert (p + q)[1..] == p[1..] + q;
    }
  }

  lemma {:induction false} TilesSplit(c: Config, p: seq<nat>, q: seq<nat>, blocks: map<nat, Block>, from: nat, to: nat)
    requires Known(p + q, blocks) && Tiles(c, p + q, blocks, from, to) && q != []
    ensures Known(p, blocks) && Known(q, blocks) && Tiles(c, p, blocks, from, q[0]) && Tiles(c, q, blocks, q[0], to)
  {
    KnownParts(p, q, blocks);
    if p == [] {
      assert p + q == q;
    } else {
      assert (p + q)[1..] == p[1..] + q;
      TilesSplit(c, p[1..], q, blocks, End(c, blocks, from), to);
    }
  }

  lemma KnownParts(p: seq<nat>, q: seq<nat>, blocks: map<nat, Block>)
    requires Known(p + q, blocks)
    ensures Known(p, blocks) && Known(q, blocks)
  {
    forall a | a in p ensures a in blocks { assert a in p + q; }
    forall a | a in q ensures a in blocks { assert a in p + q; }
  }

  lemma {:induction false} TilesFrame(c: Config, p: seq<nat>, blocks: map<nat, Block>, blocks': map<nat, Block>, from: nat, to: nat)
    requires Known(p, blocks) && Known(p, blocks') && Tiles(c, p, blocks, from, to)
    requires forall a :: a in p ==> blocks'[a].size == blocks[a].size
    ensures Tiles(c, p, blocks', from, to)
  {
    if p != [] {
      TilesFrame(c, p[1..], blocks, blocks', End(c, blocks, from), to);
    }
  }

  /** The blocks of a tiling lie between its ends. */
  lemma {:induction false} TilesWithin(c: Config, p: seq<nat>, blocks: map<nat, Block>, from: nat, to: nat)
    requires c.Valid() && Known(p, blocks) && Tiles(c, p, blocks, from, to)
    ensures from <= to
    ensures forall a :: a in p ==> from <= a && End(c, blocks, a) <= to
  {
    if p != [] {
      assert p == [p[0]] + p[1..];
      TilesWithin(c, p[1..], blocks, End(c, blocks, from), to);
    }
  }

  /** The blocks in front of and behind the block `a`. */
  lemma Around(c: Config, order: seq<nat>, blocks: map<nat, Block>, from: nat, to: nat, i: nat)
    requires c.Valid() && Known(order, blocks) && Tiles(c, order, blocks, from, to) && i < |order|
    ensures var p, a, q := order[..i], order[i], order[i + 1..];
      && a in blocks && Known(p, blocks) && Known(q, blocks)
      && Tiles(c, p, blocks, from, a) && Tiles(c, q, blocks, End(c, blocks, a), to)
      && (forall x :: x in p ==> End(c, blocks, x) <= a)
      && (forall x :: x in q ==> End(c, blocks, a) <= x)
      && a !in p && a !in q && from <= a && End(c, blocks, a) <= to
  {
    var p, a, q := order[..i], order[i], order[i + 1..];
    assert order == p + order[i..];
    TilesSplit(c, p, order[i..], blocks, from, to);
    assert order[i..][1..] == q;
    TilesWithin(c, p, blocks, from, a);
    TilesWithin(c, q, blocks, End(c, blocks, a), to);
  }

  /** Blocks do not overlap, and they lie inside the region. */
  lemma Disjoint(c: Config, h: Heap, a: nat, b: nat)
    requires c.Valid() && Tiled(c, h) && a in h.blocks && b in h.blocks && a != b
    ensures End(c, h.blocks, a) <= b || End(c, h.blocks, b) <= a
    ensures c.base <= a && End(c, h.blocks, a) <= c.total
  {
    var i := IndexOf(h.order, a);
    Around(c, h.order, h.blocks, c.base, c.total, i);
    CutAt(h.order, i);
  }

  // ---------- sums over the blocks ----------

  function Weight(b: Block, act: bool): nat
  {
    if !b.alloc then 0 else if act then b.act else b.size
  }

  /** What the allocated blocks of `order` hold: their sizes, or with `act` the sizes asked for. */
  ghost function Total(order: seq<nat>, blocks: map<nat, Block>, act: bool): nat
    requires Known(order, blocks)
  {
    if order == [] then 0 else Weight(blocks[order[0]], act) + Total(order[1..], blocks, act)
  }

  lemma {:induction false} TotalConcat(p: seq<nat>, q: seq<nat>, blocks: map<nat, Block>, act: bool)
    requires Known(p, blocks) && Known(q, blocks) && Known(p + q, blocks)
    ensures Total(p + q, blocks, act) == Total(p, blocks, act) + Total(q, blocks, act)
  {
    if p == [] {
      assert p + q == q;
    } else {
      assert (p + q)[1..] == p[1..] + q;
      TotalConcat(p[1..], q, blocks, act);
    }
  }

  lemma {:induction false} TotalFrame(p: seq<nat>, blocks: map<nat, Block>, blocks': map<nat, Block>, act: bool)
    requires Known(p, blocks) && Known(p, blocks')
    requires forall a :: a in p ==> Weight(blocks[a], act) == Weight(blocks'[a], act)
    ensures Total(p, blocks, act) == Total(p, blocks', act)
  {
    if p != [] {
      TotalFrame(p[1..], blocks, blocks', act);
    }
  }

  lemma {:induction false} MergedConcat(p: seq<nat>, q: seq<nat>, blocks: map<nat, Block>)
    requires Known(p, blocks) && Known(q, blocks) && Known(p + q, blocks)
    ensures Merged(p + q, blocks) <==>
      Merged(p, blocks) && Merged(q, blocks)
      && (p == [] || q == [] || blocks[p[|p| - 1]].alloc || blocks[q[0]].alloc)
  {
    if p == [] {
      assert p + q == q;
    } else {
      assert (p + q)[1..] == p[1..] + q;
      MergedConcat(p[1..], q, blocks);
      if |p| == 1 { assert p + q == [p[0]] + q; }
    }
  }

  lemma {:induction false} MergedFrame(p: seq<nat>, blocks: map<nat, Block>, blocks': map<nat, Block>)
    requires Known(p, blocks) && Known(p, blocks')
    requires forall a :: a in p ==> blocks[a].alloc == blocks'[a].alloc
    ensures Merged(p, blocks) == Merged(p, blocks')
  {
    if |p| > 1 {
      MergedFrame(p[1..], blocks, blocks');
    }
  }

  // ---------- the free lists ----------

  /** The heap after the block `x` of class `k` left its free list. */
  function Unlisted(h: Heap, x: nat, k: nat): Heap
    requires x in h.blocks && k < |h.lists|
  {
    var l := Remove(h.lists[k], x);
    var a := if l == [] then Remove(h.available, k) else h.available;
    h.(blocks := h.blocks[x := h.blocks[x].(home := None)],
       lists := h.lists[k := l],
       available := a,
       maxAvailable := if l != [] then h.maxAvailable else if a == [] then |h.lists| else a[|a| - 1])
  }

  /** A listed block is found on the list the allocator computes for it. */
  lemma HomeIsFound(c: Config, h: Heap, loose: set<nat>, x: nat)
    requires c.Valid() && Listed(c, h, loose) && Avail(c, h)
    requires x in h.blocks && !h.blocks[x].alloc && x !in loose
    ensures var i := InsertIndex(c, h.blocks[x].size);
      h.blocks[x].home == Some(if i > h.maxAvailable then h.maxAvailable else i)
  {
    hide InsertIndex;
    var k := Class(c, h.blocks[x].size);
    LastIsMost(c, h, k);
  }

  lemma LastIsMost(c: Config, h: Heap, k: nat)
    requires Avail(c, h) && k < c.freeLen && h.lists[k] != []
    ensures k <= h.maxAvailable < c.freeLen && h.available != [] && h.lists[h.maxAvailable] != []
  {
    assert k in h.available;
    var j := IndexOf(h.available, k);
    assert j == |h.available| - 1 || h.available[j] < h.available[|h.available| - 1];
    assert h.maxAvailable in h.available;
  }

  lemma UnlistedLists(c: Config, h: Heap, loose: set<nat>, x: nat, k: nat)
    requires c.Valid() && Listed(c, h, loose)
    requires x in h.blocks && h.blocks[x].home == Some(k) && !h.blocks[x].alloc && x !in loose
    ensures k < c.freeLen == |h.lists| && x in h.lists[k]
    ensures Listed(c, Unlisted(h, x, k), loose + {x})
  {
    hide InsertIndex, Remove, IndexOf, Increasing, NoDup, Class;
    RemoveMember(h.lists[k], x);
  }

  lemma UnlistedAvail(c: Config, h: Heap, x: nat, k: nat)
    requires Avail(c, h) && x in h.blocks && k < c.freeLen && x in h.lists[k]
    ensures Avail(c, Unlisted(h, x, k))
  {
    hide IndexOf, Remove;
    var u, l := Unlisted(h, x, k), Remove(h.lists[k], x);
    assert k in h.available;
    if l == [] {
      LastIsMost(c, h, k);
      RemoveLast(h.available, k);
      assert forall j: nat :: j in u.available <==> j < c.freeLen && u.lists[j] != [];
    }
  }

  /** The last entry after an entry of an increasing sequence is removed. */
  lemma RemoveLast(s: seq<nat>, k: nat)
    requires Increasing(s) && k in s
    ensures var p, r := IndexOf(s, k), Remove(s, k);
      && p < |s| && Increasing(r) && |r| == |s| - 1
      && (forall y {:trigger y in r} :: y in r <==> y in s && y != k)
      && (k == s[|s| - 1] <==> p == |s| - 1)
      && (r == [] <==> |s| == 1) && (r != [] ==> r[|r| - 1] == if k == s[|s| - 1] then s[p - 1] else s[|s| - 1])
  {
    AvailNoDup(s);
    RemoveMember(s, k);
  }

  /** An increasing sequence is known by its entries. */
  lemma {:induction false} OnlyIncreasing(a: seq<nat>, b: seq<nat>)
    requires Increasing(a) && Increasing(b) && forall k: nat :: k in a <==> k in b
    ensures a == b
    decreases |a|
  {
    if a == [] {
      if b != [] {
        HasLast(b);
      }
    } else {
      HasLast(a);
      HasLast(b);
      var c, d := a[..|a| - 1], b[..|b| - 1];
      forall k: nat ensures k in c <==> k in d {
        FrontMembers(a, k);
        FrontMembers(b, k);
      }
      OnlyIncreasing(c, d);
      assert a == c + [a[|a| - 1]] && b == d + [b[|b| - 1]];
    }
  }

  lemma HasLast(s: seq<nat>)
    requires s != []
    ensures s[|s| - 1] in s
  {
  }

  lemma FrontMembers(a: seq<nat>, k: nat)
    requires Increasing(a) && a != []
    ensures k in a[..|a| - 1] <==> k in a && k != a[|a| - 1]
  {
  }

  lemma AvailNoDup(s: seq<nat>)
    requires Increasing(s)
    ensures NoDup(s)
  {
  }

  /** The first position of an entry above `k`. */
  function Above(s: seq<nat>, k: nat): (p: nat)
    ensures p <= |s| && (forall i :: 0 <= i < p ==> s[i] <= k) && (p < |s| ==> k < s[p])
  {
    if s == [] || k < s[0] then 0 else 1 + Above(s[1..], k)
  }

  /** The heap after the free block `x` was put at the head of the free list of class `k`. */
  function Filed(h: Heap, x: nat, k: nat): Heap
    requires x in h.blocks && k < |h.lists|
  {
    var p := Above(h.available, k);
    h.(blocks := h.blocks[x := h.blocks[x].(home := Some(k))],
       lists := h.lists[k := [x] + h.lists[k]],
       available := if h.lists[k] != [] then h.available else h.available[..p] + [k] + h.available[p..],
       maxAvailable := if h.lists[k] == [] && p == |h.available| then k else h.maxAvailable)
  }

  lemma FiledLists(c: Config, h: Heap, loose: set<nat>, x: nat)
    requires c.Valid() && Listed(c, h, loose)
    requires x in h.blocks && !h.blocks[x].alloc && x in loose
    ensures Listed(c, Filed(h, x, Class(c, h.blocks[x].size)), loose - {x})
  {
    hide InsertIndex;
    var k := Class(c, h.blocks[x].size);
    var f := Filed(h, x, k);
    assert x !in h.lists[k];
    hide Class;
    var l := [x] + h.lists[k];
    assert NoDup(l);
    assert forall y :: y in l <==> y == x || y in h.lists[k];
  }

  lemma FiledAvail(c: Config, h: Heap, x: nat, k: nat)
    requires Avail(c, h) && x in h.blocks && k < c.freeLen
    ensures Avail(c, Filed(h, x, k))
  {
    if h.lists[k] == [] {
      assert k !in h.available;
      var p := Above(h.available, k);
      var a := h.available[..p] + [k] + h.available[p..];
      InsertedMembers(h.available, p, k);
      InsertedIncreasing(h.available, p, k);
    }
  }

  lemma InsertedMembers(s: seq<nat>, p: nat, k: nat)
    requires p <= |s|
    ensures forall y: nat :: y in s[..p] + [k] + s[p..] <==> y == k || y in s
  {
    assert s == s[..p] + s[p..];
  }

  lemma InsertedIncreasing(s: seq<nat>, p: nat, k: nat)
    requires Increasing(s) && p <= |s| && k !in s
    requires (forall i :: 0 <= i < p ==> s[i] <= k) && (p < |s| ==> k < s[p])
    ensures Increasing(s[..p] + [k] + s[p..])
  {
    forall i | 0 <= i < p ensures s[i] < k { assert s[i] in s; }
  }

  // ---------- one block in its surroundings ----------

  lemma Cons(a: nat, q: seq<nat>)
    ensures ([a] + q)[0] == a && ([a] + q)[1..] == q
    ensures forall x :: x in [a] + q <==> x == a || x in q
  {
  }

  /** The order list seen from the block `a`: the blocks `p` in front of it and `q` behind it. */
  ghost predicate Site(c: Config, order: seq<nat>, blocks: map<nat, Block>, p: seq<nat>, a: nat, q: seq<nat>)
  {
    && order == p + ([a] + q)
    && a in blocks && Known(p, blocks) && Known(q, blocks)
    && Tiles(c, p, blocks, c.base, a) && Tiles(c, q, blocks, End(c, blocks, a), c.total)
    && a !in p && a !in q
    && (forall x :: x in blocks <==> x in p || x == a || x in q)
  }

  /** A tiled heap, seen from the block `a`. */
  lemma TiledSite(c: Config, h: Heap, a: nat)
    requires c.Valid() && Tiled(c, h) && a in h.blocks
    ensures var i := IndexOf(h.order, a);
      i < |h.order| && a in h.order && Site(c, h.order, h.blocks, h.order[..i], a, h.order[i + 1..])
  {
    hide Tiles, IndexOf;
    var i := IndexOf(h.order, a);
    Around(c, h.order, h.blocks, c.base, c.total, i);
    CutAt(h.order, i);
  }

  lemma CutAt(s: seq<nat>, i: nat)
    requires i < |s|
    ensures s == s[..i] + ([s[i]] + s[i + 1..])
    ensures forall x :: x in s <==> x in s[..i] || x == s[i] || x in s[i + 1..]
  {
    assert s == s[..i] + ([s[i]] + s[i + 1..]);
  }

  lemma SiteTiled(c: Config, h: Heap, p: seq<nat>, a: nat, q: seq<nat>)
    requires Site(c, h.order, h.blocks, p, a, q)
    ensures Tiled(c, h)
  {
    Cons(a, q);
    TilesConcat(c, p, [a] + q, h.blocks, c.base, a, c.total);
    assert Known(h.order, h.blocks);
  }

  lemma SiteTotal(c: Config, order: seq<nat>, blocks: map<nat, Block>, p: seq<nat>, a: nat, q: seq<nat>, act: bool)
    requires Site(c, order, blocks, p, a, q) && Known(order, blocks)
    ensures Total(order, blocks, act) == Total(p, blocks, act) + Weight(blocks[a], act) + Total(q, blocks, act)
  {
    Cons(a, q);
    TotalConcat(p, [a] + q, blocks, act);
  }

  lemma SiteKnown(c: Config, order: seq<nat>, blocks: map<nat, Block>, p: seq<nat>, a: nat, q: seq<nat>)
    requires Site(c, order, blocks, p, a, q)
    ensures a in blocks && Known(p, blocks) && Known(q, blocks)
  {
  }

  /** A block in front of or behind another one that is free has to be allocated. */
  ghost predicate Fences(p: seq<nat>, a: nat, q: seq<nat>, blocks: map<nat, Block>)
    requires Known(p, blocks) && Known(q, blocks) && a in blocks
  {
    && (p == [] || blocks[p[|p| - 1]].alloc || blocks[a].alloc)
    && (q == [] || blocks[a].alloc || blocks[q[0]].alloc)
  }

  lemma SiteMerged(c: Config, order: seq<nat>, blocks: map<nat, Block>, p: seq<nat>, a: nat, q: seq<nat>)
    requires Site(c, order, blocks, p, a, q) && Known(order, blocks)
    ensures Merged(order, blocks) <==> Merged(p, blocks) && Merged(q, blocks) && Fences(p, a, q, blocks)
  {
    Cons(a, q);
    assert Known([a] + q, blocks);
    MergedConcat(p, [a] + q, blocks);
    MergedConcat([a], q, blocks);
  }

  /** What changing the headers `b` into `b'` outside of `s` leaves alone. */
  lemma PartFrame(c: Config, s: seq<nat>, b: map<nat, Block>, b': map<nat, Block>, from: nat, to: nat)
    requires Known(s, b) && Tiles(c, s, b, from, to)
    requires forall x :: x in s ==> x in b' && b'[x] == b[x]
    ensures Known(s, b') && Tiles(c, s, b', from, to)
    ensures Merged(s, b') == Merged(s, b)
    ensures Total(s, b', false) == Total(s, b, false) && Total(s, b', true) == Total(s, b, true)
  {
    TilesFrame(c, s, b, b', from, to);
    MergedFrame(s, b, b');
    TotalFrame(s, b, b', false);
    TotalFrame(s, b, b', true);
  }

  /** Rewriting the header of `a`, but not its size. */
  lemma SiteRewritten(c: Config, order: seq<nat>, b: map<nat, Block>, p: seq<nat>, a: nat, q: seq<nat>, v: Block)
    requires Site(c, order, b, p, a, q) && v.size == b[a].size
    ensures Site(c, order, b[a := v], p, a, q)
    ensures Known(p, b) && Known(q, b) && Known(p, b[a := v]) && Known(q, b[a := v])
    ensures Merged(p, b[a := v]) == Merged(p, b) && Merged(q, b[a := v]) == Merged(q, b)
    ensures forall act :: Total(p, b[a := v], act) == Total(p, b, act) && Total(q, b[a := v], act) == Total(q, b, act)
  {
    hide Tiles, Merged, Total;
    PartFrame(c, p, b, b[a := v], c.base, a);
    PartFrame(c, q, b, b[a := v], End(c, b, a), c.total);
  }

  // ---------- handing out and taking back ----------

  /** The heap after the loose block `a` was handed out whole. */
  function Taken(h: Heap, a: nat, act: nat): Heap
    requires a in h.blocks
  {
    h.(blocks := h.blocks[a := Block(h.blocks[a].size, true, act, None)])
  }

  lemma TakenListed(c: Config, h: Heap, a: nat, act: nat)
    requires c.Valid() && Listed(c, h, {a}) && a in h.blocks && !h.blocks[a].alloc
    ensures Listed(c, Taken(h, a, act), {})
  {
    hide Class, InsertIndex;
  }

  lemma TakenKeeps(c: Config, h: Heap, a: nat, act: nat)
    requires c.Valid() && Tiled(c, h) && Merged(h.order, h.blocks) && a in h.blocks && !h.blocks[a].alloc
    ensures var t := Taken(h, a, act);
      && Tiled(c, t) && Merged(t.order, t.blocks)
      && Total(t.order, t.blocks, false) == Total(h.order, h.blocks, false) + h.blocks[a].size
      && Total(t.order, t.blocks, true) == Total(h.order, h.blocks, true) + act
  {
    hide Tiles, Merged, Total, IndexOf;
    var t, i := Taken(h, a, act), IndexOf(h.order, a);
    var p, q := h.order[..i], h.order[i + 1..];
    TiledSite(c, h, a);
    SiteRewritten(c, h.order, h.blocks, p, a, q, t.blocks[a]);
    SiteTiled(c, t, p, a, q);
    SiteMerged(c, h.order, h.blocks, p, a, q);
    SiteMerged(c, t.order, t.blocks, p, a, q);
    SiteTotal(c, h.order, h.blocks, p, a, q, false);
    SiteTotal(c, t.order, t.blocks, p, a, q, false);
    SiteTotal(c, h.order, h.blocks, p, a, q, true);
    SiteTotal(c, t.order, t.blocks, p, a, q, true);
  }

  /** The heap after the first `size` bytes of the loose block `a` were handed out; the rest
      is a new loose block behind it. */
  function Carved(c: Config, h: Heap, a: nat, size: nat): Heap
    requires a in h.blocks && a in h.order && size + c.header <= h.blocks[a].size
  {
    var i, n := IndexOf(h.order, a), a + c.header + size;
    var b := h.blocks[a];
    h.(order := h.order[..i] + ([a] + ([n] + h.order[i + 1..])),
       blocks := h.blocks[a := Block(size, true, size, None)][n := Block(b.size - size - c.header, false, b.act, None)])
  }

  lemma CarvedIsNew(c: Config, h: Heap, a: nat, size: nat)
    requires c.Valid() && Tiled(c, h) && a in h.blocks && size + c.header <= h.blocks[a].size
    ensures a + c.header + size !in h.blocks
  {
    if a + c.header + size in h.blocks {
      Disjoint(c, h, a, a + c.header + size);
    }
  }

  lemma CarvedListed(c: Config, h: Heap, a: nat, size: nat)
    requires c.Valid() && Listed(c, h, {a}) && a in h.blocks && a in h.order && !h.blocks[a].alloc && size + c.header <= h.blocks[a].size
    requires a + c.header + size !in h.blocks
    ensures Listed(c, Carved(c, h, a, size), {a + c.header + size})
  {
    hide Class, InsertIndex, IndexOf;
  }

  lemma CarvedSite(c: Config, order: seq<nat>, blocks: map<nat, Block>, p: seq<nat>, a: nat, n: nat, q: seq<nat>, b: Block, r: Block)
    requires Site(c, order, blocks, p, a, q) && n !in blocks
    requires n == a + c.header + b.size && n + c.header + r.size == End(c, blocks, a)
    ensures var w := blocks[a := b][n := r];
      && Site(c, p + ([a] + ([n] + q)), w, p, a, [n] + q) && Known(q, w)
      && Merged(p, w) == Merged(p, blocks) && Merged(q, w) == Merged(q, blocks)
      && Total(p, w, false) == Total(p, blocks, false) && Total(p, w, true) == Total(p, blocks, true)
      && Total(q, w, false) == Total(q, blocks, false) && Total(q, w, true) == Total(q, blocks, true)
  {
    hide Tiles, Merged, Total, Known;
    var w := blocks[a := b][n := r];
    PartFrame(c, p, blocks, w, c.base, a);
    PartFrame(c, q, blocks, w, End(c, blocks, a), c.total);
    TilesCons(c, n, q, w, c.total);
    Cons(n, q);
  }

  lemma CarvedKeeps(c: Config, h: Heap, a: nat, size: nat)
    requires c.Valid() && Tiled(c, h) && Merged(h.order, h.blocks) && a in h.blocks && !h.blocks[a].alloc
    requires size + c.header <= h.blocks[a].size
    ensures var w := Carved(c, h, a, size);
      Known(w.order, w.blocks) && Tiled(c, w) && Merged(w.order, w.blocks) && |w.order| == |h.order| + 1
  {
    hide Tiles, Merged, Total, IndexOf, Site;
    var w, i, n := Carved(c, h, a, size), IndexOf(h.order, a), a + c.header + size;
    var p, q := h.order[..i], h.order[i + 1..];
    TiledSite(c, h, a);
    CarvedIsNew(c, h, a, size);
    CarvedSite(c, h.order, h.blocks, p, a, n, q, w.blocks[a], w.blocks[n]);
    SiteTiled(c, w, p, a, [n] + q);
    SiteMerged(c, h.order, h.blocks, p, a, q);
    SiteMerged(c, w.order, w.blocks, p, a, [n] + q);
    MergedCons(n, q, w.blocks);
  }

  lemma CarvedTotal(c: Config, h: Heap, a: nat, size: nat, act: bool)
    requires c.Valid() && Tiled(c, h) && a in h.blocks && !h.blocks[a].alloc && size + c.header <= h.blocks[a].size
    requires Known(Carved(c, h, a, size).order, Carved(c, h, a, size).blocks)
    ensures Total(Carved(c, h, a, size).order, Carved(c, h, a, size).blocks, act) == Total(h.order, h.blocks, act) + size
  {
    hide Tiles, Merged, Total, IndexOf, Known, Tiled, Site;
    TiledSite(c, h, a);
    KnownOf(c, h);
    CarvedIsNew(c, h, a, size);
    var w, i, n := Carved(c, h, a, size), IndexOf(h.order, a), a + c.header + size;
    var p, q := h.order[..i], h.order[i + 1..];
    CarvedSite(c, h.order, h.blocks, p, a, n, q, w.blocks[a], w.blocks[n]);
    SiteTotal(c, h.order, h.blocks, p, a, q, act);
    SiteTotal(c, w.order, w.blocks, p, a, [n] + q, act);
    SiteKnown(c, w.order, w.blocks, p, a, [n] + q);
    TotalCons(n, q, w.blocks, act);
  }

  lemma TilesCons(c: Config, a: nat, q: seq<nat>, blocks: map<nat, Block>, to: nat)
    requires a in blocks && Known(q, blocks) && Tiles(c, q, blocks, End(c, blocks, a), to)
    ensures Known([a] + q, blocks) && Tiles(c, [a] + q, blocks, a, to)
  {
    Cons(a, q);
  }

  lemma MergedCons(a: nat, q: seq<nat>, blocks: map<nat, Block>)
    requires a in blocks && Known(q, blocks) && Known([a] + q, blocks)
    ensures Merged([a] + q, blocks) <==> Merged(q, blocks) && (q == [] || blocks[a].alloc || blocks[q[0]].alloc)
  {
    Cons(a, q);
    MergedConcat([a], q, blocks);
  }

  lemma TotalCons(a: nat, q: seq<nat>, blocks: map<nat, Block>, act: bool)
    requires a in blocks && Known(q, blocks) && Known([a] + q, blocks)
    ensures Total([a] + q, blocks, act) == Weight(blocks[a], act) + Total(q, blocks, act)
  {
    Cons(a, q);
  }

  /** The heap after the loose block `a` swallowed the loose block `n` behind it. */
  function Joined(c: Config, h: Heap, a: nat, n: nat): Heap
    requires a in h.blocks && n in h.blocks
  {
    h.(order := Remove(h.order, n),
       blocks := h.blocks[a := h.blocks[a].(size := h.blocks[a].size + c.header + h.blocks[n].size)] - {n})
  }

  lemma JoinedListed(c: Config, h: Heap, a: nat, n: nat)
    requires c.Valid() && Listed(c, h, {a, n}) && a in h.blocks && n in h.blocks && a != n
    requires !h.blocks[a].alloc && !h.blocks[n].alloc
    ensures Listed(c, Joined(c, h, a, n), {a})
  {
    hide Class, InsertIndex, Remove, IndexOf;
  }

  lemma JoinedSite(c: Config, h: Heap, p: seq<nat>, a: nat, n: nat, q: seq<nat>)
    requires c.Valid() && Site(c, h.order, h.blocks, p, a, [n] + q)
    ensures n in h.blocks && n != a && n == End(c, h.blocks, a) && Known(q, h.blocks)
    ensures var w := Joined(c, h, a, n);
      && Site(c, w.order, w.blocks, p, a, q)
      && Merged(p, w.blocks) == Merged(p, h.blocks) && Merged(q, w.blocks) == Merged(q, h.blocks)
      && Total(p, w.blocks, false) == Total(p, h.blocks, false) && Total(p, w.blocks, true) == Total(p, h.blocks, true)
      && Total(q, w.blocks, false) == Total(q, h.blocks, false) && Total(q, w.blocks, true) == Total(q, h.blocks, true)
  {
    hide Merged, Total, IndexOf, Remove;
    Cons(n, q);
    KnownTail(n, q, h.blocks);
    var w := Joined(c, h, a, n);
    TilesWithin(c, p, h.blocks, c.base, a);
    TilesWithin(c, q, h.blocks, End(c, h.blocks, n), c.total);
    RemoveThird(p, a, n, q);
    PartFrame(c, p, h.blocks, w.blocks, c.base, a);
    PartFrame(c, q, h.blocks, w.blocks, End(c, h.blocks, n), c.total);
  }

  lemma KnownTail(n: nat, q: seq<nat>, blocks: map<nat, Block>)
    requires Known([n] + q, blocks)
    ensures n in blocks && Known(q, blocks)
  {
    Cons(n, q);
  }

  lemma JoinedTotal(c: Config, h: Heap, p: seq<nat>, a: nat, n: nat, q: seq<nat>, act: bool)
    requires c.Valid() && Site(c, h.order, h.blocks, p, a, [n] + q) && Known(h.order, h.blocks)
    requires n in h.blocks && !h.blocks[a].alloc && !h.blocks[n].alloc
    ensures var w := Joined(c, h, a, n);
      Known(w.order, w.blocks) && Total(w.order, w.blocks, act) == Total(h.order, h.blocks, act)
  {
    hide Tiles, Merged, Total, IndexOf, Remove;
    var w := Joined(c, h, a, n);
    JoinedSite(c, h, p, a, n, q);
    SiteTiled(c, w, p, a, q);
    SiteTotal(c, h.order, h.blocks, p, a, [n] + q, act);
    TotalCons(n, q, h.blocks, act);
    SiteTotal(c, w.order, w.blocks, p, a, q, act);
  }

  lemma {:induction false} IndexBehind(p: seq<nat>, n: nat, q: seq<nat>)
    requires n !in p
    ensures IndexOf(p + ([n] + q), n) == |p|
  {
    if p == [] {
      assert p + ([n] + q) == [n] + q;
    } else {
      assert (p + ([n] + q))[1..] == p[1..] + ([n] + q);
      IndexBehind(p[1..], n, q);
    }
  }

  lemma RemoveSecond(p: seq<nat>, n: nat, q: seq<nat>)
    requires n !in p
    ensures Remove(p + ([n] + q), n) == p + q
  {
    hide IndexOf;
    IndexBehind(p, n, q);
    var s := p + ([n] + q);
    assert s[..|p|] == p && s[|p| + 1..] == q;
  }

  lemma RemoveThird(p: seq<nat>, a: nat, n: nat, q: seq<nat>)
    requires n !in p && n != a && n !in q
    ensures Remove(p + ([a] + ([n] + q)), n) == p + ([a] + q)
    ensures |Remove(p + ([a] + ([n] + q)), n)| == |p| + 1 + |q|
  {
    hide Remove;
    assert p + ([a] + ([n] + q)) == (p + [a]) + ([n] + q) && (p + [a]) + q == p + ([a] + q);
    RemoveSecond(p + [a], n, q);
  }

  // ---------- finding a block ----------

  ghost predicate Fits(h: Heap, x: nat, size: nat)
  {
    x in h.blocks && !h.blocks[x].alloc && h.blocks[x].size >= size
  }

  /** When a request is served: a free block is large enough; but a request of at most the
      least class size is served from class 0 alone while that class has a free block. */
  ghost predicate CanServe(c: Config, h: Heap, size: nat)
    requires c.Valid() && |h.lists| == c.freeLen
  {
    && size > 0
    && if size <= c.minSize && h.lists[0] != [] then exists x :: x in h.lists[0] && Fits(h, x, size)
       else exists x :: Fits(h, x, size)
  }

  /** Class `k` is searched for a request whose class is `index`: that class, or the next one
      that has a free block, but none above the last. */
  predicate Searched(h: Heap, index: nat, k: nat)
  {
    if index >= h.maxAvailable then k == h.maxAvailable
    else k < |h.lists| && (if index < |h.lists| && h.lists[index] != [] then k == index
                           else k > index && h.lists[k] != [] && forall j :: index < j < k ==> h.lists[j] == [])
  }

  /** `st` is the first block large enough in the class that is searched. */
  ghost predicate FirstFound(c: Config, h: Heap, size: nat, st: nat)
    requires c.Valid()
  {
    exists k :: 0 <= k < |h.lists| && Searched(h, AllocIndex(c, size), k) && FirstIn(h, h.lists[k], size, st)
  }

  ghost predicate FirstIn(h: Heap, list: seq<nat>, size: nat, st: nat)
  {
    && st in list && Fits(h, st, size)
    && forall i :: 0 <= i < IndexOf(list, st) ==> !Fits(h, list[i], size)
  }

  lemma ListedClass(c: Config, h: Heap, x: nat, k: nat)
    requires c.Valid() && Listed(c, h, {}) && k < c.freeLen && x in h.lists[k]
    ensures x in h.blocks && !h.blocks[x].alloc && Class(c, h.blocks[x].size) == k
    ensures k > 0 ==> Bound(c, k) <= h.blocks[x].size
    ensures k < c.freeLen - 1 ==> h.blocks[x].size < Bound(c, k + 1)
  {
    var s := h.blocks[x].size;
    InsertIndexBounds(c, s);
    var i := InsertIndex(c, s);
    if k > 0 && i >= c.freeLen {
      BoundMonotone(c, k, i);
    }
    assert s < c.minSize ==> i == 0;
  }

  /** Searching one class is enough. */
  lemma SearchIsComplete(c: Config, h: Heap, size: nat, k: nat)
    requires c.Valid() && Listed(c, h, {}) && Avail(c, h) && h.available != [] && size > 0
    requires Searched(h, AllocIndex(c, size), k)
    ensures k < c.freeLen && h.lists[k] != []
    ensures CanServe(c, h, size) <==> exists x :: x in h.lists[k] && Fits(h, x, size)
  {
    hide InsertIndex, AllocIndex, Class, Bound;
    var index := AllocIndex(c, size);
    assert h.maxAvailable in h.available;
    AllocIndexBounds(c, size);
    assert h.lists[k][0] in h.lists[k];
    if index < k || (index == k && k > 0) {
      forall x | x in h.lists[k] ensures Fits(h, x, size) {
        ListedClass(c, h, x, k);
        BoundMonotone(c, index, k);
      }
    } else if index > k {
      forall x | Fits(h, x, size) ensures x in h.lists[k] {
        var j := Class(c, h.blocks[x].size);
        LastIsMost(c, h, j);
        ListedClass(c, h, x, j);
        if j != k {
          BoundMonotone(c, j + 1, index - 1);
        }
      }
    } else {
      forall x | Fits(h, x, size) && h.maxAvailable == 0 ensures x in h.lists[0] {
        LastIsMost(c, h, Class(c, h.blocks[x].size));
      }
    }
  }

  /** A free block larger than some block of the last non-empty class is in that class too. */
  lemma LastClassIsLargest(c: Config, h: Heap, x: nat, y: nat)
    requires c.Valid() && Listed(c, h, {}) && Avail(c, h)
    requires Fits(h, x, 0) && Fits(h, y, 0) && Class(c, h.blocks[x].size) == h.maxAvailable
    ensures h.maxAvailable < |h.lists|
    ensures h.blocks[y].size <= h.blocks[x].size || y in h.lists[h.maxAvailable]
  {
    var k := Class(c, h.blocks[y].size);
    LastIsMost(c, h, k);
    if h.blocks[x].size < h.blocks[y].size {
      IndexMonotone(c, h.blocks[x].size, h.blocks[y].size);
      assert k == h.maxAvailable;
    }
  }

  /** The allocated blocks. */
  ghost function Live(blocks: map<nat, Block>): map<nat, Block>
  {
    map a | a in blocks && blocks[a].alloc :: blocks[a]
  }

  /** Moving a loose block to or from a free list does not touch the tiling. */
  lemma FiledKeeps(c: Config, h: Heap, h': Heap, x: nat)
    requires c.Valid() && Tiled(c, h) && x in h.blocks && h'.order == h.order
    requires exists o :: h'.blocks == h.blocks[x := h.blocks[x].(home := o)]
    ensures Tiled(c, h') && Merged(h'.order, h'.blocks) == Merged(h.order, h.blocks)
    ensures Total(h'.order, h'.blocks, false) == Total(h.order, h.blocks, false)
    ensures Total(h'.order, h'.blocks, true) == Total(h.order, h.blocks, true)
  {
    TilesFrame(c, h.order, h.blocks, h'.blocks, c.base, c.total);
    MergedFrame(h.order, h.blocks, h'.blocks);
    TotalFrame(h.order, h.blocks, h'.blocks, false);
    TotalFrame(h.order, h.blocks, h'.blocks, true);
  }

  ghost predicate Loose(c: Config, h: Heap, st: nat)
  {
    && c.Valid() && Tiled(c, h) && Listed(c, h, {st}) && Avail(c, h)
    && Merged(h.order, h.blocks) && st in h.blocks && !h.blocks[st].alloc
  }

  lemma AvailFrame(c: Config, h: Heap, h': Heap)
    requires Avail(c, h) && h'.lists == h.lists && h'.available == h.available && h'.maxAvailable == h.maxAvailable
    ensures Avail(c, h')
  {
  }

  lemma LiveTaken(b: map<nat, Block>, b': map<nat, Block>, st: nat)
    requires st in b && st in b' && b'[st].alloc
    requires forall x :: x in b && x != st ==> x in b' && (b'[x] == b[x] || (!b[x].alloc && !b'[x].alloc))
    requires forall x :: x in b' && x !in b ==> !b'[x].alloc
    ensures Live(b') == Live(b)[st := b'[st]]
  {
  }

  lemma Basics(c: Config, h: Heap)
    requires Tiled(c, h) && Avail(c, h)
    ensures Known(h.order, h.blocks) && |h.lists| == c.freeLen && forall a :: a in h.blocks <==> a in h.order
  {
  }

  lemma TakenSettles(c: Config, h: Heap, st: nat, act: nat)
    requires Loose(c, h, st)
    ensures var t := Taken(h, st, act);
      && Inv(c, t) && Live(t.blocks) == Live(h.blocks)[st := t.blocks[st]]
      && Known(h.order, h.blocks)
      && Total(t.order, t.blocks, false) == Total(h.order, h.blocks, false) + h.blocks[st].size
      && Total(t.order, t.blocks, true) == Total(h.order, h.blocks, true) + act
  {
    hide Tiled, Merged, Total, Listed, Avail, Class, InsertIndex, IndexOf, Known;
    Basics(c, h);
    TakenKeeps(c, h, st, act);
    TakenListed(c, h, st, act);
    AvailFrame(c, h, Taken(h, st, act));
    LiveTaken(h.blocks, Taken(h, st, act).blocks, st);
  }

  lemma CarvedLoose(c: Config, h: Heap, st: nat, size: nat)
    requires Loose(c, h, st) && size + c.header <= h.blocks[st].size
    ensures st in h.order && Known(h.order, h.blocks)
    ensures var w, n := Carved(c, h, st, size), st + c.header + size;
      && Loose(c, w, n) && n !in h.blocks && Live(w.blocks) == Live(h.blocks)[st := w.blocks[st]]
      && |w.order| == |h.order| + 1
      && Total(w.order, w.blocks, false) == Total(h.order, h.blocks, false) + size
      && Total(w.order, w.blocks, true) == Total(h.order, h.blocks, true) + size
  {
    hide Tiled, Merged, Total, Listed, Avail, Class, InsertIndex, IndexOf, Known;
    Basics(c, h);
    var w, n := Carved(c, h, st, size), st + c.header + size;
    CarvedIsNew(c, h, st, size);
    CarvedKeeps(c, h, st, size);
    CarvedTotal(c, h, st, size, false);
    CarvedTotal(c, h, st, size, true);
    CarvedListed(c, h, st, size);
    AvailFrame(c, h, w);
    LiveTaken(h.blocks, w.blocks, st);
  }

  lemma FiledSettles(c: Config, h: Heap, x: nat)
    requires Loose(c, h, x)
    ensures Class(c, h.blocks[x].size) < |h.lists| && Known(h.order, h.blocks)
    ensures var f := Filed(h, x, Class(c, h.blocks[x].size));
      && Inv(c, f) && Live(f.blocks) == Live(h.blocks)
      && Total(f.order, f.blocks, false) == Total(h.order, h.blocks, false)
      && Total(f.order, f.blocks, true) == Total(h.order, h.blocks, true)
  {
    hide Tiled, Merged, Total, Listed, Avail, Class, InsertIndex, IndexOf, Known, Above;
    Basics(c, h);
    var k := Class(c, h.blocks[x].size);
    var f := Filed(h, x, k);
    FiledLists(c, h, {x}, x);
    FiledAvail(c, h, x, k);
    assert {x} - {x} == {};
    FiledKeeps(c, h, f, x);
    assert Live(f.blocks) == Live(h.blocks);
  }

  lemma UnlistedSettles(c: Config, h: Heap, x: nat)
    requires Inv(c, h) && Fits(h, x, 0)
    ensures Known(h.order, h.blocks) && h.blocks[x].home.Some? && h.blocks[x].home.value < |h.lists|
    ensures var u := Unlisted(h, x, h.blocks[x].home.value);
      && Loose(c, u, x) && Live(u.blocks) == Live(h.blocks)
      && Total(u.order, u.blocks, false) == Total(h.order, h.blocks, false)
      && Total(u.order, u.blocks, true) == Total(h.order, h.blocks, true)
  {
    hide Tiled, Merged, Total, Avail, Class, InsertIndex, IndexOf, Known, Remove;
    Basics(c, h);
    var k := h.blocks[x].home.value;
    UnlistedLists(c, h, {}, x, k);
    UnlistedAvail(c, h, x, k);
    assert {} + {x} == {x};
    FiledKeeps(c, h, Unlisted(h, x, k), x);
    assert Live(Unlisted(h, x, k).blocks) == Live(h.blocks);
  }

  lemma LastInRange(c: Config, h: Heap)
    requires Avail(c, h)
    ensures h.available != [] ==> h.maxAvailable < |h.lists|
    ensures h.available == [] ==> h.maxAvailable == |h.lists|
  {
    if h.available != [] {
      assert h.maxAvailable in h.available;
    }
  }

  lemma NothingAvailable(c: Config, h: Heap, size: nat)
    requires Inv(c, h) && h.maxAvailable == |h.lists|
    ensures h.available == [] && !CanServe(c, h, size)
  {
    hide Class, Tiled, Merged;
    forall x ensures !Fits(h, x, size) {
      if Fits(h, x, size) {
        LastIsMost(c, h, Class(c, h.blocks[x].size));
      }
    }
    LastInRange(c, h);
  }

  lemma NothingFree(c: Config, h: Heap)
    requires Inv(c, h) && h.available == []
    ensures forall x :: !Fits(h, x, 0)
  {
    hide Class, Tiled, Merged;
    forall x ensures !Fits(h, x, 0) {
      if Fits(h, x, 0) {
        LastIsMost(c, h, Class(c, h.blocks[x].size));
      }
    }
  }

  /** A block `st` is being taken back: it is free but on no list, and only it may have free
      neighbours. */
  ghost predicate Freeing(c: Config, h: Heap, p: seq<nat>, st: nat, q: seq<nat>)
  {
    && c.Valid() && Site(c, h.order, h.blocks, p, st, q) && Listed(c, h, {st}) && Avail(c, h)
    && !h.blocks[st].alloc && Known(h.order, h.blocks) && Merged(p, h.blocks) && Merged(q, h.blocks)
  }

  function Freed(h: Heap, st: nat): Heap
    requires st in h.blocks
  {
    h.(blocks := h.blocks[st := h.blocks[st].(alloc := false)])
  }

  lemma FreedListed(c: Config, h: Heap, st: nat)
    requires c.Valid() && Listed(c, h, {}) && st in h.blocks && h.blocks[st].alloc
    ensures Listed(c, Freed(h, st), {st})
  {
    hide Class, InsertIndex;
  }

  lemma FreedStarts(c: Config, h: Heap, st: nat)
    requires Inv(c, h) && st in h.blocks && h.blocks[st].alloc
    ensures var i := IndexOf(h.order, st);
      i < |h.order| && Freeing(c, Freed(h, st), h.order[..i], st, h.order[i + 1..])
  {
    hide Tiled, Tiles, Merged, Total, Listed, Avail, IndexOf, Known;
    Basics(c, h);
    var f, i := Freed(h, st), IndexOf(h.order, st);
    var p, q := h.order[..i], h.order[i + 1..];
    TiledSite(c, h, st);
    FreedListed(c, h, st);
    AvailFrame(c, h, f);
    SiteMerged(c, h.order, h.blocks, p, st, q);
    SiteRewritten(c, h.order, h.blocks, p, st, q, f.blocks[st]);
    SiteTiled(c, f, p, st, q);
    Basics(c, f);
  }

  lemma KnownOf(c: Config, h: Heap)
    requires Tiled(c, h)
    ensures Known(h.order, h.blocks)
  {
  }

  lemma FreedTotal(c: Config, h: Heap, st: nat, act: bool)
    requires Inv(c, h) && st in h.blocks && h.blocks[st].alloc
    ensures Known(h.order, h.blocks) && Known(h.order, Freed(h, st).blocks)
    ensures Total(h.order, Freed(h, st).blocks, act) == Total(h.order, h.blocks, act) - Weight(h.blocks[st], act)
    ensures Live(Freed(h, st).blocks) == Live(h.blocks) - {st}
  {
    hide Tiled, Tiles, Merged, Total, Listed, Avail, IndexOf, Known;
    Basics(c, h);
    var f, i := Freed(h, st), IndexOf(h.order, st);
    var p, q := h.order[..i], h.order[i + 1..];
    TiledSite(c, h, st);
    SiteRewritten(c, h.order, h.blocks, p, st, q, f.blocks[st]);
    SiteTiled(c, f, p, st, q);
    KnownOf(c, f);
    SiteTotal(c, h.order, h.blocks, p, st, q, act);
    SiteTotal(c, f.order, f.blocks, p, st, q, act);
    LiveFreed(h.blocks, f.blocks, st);
  }

  lemma LiveFreed(b: map<nat, Block>, b': map<nat, Block>, st: nat)
    requires st in b && b' == b[st := b[st].(alloc := false)]
    ensures Live(b') == Live(b) - {st}
  {
  }

  /** Rewriting the free-list entry of a header changes neither tiling nor sums. */
  lemma SiteRelisted(c: Config, order: seq<nat>, b: map<nat, Block>, p: seq<nat>, a: nat, q: seq<nat>, x: nat, o: Option)
    requires Site(c, order, b, p, a, q) && x in b
    ensures var b' := b[x := b[x].(home := o)];
      && Site(c, order, b', p, a, q)
      && Merged(p, b') == Merged(p, b) && Merged(q, b') == Merged(q, b)
  {
    hide Merged, Total;
    var b' := b[x := b[x].(home := o)];
    TilesFrame(c, p, b, b', c.base, a);
    TilesFrame(c, q, b, b', End(c, b, a), c.total);
    MergedFrame(p, b, b');
    MergedFrame(q, b, b');
  }

  lemma RelistedTotal(order: seq<nat>, b: map<nat, Block>, x: nat, o: Option)
    requires Known(order, b) && x in b
    ensures var b' := b[x := b[x].(home := o)];
      && Known(order, b') && Total(order, b', false) == Total(order, b, false) && Total(order, b', true) == Total(order, b, true)
      && Live(b[x := b[x].(home := o)]).Keys == Live(b).Keys
  {
    var b' := b[x := b[x].(home := o)];
    TotalFrame(order, b, b', false);
    TotalFrame(order, b, b', true);
    assert Live(b').Keys == Live(b).Keys;
  }

  /** The neighbour `x` of the block being taken back leaves its free list. */
  lemma UnlistedFreeing(c: Config, h: Heap, p: seq<nat>, st: nat, q: seq<nat>, x: nat)
    requires Freeing(c, h, p, st, q) && x in h.blocks && x != st && !h.blocks[x].alloc
    ensures h.blocks[x].home.Some? && h.blocks[x].home.value < |h.lists|
    ensures var u := Unlisted(h, x, h.blocks[x].home.value);
      && Site(c, u.order, u.blocks, p, st, q) && Listed(c, u, {st, x}) && Avail(c, u) && Known(u.order, u.blocks)
      && Merged(p, u.blocks) && Merged(q, u.blocks)
  {
    hide Merged, Total, Avail, Tiles, Class, InsertIndex, IndexOf, Remove;
    var k := h.blocks[x].home.value;
    UnlistedLists(c, h, {st}, x, k);
    UnlistedAvail(c, h, x, k);
    assert {st} + {x} == {st, x};
    SiteRelisted(c, h.order, h.blocks, p, st, q, x, None);
  }

  /** The block being taken back swallows its free right neighbour. */
  lemma JoinsNext(c: Config, h: Heap, p: seq<nat>, st: nat, n: nat, q: seq<nat>)
    requires c.Valid() && Site(c, h.order, h.blocks, p, st, [n] + q) && Listed(c, h, {st, n}) && Avail(c, h)
    requires !h.blocks[st].alloc && n in h.blocks && !h.blocks[n].alloc && Known(h.order, h.blocks)
    requires Merged(p, h.blocks) && Merged([n] + q, h.blocks)
    ensures var w := Joined(c, h, st, n);
      && Freeing(c, w, p, st, q) && (q == [] || w.blocks[q[0]].alloc)
      && Live(w.blocks) == Live(h.blocks) && |w.order| == |h.order| - 1
  {
    hide Merged, Total, Avail, Tiles, Listed, IndexOf, Remove;
    var w := Joined(c, h, st, n);
    JoinedSite(c, h, p, st, n, q);
    JoinedListed(c, h, st, n);
    AvailFrame(c, h, w);
    MergedCons(n, q, h.blocks);
    SiteTiled(c, w, p, st, q);
    KnownOf(c, w);
    Cons(n, q);
    assert Live(w.blocks) == Live(h.blocks);
  }

  /** The free left neighbour `m` swallows the block being taken back. */
  lemma JoinsPrev(c: Config, h: Heap, p: seq<nat>, m: nat, st: nat, q: seq<nat>)
    requires c.Valid() && Site(c, h.order, h.blocks, p + [m], st, q) && Listed(c, h, {st, m}) && Avail(c, h)
    requires !h.blocks[st].alloc && m in h.blocks && !h.blocks[m].alloc && Known(h.order, h.blocks)
    requires Merged(p + [m], h.blocks) && Merged(q, h.blocks) && (q == [] || h.blocks[q[0]].alloc)
    ensures Site(c, h.order, h.blocks, p, m, [st] + q) && st == End(c, h.blocks, m)
    ensures var w := Joined(c, h, m, st);
      && Freeing(c, w, p, m, q) && (q == [] || w.blocks[q[0]].alloc) && (p == [] || w.blocks[p[|p| - 1]].alloc)
      && Live(w.blocks) == Live(h.blocks) && |w.order| == |h.order| - 1
  {
    hide Merged, Total, Avail, Tiles, Listed, IndexOf, Remove;
    var w := Joined(c, h, m, st);
    SiteShift(c, h.order, h.blocks, p, m, st, q);
    JoinedSite(c, h, p, m, st, q);
    assert {st, m} == {m, st};
    JoinedListed(c, h, m, st);
    AvailFrame(c, h, w);
    MergedConcat(p, [m], h.blocks);
    SiteTiled(c, w, p, m, q);
    KnownOf(c, w);
    Cons(st, q);
    assert Live(w.blocks) == Live(h.blocks);
  }

  lemma SiteShift(c: Config, order: seq<nat>, b: map<nat, Block>, p: seq<nat>, m: nat, st: nat, q: seq<nat>)
    requires c.Valid() && Site(c, order, b, p + [m], st, q)
    ensures Site(c, order, b, p, m, [st] + q) && st == End(c, b, m)
  {
    KnownParts(p, [m], b);
    TilesSplit(c, p, [m], b, c.base, st);
    assert [m][1..] == [];
    TilesCons(c, st, q, b, c.total);
    assert order == p + ([m] + ([st] + q));
    TilesWithin(c, p, b, c.base, m);
    TilesWithin(c, q, b, End(c, b, st), c.total);
    Cons(st, q);
    forall x ensures x in p + [m] <==> x in p || x == m { }
  }

  /** When both neighbours of the block are allocated or missing, only its free list is missing. */
  lemma FreeingEnds(c: Config, h: Heap, p: seq<nat>, st: nat, q: seq<nat>)
    requires Freeing(c, h, p, st, q)
    requires (q == [] || h.blocks[q[0]].alloc) && (p == [] || h.blocks[p[|p| - 1]].alloc)
    ensures Loose(c, h, st)
  {
    hide Merged, Total, Avail, Tiles, Listed, IndexOf, Remove;
    SiteTiled(c, h, p, st, q);
    SiteMerged(c, h.order, h.blocks, p, st, q);
  }

  /** The heap with one free block that covers everything behind the system area. */
  ghost predicate Whole(c: Config, h: Heap)
    requires c.Valid()
  {
    var size := c.total - c.base - c.header;
    && h.order == [c.base] && h.blocks.Keys == {c.base}
    && h.blocks[c.base].size == size && !h.blocks[c.base].alloc
    && h.blocks[c.base].home == Some(Class(c, size))
    && h.lists == seq(c.freeLen, k => if k == Class(c, size) then [c.base] else [])
    && h.available == [Class(c, size)] && h.maxAvailable == Class(c, size)
  }

  /** Only one heap without allocated blocks satisfies the invariant, up to stale requests. */
  lemma NothingLiveIsWhole(c: Config, h: Heap)
    requires Inv(c, h) && Live(h.blocks) == map[]
    ensures Whole(c, h)
  {
    hide InsertIndex;
    forall a | a in h.blocks ensures !h.blocks[a].alloc {
      assert a in Live(h.blocks) <==> h.blocks[a].alloc;
    }
    assert forall i :: 0 <= i < |h.order| ==> h.order[i] in h.order;
    assert |h.order| == 1;
    var k := Class(c, h.blocks[c.base].size);
    assert h.order == [h.order[0]] && h.order[1..] == [] && h.order[0] in h.order;
    assert forall a :: a in h.blocks.Keys <==> a == c.base;
    assert Tiles(c, h.order[1..], h.blocks, End(c, h.blocks, c.base), c.total);
    OnlyList(c, h, k);
  }

  lemma OtherThan(s: seq<nat>, i: nat, j: nat)
    requires NoDup(s) && i < j < |s|
    ensures s[i] != s[j]
  {
  }

  lemma AtMostOne(s: seq<nat>, x: nat)
    requires NoDup(s) && forall i :: 0 <= i < |s| ==> s[i] == x
    ensures s == [] || s == [x]
  {
    if |s| > 1 {
      OtherThan(s, 0, 1);
    }
  }

  lemma OnlyList(c: Config, h: Heap, k: nat)
    requires c.Valid() && Listed(c, h, {}) && Avail(c, h) && h.blocks.Keys == {c.base} && !h.blocks[c.base].alloc
    requires k == Class(c, h.blocks[c.base].size)
    ensures h.lists == seq(c.freeLen, j => if j == k then [c.base] else [])
    ensures h.available == [k] && h.maxAvailable == k
  {
    hide Class;
    forall j | 0 <= j < c.freeLen ensures h.lists[j] == if j == k then [c.base] else [] {
      var l := h.lists[j];
      forall i | 0 <= i < |l| ensures l[i] == c.base && j == k {
        assert l[i] in l;
        assert l[i] in h.blocks.Keys;
      }
      AtMostOne(l, c.base);
      assert c.base in h.lists[k];
    }
    assert k in h.available;
    forall i | 0 <= i < |h.available| ensures h.available[i] == k {
      var j := h.available[i];
      assert j in h.available && h.lists[j] != [];
    }
    AvailNoDup(h.available);
    AtMostOne(h.available, k);
  }

  lemma WholeIsInv(c: Config, h: Heap)
    requires c.Valid() && Whole(c, h)
    ensures Inv(c, h) && Live(h.blocks) == map[]
    ensures Known(h.order, h.blocks) && Total(h.order, h.blocks, false) == 0 && Total(h.order, h.blocks, true) == 0
  {
    hide Class;
    assert h.order[1..] == [];
    var k := h.maxAvailable;
    assert h.lists[k] == [c.base];
    assert End(c, h.blocks, c.base) == c.total;
    assert forall a :: a in h.blocks ==> a in h.blocks.Keys;
    assert forall j: nat :: j in h.available <==> j == k;
    assert Tiles(c, h.order, h.blocks, c.base, c.total);
    assert Total(h.order[1..], h.blocks, false) == 0 && Total(h.order[1..], h.blocks, true) == 0;
  }

  // ---------- the blocks between the live ones ----------

  lemma {:induction false} MergedAt(order: seq<nat>, blocks: map<nat, Block>, i: nat)
    requires Known(order, blocks) && Merged(order, blocks) && i + 1 < |order|
    ensures order[i] in blocks && order[i + 1] in blocks && (blocks[order[i]].alloc || blocks[order[i + 1]].alloc)
  {
    assert order[i] in order && order[i + 1] in order;
    if i > 0 {
      MergedAt(order[1..], blocks, i - 1);
    }
  }

  /** There is a block at the base, and one behind every block that does not end the region; a
      free block is followed by an allocated one. */
  lemma Follows(c: Config, h: Heap, a: nat)
    requires Inv(c, h) && a in h.blocks
    ensures c.base in h.blocks && c.base <= a && End(c, h.blocks, a) <= c.total
    ensures var n := End(c, h.blocks, a); n < c.total ==> n in h.blocks && (h.blocks[a].alloc || h.blocks[n].alloc)
  {
    hide Merged, Listed, Avail;
    var i := IndexOf(h.order, a);
    Around(c, h.order, h.blocks, c.base, c.total, i);
    assert h.order[0] in h.order;
    var q := h.order[i + 1..];
    if q != [] {
      assert q[0] == h.order[i + 1];
      MergedAt(h.order, h.blocks, i);
    }
  }

  /** Behind an allocated block the free block `n` reaches to the next live one at `to`, or to the
      end of the region. */
  lemma Gap(c: Config, h: Heap, n: nat, to: nat)
    requires Inv(c, h) && n in h.blocks && !h.blocks[n].alloc && n < to
    requires to == c.total || (to in h.blocks && h.blocks[to].alloc)
    requires forall x :: x in h.blocks && h.blocks[x].alloc ==> x <= n || to <= x
    ensures End(c, h.blocks, n) == to
  {
    hide Tiled, Merged, Listed, Avail;
    hide Inv;
    Follows(c, h, n);
    if to != c.total {
      Apart(c, h, n, to);
      Follows(c, h, to);
    }
    var e := End(c, h.blocks, n);
    assert e >= to;
  }

  lemma Apart(c: Config, h: Heap, a: nat, b: nat)
    requires Inv(c, h) && a in h.blocks && b in h.blocks && a < b
    ensures End(c, h.blocks, a) <= b
  {
    hide Tiled, Merged, Listed, Avail;
    Disjoint(c, h, a, b);
  }

  /** The blocks between two addresses where blocks start or end. */
  lemma Between(c: Config, h: Heap, a: nat, x: nat)
    requires Inv(c, h) && a in h.blocks && x in h.blocks && a <= x < End(c, h.blocks, a)
    ensures x == a
  {
    hide Tiled, Merged, Listed, Avail;
    if x != a {
      Apart(c, h, a, x);
    }
  }

  /** One live block, at the base. */
  lemma OneLive(c: Config, h: Heap)
    requires Inv(c, h) && Live(h.blocks).Keys == {c.base} && c.base in h.blocks && End(c, h.blocks, c.base) < c.total
    ensures var n := End(c, h.blocks, c.base);
      && n in h.blocks && Fits(h, n, 0) && End(c, h.blocks, n) == c.total
      && forall x :: Fits(h, x, 0) ==> x == n
  {
    hide Tiled, Merged, Listed, Avail;
    LiveKeys(h.blocks);
    var n := End(c, h.blocks, c.base);
    Follows(c, h, c.base);
    Gap(c, h, n, c.total);
    forall x: nat | Fits(h, x, 0) ensures x == n {
      Follows(c, h, x);
      Apart(c, h, c.base, x);
      Between(c, h, n, x);
    }
  }

  /** One live block, `n`, behind a free one. */
  lemma OneLiveBehind(c: Config, h: Heap, n: nat)
    requires Inv(c, h) && Live(h.blocks).Keys == {n} && n in h.blocks && c.base < n && End(c, h.blocks, n) < c.total
    ensures var m := End(c, h.blocks, n);
      && c.base in h.blocks && m in h.blocks && Fits(h, c.base, 0) && Fits(h, m, 0)
      && End(c, h.blocks, c.base) == n && End(c, h.blocks, m) == c.total
      && forall x :: Fits(h, x, 0) ==> x == c.base || x == m
  {
    hide Tiled, Merged, Listed, Avail;
    LiveKeys(h.blocks);
    var m := End(c, h.blocks, n);
    Follows(c, h, n);
    Gap(c, h, c.base, n);
    Gap(c, h, m, c.total);
    forall x: nat | Fits(h, x, 0) ensures x == c.base || x == m {
      Follows(c, h, x);
      if x < n {
        Between(c, h, c.base, x);
      } else {
        Apart(c, h, n, x);
        Between(c, h, m, x);
      }
    }
  }

  lemma LiveKeys(blocks: map<nat, Block>)
    ensures forall x :: x in Live(blocks).Keys <==> x in blocks && blocks[x].alloc
  {
  }

  /** Only block `a` in class 0, and too small for the request, which class 0 alone would serve. */
  lemma OnlyTooSmall(c: Config, h: Heap, a: nat, m: nat, size: nat)
    requires Inv(c, h) && Fits(h, a, 0) && c.freeLen > 1 && h.blocks[a].size < size <= c.minSize
    requires forall x :: Fits(h, x, 0) ==> x == a || x == m
    requires Fits(h, m, Bound(c, 1))
    ensures |h.lists| == c.freeLen && !CanServe(c, h, size) && h.available != []
  {
    hide Tiled, Merged, Avail, InsertIndex;
    var k := Class(c, h.blocks[m].size);
    InsertIndexBounds(c, h.blocks[m].size);
    assert k > 0;
    SmallestClass(c, h.blocks[a].size);
    NonEmpty(c, h, 0, a);
    forall x | x in h.lists[0] ensures x == a {
      assert Fits(h, x, 0);
    }
  }

  lemma SmallestClass(c: Config, size: nat)
    requires c.Valid() && size <= c.minSize
    ensures Class(c, size) == 0
  {
  }

  lemma NonEmpty(c: Config, h: Heap, k: nat, x: nat)
    requires Avail(c, h) && k < c.freeLen && x in h.lists[k]
    ensures h.available != []
  {
    assert k in h.available;
  }
}
