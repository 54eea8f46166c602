/** The shared-memory allocator of src/fast_shmem.c: one object that updates its block headers,
    its lists and its counters in place. */
module Shmem {
  import opened FastMath
  import opened ShmemState

  datatype Error =
    | ErrNone | ErrSize | ErrMinSize | ErrLevelType | ErrFreeLen | ErrTotalSize | ErrNotEnough | ErrMap | ErrStorageSize
    | ErrParam | ErrExhausted | ErrMaxAvailableEmpty | ErrNoAvailableList | ErrNoFixedFreeSpace
    | ErrFoundNoFixed | ErrRemoveFree | ErrCritical | ErrReqMinSize | ErrNonAlloced | ErrRemoveNext | ErrRemovePrev

  const LINEAR := 0
  const EXP := 1
  const EXP_FACTOR := 2

  /** The sizes of the structures that the allocator keeps in its region, and the page size. */
  datatype Layout = Layout(shm: nat, node: nat, storage: nat, page: nat)
  {
    ghost predicate Valid()
    {
      storage > 0 && page > 0 && shm % ALIGN_SIZE == 0 && node % ALIGN_SIZE == 0 && storage % ALIGN_SIZE == 0
    }
  }

  class Shmem {
    const config: Config
    var threshold: nat
    var order: seq<nat>
    var blocks: map<nat, Block>
    var lists: seq<seq<nat>>
    var available: seq<nat>
    var maxAvailable: nat
    var usedSize: int
    var reqsSize: int
    var stCount: int
    var failed: nat
    var splits: nat
    var splitFailed: nat

    ghost function Now(): Heap
      reads this
    {
      Heap(order, blocks, lists, available, maxAvailable)
    }

    ghost predicate Counted()
      reads this
      requires Known(order, blocks)
    {
      stCount == |order| && usedSize == Total(order, blocks, false) && reqsSize == Total(order, blocks, true)
    }

    ghost predicate Valid()
      reads this
    {
      Inv(config, Now()) && Counted()
    }

    /** Whether a request for `size` bytes succeeds. */
    ghost predicate Servable(size: nat)
      reads this
    {
      config.Valid() && |lists| == config.freeLen && CanServe(config, Now(), size)
    }

    /** Takes class `index`, whose free list ran empty, off the sorted list of available classes;
        the last class that is left becomes the cached one. */
    method MakeUnavailable(index: nat)
      requires index in available && Increasing(available) && maxAvailable == available[|available| - 1]
      modifies this`available, this`maxAvailable
      ensures Increasing(available) && forall k: nat :: k in available <==> k in old(available) && k != index
      ensures maxAvailable == if available == [] then config.freeLen else available[|available| - 1]
    {
      hide IndexOf, Remove;
      RemoveLast(available, index);
      if index == maxAvailable {
        var p := IndexOf(available, index);
        if p == 0 {
          maxAvailable := config.freeLen;
        } else {
          maxAvailable := available[p - 1];
        }
      }
      available := Remove(available, index);
    }

    /** fast_shmem_remove_free */
    method RemoveFree(st: nat, ghost loose: set<nat>) returns (ok: bool)
      requires config.Valid() && Listed(config, Now(), loose) && Avail(config, Now())
      requires st in blocks && !blocks[st].alloc && st !in loose
      modifies this`blocks, this`lists, this`available, this`maxAvailable
      ensures ok && old(blocks[st].home).Some? && old(blocks[st].home).value < old(|lists|)
      ensures Now() == Unlisted(old(Now()), st, old(blocks[st].home).value)
      ensures Listed(config, Now(), loose + {st}) && Avail(config, Now())
    {
      hide InsertIndex, Listed, Avail, Remove, IndexOf, Class, Increasing;
      ghost var h := Now();
      HomeIsFound(config, h, loose, st);
      var index := InsertIndex(config, blocks[st].size);
      if index > maxAvailable {
        index := maxAvailable;
      }
      UnlistedLists(config, h, loose, st, index);
      UnlistedAvail(config, h, st, index);
      IsAvailable(config, h, index, st);
      if blocks[st].home != Some(index) {
        return false;
      }
      lists := lists[index := Remove(lists[index], st)];
      if lists[index] == [] {
        ghost var was := available;
        MakeUnavailable(index);
        RemoveLast(was, index);
        OnlyIncreasing(available, Remove(was, index));
      }
      blocks := blocks[st := blocks[st].(home := None)];
      ok := true;
      assert Now() == Unlisted(h, st, index);
    }

    lemma IsAvailable(c: Config, h: Heap, index: nat, st: nat)
      requires Avail(c, h) && index < |h.lists| && st in h.lists[index]
      ensures index in h.available && |h.lists| == c.freeLen
      ensures Increasing(h.available) && h.maxAvailable == h.available[|h.available| - 1]
    {
    }

    /** Enters class `index`, whose free list was empty, into the list of available classes. */
    method MakeAvailable(index: nat)
      requires index !in available
      modifies this`available, this`maxAvailable
      ensures var p := Above(old(available), index);
        && available == old(available[..p] + [index] + available[p..])
        && maxAvailable == if p == |old(available)| then index else old(maxAvailable)
    {
      var p := 0;
      while p < |available|
        invariant 0 <= p <= |available| && available == old(available) && maxAvailable == old(maxAvailable)
        invariant forall i :: 0 <= i < p ==> available[i] <= index
      {
        if index < available[p] {
          AboveIs(available, index, p);
          available := available[..p] + [index] + available[p..];
          return;
        }
        p := p + 1;
      }
      AboveIs(available, index, p);
      available := available + [index];
      maxAvailable := index;
    }

    /** fast_shmem_insert_free */
    method InsertFree(st: nat, ghost loose: set<nat>)
      requires config.Valid() && Listed(config, Now(), loose) && Avail(config, Now())
      requires st in blocks && !blocks[st].alloc && st in loose
      modifies this`blocks, this`lists, this`available, this`maxAvailable
      ensures Now() == Filed(old(Now()), st, Class(config, old(blocks[st].size)))
      ensures st in blocks && blocks[st] == old(blocks[st]).(home := blocks[st].home) && blocks[st].home.Some?
      ensures var k := blocks[st].home.value; k < |old(lists)| && lists == old(lists)[k := [st] + old(lists)[k]]
      ensures Listed(config, Now(), loose - {st}) && Avail(config, Now())
    {
      hide InsertIndex, Listed, Avail, Above;
      ghost var h := Now();
      var index := InsertIndex(config, blocks[st].size);
      if index > config.freeLen - 1 {
        index := config.freeLen - 1;
      }
      FiledLists(config, h, loose, st);
      FiledAvail(config, h, st, index);
      LengthOf(config, h, loose);
      blocks := blocks[st := blocks[st].(home := Some(index))];
      if lists[index] == [] {
        NotYetAvailable(config, h, index);
        MakeAvailable(index);
      }
      lists := lists[index := [st] + lists[index]];
      assert Now() == Filed(h, st, index);
    }

    lemma NotYetAvailable(c: Config, h: Heap, index: nat)
      requires Avail(c, h) && index < |h.lists| && h.lists[index] == []
      ensures index !in h.available
    {
    }

    lemma LengthOf(c: Config, h: Heap, loose: set<nat>)
      requires c.Valid() && Listed(c, h, loose)
      ensures |h.lists| == c.freeLen
    {
    }

    lemma {:induction false} AboveIs(s: seq<nat>, k: nat, p: nat)
      requires p <= |s| && (forall i :: 0 <= i < p ==> s[i] <= k) && (p < |s| ==> k < s[p])
      ensures Above(s, k) == p
    {
      if p > 0 { AboveIs(s[1..], k, p - 1); }
    }

    /** The class a request is served from, as fast_shmem_alloc chooses it. */
    method ChooseClass(size: nat) returns (k: nat)
      requires Inv(config, Now()) && size > 0 && available != []
      ensures Searched(Now(), AllocIndex(config, size), k)
    {
      hide InsertIndex, AllocIndex, Listed, Tiled, Merged;
      var index := AllocIndex(config, size);
      if index >= maxAvailable {
        return maxAvailable;
      }
      assert maxAvailable in available;
      if lists[index] != [] {
        return index;
      }
      var q := 0;
      while q < |available|
        invariant 0 <= q <= |available|
        invariant forall i :: 0 <= i < q ==> available[i] <= index
      {
        assert available[q] in available;
        if lists[available[q]] != [] && available[q] > index {
          assert forall j :: index < j < available[q] && j in available ==> false;
          return available[q];
        }
        q := q + 1;
      }
      assert false;
    }

    /** The first block of a free list that is large enough. */
    method FirstFit(k: nat, size: nat) returns (found: bool, st: nat)
      requires config.Valid() && Listed(config, Now(), {}) && k < config.freeLen && |lists| == config.freeLen && lists[k] != []
      ensures found <==> exists x :: x in lists[k] && Fits(Now(), x, size)
      ensures found ==> FirstIn(Now(), lists[k], size, st)
    {
      hide Class;
      var q := 0;
      found := false;
      st := lists[k][0];
      while q < |lists[k]|
        invariant 0 <= q <= |lists[k]|
        invariant forall i :: 0 <= i < q ==> !Fits(Now(), lists[k][i], size)
      {
        st := lists[k][q];
        assert st in lists[k];
        if blocks[st].size >= size {
          found := true;
          IndexAtMost(lists[k], q);
          return;
        }
        q := q + 1;
      }
    }

    lemma {:induction false} IndexAtMost(s: seq<nat>, i: nat)
      requires i < |s|
      ensures IndexOf(s, s[i]) <= i
    {
      if i > 0 && s[0] != s[i] { IndexAtMost(s[1..], i - 1); }
    }

    /** Hands out the loose block `st` whole. */
    method HandOutWhole(st: nat, size: nat)
      requires Loose(config, Now(), st) && Counted()
      modifies this`blocks, this`usedSize, this`reqsSize
      ensures Valid()
      ensures st in blocks && blocks[st] == Block(old(blocks[st].size), true, size, None)
      ensures Live(blocks) == Live(old(blocks))[st := blocks[st]]
    {
      hide Tiled, Merged, Total, Listed, Avail, Known, Inv;
      TakenSettles(config, Now(), st, size);
      blocks := blocks[st := Block(blocks[st].size, true, size, None)];
      usedSize := usedSize + blocks[st].size;
      reqsSize := reqsSize + size;
    }

    /** Hands out the first `size` bytes of the loose block `st` and files the rest. */
    method HandOutFront(st: nat, size: nat)
      requires Loose(config, Now(), st) && Counted() && blocks[st].size >= size + config.header
      modifies this`order, this`blocks, this`lists, this`available, this`maxAvailable, this`usedSize, this`reqsSize, this`stCount
      ensures Valid()
      ensures st in blocks && blocks[st] == Block(size, true, size, None)
      ensures Live(blocks) == Live(old(blocks))[st := blocks[st]]
    {
      hide Tiled, Merged, Total, Listed, Avail, Known, Inv, IndexOf, Class;
      CarvedLoose(config, Now(), st, size);
      var i, n := IndexOf(order, st), st + config.header + size;
      var b := blocks[st];
      blocks := blocks[st := Block(size, true, size, None)][n := Block(b.size - size - config.header, false, b.act, None)];
      order := order[..i] + ([st] + ([n] + order[i + 1..]));
      FiledSettles(config, Now(), n);
      InsertFree(n, {n});
      usedSize := usedSize + size;
      reqsSize := reqsSize + size;
      stCount := stCount + 1;
    }

    /** Takes a free block off its list, to hand it out. */
    method TakeOff(st: nat) returns (ok: bool)
      requires Valid() && Fits(Now(), st, 0)
      modifies this`blocks, this`lists, this`available, this`maxAvailable
      ensures ok && Loose(config, Now(), st) && Counted()
      ensures st in blocks && blocks[st].size == old(blocks[st].size) && Live(blocks) == Live(old(blocks))
    {
      hide Tiled, Merged, Total, Listed, Avail, Class, Known, IndexOf, Unlisted;
      UnlistedSettles(config, Now(), st);
      ghost var k := blocks[st].home.value;
      UnlistedBlocks(Now(), st, k);
      ok := RemoveFree(st, {});
    }

    /** Takes the chosen block off its free list and hands it out. */
    method Serve(st: nat, size: nat) returns (err: Error)
      requires Valid() && Fits(Now(), st, size)
      modifies this`order, this`blocks, this`lists, this`available, this`maxAvailable, this`usedSize, this`reqsSize, this`stCount
      ensures Valid() && err == ErrNone
      ensures st in blocks && blocks[st].act == size
      ensures blocks[st].size == if old(blocks[st].size) - size < config.header + threshold then old(blocks[st].size) else size
      ensures Live(blocks) == Live(old(blocks))[st := blocks[st]]
    {
      hide Inv, Counted, Loose, Live;
      var ok := TakeOff(st);
      if !ok {
        return ErrRemoveFree;
      }
      if blocks[st].size - size < config.header + threshold {
        HandOutWhole(st, size);
      } else {
        HandOutFront(st, size);
      }
      err := ErrNone;
    }

    lemma UnlistedBlocks(h: Heap, x: nat, k: nat)
      requires x in h.blocks && k < |h.lists|
      ensures Unlisted(h, x, k).blocks == h.blocks[x := h.blocks[x].(home := None)] && Unlisted(h, x, k).order == h.order
    {
    }

    /** fast_shmem_alloc: serves exactly the requests that `Servable` allows, from a free block
        that is large enough, and changes no other live block. */
    method Alloc(size: nat) returns (r: Option, err: Error)
      requires Valid()
      modifies this
      ensures Valid() && threshold == old(threshold) && config.Valid()
      ensures r.Some? <==> old(Servable(size))
      ensures r.Some? ==> err == ErrNone && failed == old(failed) && r.value >= config.header
      ensures r.Some? ==> var st := r.value - config.header;
        && FirstFound(config, old(Now()), size, st) && Fits(old(Now()), st, size) && st in blocks && blocks[st].act == size
        && blocks[st].size == (if old(blocks[st].size) - size < config.header + threshold then old(blocks[st].size) else size)
        && Live(blocks) == Live(old(blocks))[st := blocks[st]]
      ensures r.None? ==> Now() == old(Now()) && usedSize == old(usedSize) && reqsSize == old(reqsSize) && stCount == old(stCount)
      ensures r.None? ==>
        if size == 0 then err == ErrParam && failed == old(failed)
        else failed == old(failed) + 1 && err == (if old(available) == [] then ErrExhausted else ErrFoundNoFixed)
    {
      hide Tiled, Merged, Total, Listed, Avail, Class, AllocIndex, Known, IndexOf, Searched;
      Basics(config, Now());
      LastInRange(config, Now());
      if size == 0 {
        return None, ErrParam;
      }
      if maxAvailable == |lists| {
        NothingAvailable(config, Now(), size);
        failed := failed + 1;
        return None, ErrExhausted;
      }
      var k := ChooseClass(size);
      SearchIsComplete(config, Now(), size, k);
      var found, st := FirstFit(k, size);
      if !found {
        failed := failed + 1;
        return None, ErrFoundNoFixed;
      }
      err := Serve(st, size);
      if err != ErrNone {
        assert false;  // the block is always found on its list
      }
      r := Some(st + config.header);
    }

    /** fast_shmem_get_max_st: a largest free block. */
    method GetMaxSt() returns (r: Option, err: Error)
      requires Valid()
      ensures r.None? <==> forall x :: !Fits(Now(), x, 0)
      ensures r.None? ==> err == ErrExhausted
      ensures r.Some? ==> err == ErrNone && Fits(Now(), r.value, 0) && forall x :: Fits(Now(), x, 0) ==> blocks[x].size <= blocks[r.value].size
    {
      hide Tiled, Merged, Class, InsertIndex;
      Basics(config, Now());
      LastInRange(config, Now());
      if maxAvailable == |lists| || available == [] {
        NothingAvailable(config, Now(), 1);
        NothingFree(config, Now());
        return None, ErrExhausted;
      }
      var k := available[|available| - 1];
      assert k in available;
      var best := Largest(k);
      r, err := Some(best), ErrNone;
      ListedClass(config, Now(), best, k);
      assert Fits(Now(), best, 0);
      forall x | Fits(Now(), x, 0) ensures blocks[x].size <= blocks[best].size {
        LastClassIsLargest(config, Now(), best, x);
      }
    }

    /** A largest block of the free list of class `k`. */
    method Largest(k: nat) returns (best: nat)
      requires config.Valid() && Listed(config, Now(), {}) && k < |lists| == config.freeLen && lists[k] != []
      ensures best in lists[k] && best in blocks
      ensures forall x :: x in lists[k] ==> x in blocks && blocks[x].size <= blocks[best].size
    {
      hide Class;
      var l := lists[k];
      var q := 1;
      best := l[0];
      assert l[0] in l;
      while q < |l|
        invariant 1 <= q <= |l| && best in l
        invariant forall i :: 0 <= i < q ==> l[i] in blocks && blocks[l[i]].size <= blocks[best].size
      {
        assert l[q] in l;
        if blocks[l[q]].size > blocks[best].size {
          best := l[q];
        }
        q := q + 1;
      }
    }

    /** fast_shmem_split_alloc: hands out a largest free block, whole. */
    method SplitAlloc(minSize: nat) returns (r: Option, actSize: nat, err: Error)
      requires Valid()
      modifies this
      ensures Valid() && threshold == old(threshold) && splits == old(splits) + 1
      ensures r.Some? <==> exists x :: Fits(old(Now()), x, minSize)
      ensures r.Some? ==> err == ErrNone && splitFailed == old(splitFailed) && r.value >= config.header
      ensures r.Some? ==> var st := r.value - config.header;
        && Fits(old(Now()), st, minSize) && actSize == old(blocks[st].size)
        && (forall x :: Fits(old(Now()), x, 0) ==> old(blocks[x].size) <= actSize)
        && st in blocks && blocks[st] == Block(actSize, true, actSize, None)
        && Live(blocks) == Live(old(blocks))[st := blocks[st]]
      ensures r.None? ==> Now() == old(Now()) && usedSize == old(usedSize) && reqsSize == old(reqsSize) && stCount == old(stCount)
      ensures r.None? ==> splitFailed == old(splitFailed) + 1
      ensures r.None? ==> err == (if forall x :: !Fits(old(Now()), x, 0) then ErrExhausted else ErrReqMinSize)
    {
      hide Inv, Loose, Live, Total;
      splits := splits + 1;
      actSize := 0;
      var best;
      best, err := GetMaxSt();
      assert Now() == old(Now());
      assert forall x :: Fits(old(Now()), x, minSize) ==> Fits(old(Now()), x, 0);
      if best.None? {
        splitFailed := splitFailed + 1;
        return None, 0, err;
      }
      var st := best.value;
      if blocks[st].size < minSize {
        splitFailed := splitFailed + 1;
        return None, 0, ErrReqMinSize;
      }
      assert Fits(old(Now()), st, minSize);
      var ok := TakeOff(st);
      if !ok {
        assert false;  // the block is always found on its list
      }
      actSize := blocks[st].size;
      HandOutWhole(st, actSize);
      r := Some(st + config.header);
    }

    /** The block being taken back swallows its free right neighbour `n`. */
    method Swallow(st: nat, n: nat, ghost p: seq<nat>, ghost q: seq<nat>) returns (ok: bool)
      requires Freeing(config, Now(), p, st, [n] + q) && Counted()
      requires st in blocks && n in blocks && n != st && !blocks[n].alloc
      modifies this`order, this`blocks, this`lists, this`available, this`maxAvailable, this`stCount
      ensures ok && Freeing(config, Now(), p, st, q) && Counted()
      ensures q == [] || blocks[q[0]].alloc
      ensures Live(blocks) == Live(old(blocks))
    {
      hide Merged, Total, Avail, Tiles, Listed, IndexOf, Remove, Unlisted, Site;
      ghost var h := Now();
      UnlistedFreeing(config, h, p, st, [n] + q, n);
      UnlistedBlocks(h, n, h.blocks[n].home.value);
      RelistedTotal(order, blocks, n, None);
      ok := RemoveFree(n, {st});
      if !ok {
        assert false;  // the block is always found on its list
      }
      assert {st} + {n} == {st, n};
      ghost var u := Now();
      assert Live(u.blocks) == Live(h.blocks);
      JoinsNext(config, u, p, st, n, q);
      JoinedTotal(config, u, p, st, n, q, false);
      JoinedTotal(config, u, p, st, n, q, true);
      blocks := blocks[st := blocks[st].(size := blocks[st].size + config.header + blocks[n].size)] - {n};
      order := Remove(order, n);
      stCount := stCount - 1;
      assert Now() == Joined(config, u, st, n);
    }

    /** Merges the block being taken back with its right neighbour when that one is free. */
    method JoinNext(st: nat, ghost p: seq<nat>, ghost q: seq<nat>) returns (ok: bool, ghost q': seq<nat>)
      requires Freeing(config, Now(), p, st, q) && Counted()
      modifies this`order, this`blocks, this`lists, this`available, this`maxAvailable, this`stCount
      ensures ok && Freeing(config, Now(), p, st, q') && Counted()
      ensures q' == [] || blocks[q'[0]].alloc
      ensures Live(blocks) == Live(old(blocks))
    {
      hide Merged, Total, Avail, Tiles, Listed, IndexOf, Site;
      NextOf(config, Now(), p, st, q);
      var i := IndexOf(order, st);
      if i + 1 < |order| {
        var n := order[i + 1];
        if !blocks[n].alloc && n == st + config.header + blocks[st].size {
          assert q == [n] + q[1..];
          ok := Swallow(st, n, p, q[1..]);
          return ok, q[1..];
        }
      }
      return true, q;
    }

    lemma NextOf(c: Config, h: Heap, p: seq<nat>, st: nat, q: seq<nat>)
      requires Freeing(c, h, p, st, q)
      ensures IndexOf(h.order, st) == |p| && |h.order| == |p| + 1 + |q|
      ensures q != [] ==> h.order[|p| + 1] == q[0] && q[0] in h.blocks && q[0] != st && q[0] == End(c, h.blocks, st)
      ensures p != [] ==> h.order[|p| - 1] == p[|p| - 1] && p[|p| - 1] in h.blocks && p[|p| - 1] != st
      ensures p != [] ==> st == End(c, h.blocks, p[|p| - 1])
    {
      hide IndexOf, Merged, Listed, Avail;
      var o := h.order;
      assert o[|p|] == st;
      assert st in o;
      if p != [] {
        var m := p[|p| - 1];
        assert p == p[..|p| - 1] + [m];
        SiteShift(c, o, h.blocks, p[..|p| - 1], m, st, q);
      }
    }

    /** The free left neighbour `m` swallows the block being taken back. */
    method JoinInto(m: nat, st: nat, ghost p: seq<nat>, ghost q: seq<nat>) returns (ok: bool)
      requires Freeing(config, Now(), p + [m], st, q) && Counted() && (q == [] || blocks[q[0]].alloc)
      requires st in blocks && m in blocks && m != st && !blocks[m].alloc
      modifies this`order, this`blocks, this`lists, this`available, this`maxAvailable, this`stCount
      ensures ok && Loose(config, Now(), m) && Known(order, blocks) && Counted()
      ensures Live(blocks) == Live(old(blocks))
      ensures m in blocks && blocks[m].size == old(blocks[m].size + config.header + blocks[st].size)
    {
      hide Merged, Total, Avail, Tiles, Listed, IndexOf, Remove, Unlisted, Site, Loose;
      ghost var h := Now();
      UnlistedFreeing(config, h, p + [m], st, q, m);
      UnlistedBlocks(h, m, h.blocks[m].home.value);
      RelistedTotal(order, blocks, m, None);
      ok := RemoveFree(m, {st});
      if !ok {
        assert false;  // the block is always found on its list
      }
      assert {st} + {m} == {st, m};
      ghost var u := Now();
      assert Live(u.blocks) == Live(h.blocks);
      JoinsPrev(config, u, p, m, st, q);
      JoinedTotal(config, u, p, m, st, q, false);
      JoinedTotal(config, u, p, m, st, q, true);
      FreeingEnds(config, Joined(config, u, m, st), p, m, q);
      blocks := blocks[m := blocks[m].(size := blocks[m].size + (blocks[st].size + config.header))] - {st};
      order := Remove(order, st);
      stCount := stCount - 1;
      assert Now() == Joined(config, u, m, st);
    }

    /** Merges the block being taken back into its left neighbour when that one is free. */
    method JoinPrev(st: nat, ghost p: seq<nat>, ghost q: seq<nat>) returns (ok: bool, first: nat)
      requires Freeing(config, Now(), p, st, q) && Counted() && (q == [] || blocks[q[0]].alloc)
      modifies this`order, this`blocks, this`lists, this`available, this`maxAvailable, this`stCount
      ensures ok && Loose(config, Now(), first) && Known(order, blocks) && Counted()
      ensures Live(blocks) == Live(old(blocks))
      ensures first in blocks && first <= st < first + config.header + blocks[first].size
    {
      hide Merged, Total, Avail, Tiles, Listed, IndexOf, Site, Loose;
      NextOf(config, Now(), p, st, q);
      var i := IndexOf(order, st);
      if i > 0 {
        var m := order[i - 1];
        if !blocks[m].alloc && st == m + blocks[m].size + config.header {
          assert p == p[..|p| - 1] + [m];
          ok := JoinInto(m, st, p[..|p| - 1], q);
          return ok, m;
        }
      }
      FreeingEnds(config, Now(), p, st, q);
      return true, st;
    }

    /** The free block around `st` is the first one of its list. */
    ghost predicate FirstListed(h: Heap, st: nat)
    {
      exists x, k: nat {:trigger h.lists[k][0], h.blocks[x]} ::
        && x in h.blocks && !h.blocks[x].alloc && x <= st < x + config.header + h.blocks[x].size
        && k < |h.lists| && h.lists[k] != [] && h.lists[k][0] == x && h.blocks[x].home == Some(k)
    }

    /** Lists the block `first`, which the block `st` became part of. */
    method FileBack(first: nat, ghost st: nat)
      requires Loose(config, Now(), first) && Known(order, blocks) && Counted()
      requires first in blocks && first <= st < first + config.header + blocks[first].size
      modifies this`blocks, this`lists, this`available, this`maxAvailable
      ensures Valid() && Live(blocks) == Live(old(blocks)) && FirstListed(Now(), st)
    {
      hide Tiled, Merged, Total, Listed, Avail, Class, Known, Inv, Filed;
      FiledSettles(config, Now(), first);
      InsertFree(first, {first});
      ghost var k := blocks[first].home.value;
      assert lists[k][0] == first;
    }

    /** fast_shmem_free: the block of the payload address `addr` is taken back and merged with
        its free neighbours; no other live block changes. */
    method Free(addr: nat) returns (err: Error)
      requires Valid() && addr >= config.header && addr - config.header in blocks
      modifies this
      ensures Valid() && threshold == old(threshold)
      ensures old(blocks[addr - config.header].alloc) ==>
        err == ErrNone && Live(blocks) == Live(old(blocks)) - {addr - config.header} && FirstListed(Now(), addr - config.header)
      ensures !old(blocks[addr - config.header].alloc) ==>
        err == ErrNonAlloced && Now() == old(Now())
    {
      hide Tiled, Merged, Total, Listed, Avail, Class, Known, IndexOf, Freeing, Inv, Remove, Filed;
      var st := addr - config.header;
      if !blocks[st].alloc {
        return ErrNonAlloced;
      }
      ghost var i := IndexOf(order, st);
      FreedStarts(config, Now(), st);
      ghost var p, q := order[..i], order[i + 1..];
      FreedTotal(config, Now(), st, false);
      FreedTotal(config, Now(), st, true);
      usedSize := usedSize - blocks[st].size;
      reqsSize := reqsSize - blocks[st].act;
      blocks := blocks[st := blocks[st].(alloc := false)];
      var ok;
      ok, q := JoinNext(st, p, q);
      if !ok {
        return ErrRemoveNext;
      }
      var first;
      ok, first := JoinPrev(st, p, q);
      if !ok {
        return ErrRemovePrev;
      }
      FileBack(first, st);
      err := ErrNone;
    }

    constructor (c: Config)
      requires c.Valid()
      ensures config == c && Valid() && Whole(c, Now()) && Live(blocks) == map[]
      ensures threshold == c.minSize && failed == 0 && splits == 0 && splitFailed == 0
    {
      var size := c.total - c.base - c.header;
      var i := InsertIndex(c, size);
      if i >= c.freeLen {
        i := c.freeLen - 1;
      }
      config, threshold := c, c.minSize;
      order, blocks := [c.base], map[c.base := Block(size, false, 0, Some(i))];
      lists := seq(c.freeLen, k => if k == i then [c.base] else []);
      available, maxAvailable := [i], i;
      usedSize, reqsSize, stCount, failed, splits, splitFailed := 0, 0, 1, 0, 0, 0;
      new;
      WholeIsInv(config, Now());
    }
  }

  /** fast_shmem_create; `mapped` says whether the region could be mapped. */
  method Create(l: Layout, size: nat, minSize: nat, maxSize: nat, levelType: int, factor: nat, mapped: bool)
    returns (r: Shmem?, err: Error)
    requires l.Valid() && (levelType == LINEAR ==> factor > 0)
    ensures r == null <==> err != ErrNone
    ensures err == (
      var lo, hi := Alignment(minSize), Alignment(maxSize);
      if size == 0 then ErrSize
      else if lo == 0 || lo >= hi then ErrMinSize
      else if levelType != LINEAR && levelType != EXP then ErrLevelType
      else if !mapped then ErrMap
      else Room(l, size, FirstConfig(lo, hi, levelType, factor), hi))
    ensures r != null ==> fresh(r) && r.Valid() && Whole(r.config, r.Now()) && Live(r.blocks) == map[]
    ensures r != null ==> r.threshold == r.config.minSize == Alignment(minSize)
    ensures r != null ==> var c := r.config;
      && c.linear == (levelType == LINEAR) && c.factor == (if levelType == LINEAR then Alignment(factor) else EXP_FACTOR)
      && c.header == l.storage && c.base == l.shm + l.node * c.freeLen && c.base % ALIGN_SIZE == 0
      && size <= c.total < size + l.page && c.total % l.page == 0
      && r.blocks[c.base].size >= Alignment(maxSize)
      && c.freeLen > 1 && Bound(c, c.freeLen - 2) < Alignment(maxSize) <= Bound(c, c.freeLen - 1)
  {
    hide Inv, Whole, Class, InsertIndex, AllocIndex, Bound, UpDiv, Pow2, IsPow2, Log2Up, Log2Down, Shmem.Valid;
    r := null;
    if size == 0 {
      return null, ErrSize;
    }
    var lo, hi := Alignment(minSize), Alignment(maxSize);
    if lo == 0 || lo >= hi {
      return null, ErrMinSize;
    }
    if levelType != LINEAR && levelType != EXP {
      return null, ErrLevelType;
    }
    var f, freeLen := ClassesFor(lo, hi, levelType, factor);
    if freeLen == 0 {
      assert false;  // the largest size is above the smallest
    }
    freeLen := freeLen + 1;
    var total := UpDiv(size, l.page) * l.page;
    WholePages(size, l.page);
    if total == 0 {
      assert false;  // a page holds at least one byte
    }
    if !mapped {
      return null, ErrMap;
    }
    var freeSize := l.node * freeLen;
    if freeSize + l.shm + l.storage >= total {
      return null, ErrNotEnough;
    }
    AlignedArray(l, freeLen);
    var base := Alignment(l.shm + freeSize);
    if total - base - l.storage < hi {
      return null, ErrStorageSize;
    }
    r := new Shmem(Config(lo, f, freeLen, levelType == LINEAR, l.storage, base, total));
    err := ErrNone;
    WholeBlock(r.config, r.Now());
    SameBounds(FirstConfig(lo, hi, levelType, factor), r.config, freeLen - 1);
    SameBounds(FirstConfig(lo, hi, levelType, factor), r.config, freeLen - 2);
  }

  /** The growth factor and the number of classes between `lo` and `hi`, less one. */
  method ClassesFor(lo: nat, hi: nat, levelType: int, factor: nat) returns (f: nat, n: nat)
    requires 0 < lo < hi && ((levelType == LINEAR && factor > 0) || levelType == EXP)
    ensures var c := FirstConfig(lo, hi, levelType, factor);
      && c.Valid() && f == c.factor && n == AllocIndex(c, hi) && n > 0
      && Bound(c, n - 1) < hi <= Bound(c, n)
  {
    hide Pow2, IsPow2, Log2Up, Log2Down, Bound, UpDiv, Alignment;
    if levelType == LINEAR {
      f := Alignment(factor);
      n := DivideUp(hi - lo, f);
    } else {
      f := EXP_FACTOR;
      var power := DivideUp(hi, lo);
      n := FastLog2(power, true);
    }
    AllocIndexBounds(FirstConfig(lo, hi, levelType, factor), hi);
  }

  lemma SameBounds(c: Config, d: Config, i: nat)
    requires c.minSize == d.minSize && c.factor == d.factor && c.linear == d.linear
    ensures Bound(c, i) == Bound(d, i)
  {
  }

  lemma WholePages(size: nat, page: nat)
    requires page > 0 && size > 0
    ensures var total := UpDiv(size, page) * page; size <= total < size + page && total % page == 0
  {
    var n := UpDiv(size, page);
    UpDivBounds(size, page);
    assert (n - 1) * page == n * page - page;
    MultipleOf(n, page);
  }

  lemma MultipleOf(n: nat, d: nat)
    requires d > 0
    ensures n * d % d == 0
  {
    var q := n * d / d;
    DivMod(n * d, d);
    if q < n {
      MulLe(d, q + 1, n);
    } else if q > n {
      MulLe(d, n + 1, q);
    }
    assert (n + 1) * d == n * d + d;
  }

  /** The size classes that fast_shmem_create chooses for sizes between `lo` and `hi`. */
  function FirstConfig(lo: nat, hi: nat, levelType: int, factor: nat): Config
    requires lo > 0
  {
    Config(lo, if levelType == LINEAR then Alignment(factor) else EXP_FACTOR, 1, levelType == LINEAR, 1, 0, 1)
  }

  /** Whether a region for `size` bytes holds the bookkeeping and one block of `hi` bytes. */
  function Room(l: Layout, size: nat, c: Config, hi: nat): Error
    requires l.Valid() && c.Valid()
  {
    var system := l.shm + l.node * (AllocIndex(c, hi) + 1);
    var total := UpDiv(size, l.page) * l.page;
    if system + l.storage >= total then ErrNotEnough
    else if total - system - l.storage < hi then ErrStorageSize
    else ErrNone
  }

  lemma AlignedArray(l: Layout, n: nat)
    requires l.Valid()
    ensures (l.shm + l.node * n) % ALIGN_SIZE == 0
  {
    var a, b := l.shm / ALIGN_SIZE, l.node / ALIGN_SIZE;
    assert l.shm == a * ALIGN_SIZE && l.node == b * ALIGN_SIZE;
    assert l.shm + l.node * n == (a + b * n) * ALIGN_SIZE;
  }

  /** Freeing the live blocks, in any order, leaves one free block that covers the region. */
  method ReleaseAll(shm: Shmem, live: seq<nat>)
    requires shm.Valid() && NoDup(live) && forall st :: st in live <==> st in Live(shm.blocks)
    modifies shm
    ensures shm.Valid() && Whole(shm.config, shm.Now()) && shm.usedSize == 0 && shm.reqsSize == 0 && shm.stCount == 1
  {
    hide Inv, Whole, Tiled, Merged, Total, Listed, Avail, Known;
    var i := 0;
    while i < |live|
      invariant 0 <= i <= |live| && shm.Valid()
      invariant forall st :: st in live[i..] <==> st in Live(shm.blocks)
    {
      TailMembers(live, i);
      assert live[i] in Live(shm.blocks);
      var err := shm.Free(live[i] + shm.config.header);
      i := i + 1;
    }
    assert live[i..] == [];
    assert forall st :: st !in Live(shm.blocks);
    assert Live(shm.blocks) == map[];
    InvOf(shm);
    NothingLiveIsWhole(shm.config, shm.Now());
    WholeIsInv(shm.config, shm.Now());
    WholeBlock(shm.config, shm.Now());
  }

  /** A new heap with classes 8 bytes apart, whose one block has at least `most` bytes. */
  method SmallHeap(l: Layout, most: nat) returns (shm: Shmem)
    requires l.Valid() && most % ALIGN_SIZE == 0 && most >= 64
    ensures fresh(shm) && shm.Valid() && shm.config.Valid() && shm.threshold == 8 && shm.config.freeLen > 1
    ensures Whole(shm.config, shm.Now()) && Live(shm.blocks) == map[]
    ensures var c := shm.config;
      c.minSize == 8 && c.linear && c.factor == 8 && c.header == l.storage && c.total >= c.base + c.header + most
  {
    hide Inv, Whole, Shmem.Counted, Live, Bound;
    var size := l.shm + l.node * (most / 8) + l.storage + most + 1;
    SmallRoom(l, most, size);
    var heap, e := Create(l, size, 8, most, LINEAR, 8, true);
    shm := heap;
    InvOf(shm);
    WholeBlock(shm.config, shm.Now());
  }

  /** The one failure that is not for lack of a large enough block: after these calls a request
      for 5 bytes looks in class 0 alone, whose one block has 2 bytes. */
  method SmallRequestFails(l: Layout) returns (shm: Shmem, r: Option, err: Error)
    requires l.Valid()
    ensures fresh(shm) && shm.Valid() && r == None && err == ErrFoundNoFixed
    ensures exists x :: Fits(shm.Now(), x, 5)
  {
    hide Inv, CanServe, FirstFound, Whole, Shmem.Counted, Live, Bound;
    shm := SmallHeap(l, 64 + 2 * l.storage);
    ghost var c, base := shm.config, shm.config.base;
    ghost var h := shm.Now();
    WholeServes(c, h, 2);
    var first, e := shm.Alloc(2);
    assert Fits(h, first.value - c.header, 0);
    ghost var n := base + c.header + 2;
    assert Live(shm.blocks).Keys == {base};
    OneLive(c, shm.Now());
    h := shm.Now();
    OneServes(c, h, n, 4);
    var second, e2 := shm.Alloc(4);
    assert Fits(h, second.value - c.header, 0);
    assert Live(shm.blocks).Keys == {base, n};
    LiveKeys(shm.blocks);
    e := shm.Free(first.value);
    assert Live(shm.blocks).Keys == {n};
    LiveValue(shm.blocks, n);
    OneLiveBehind(c, shm.Now(), n);
    ghost var m := n + c.header + 4;
    SmallBound(c);
    OnlyTooSmall(c, shm.Now(), base, m, 5);
    assert Fits(shm.Now(), m, 5);
    r, err := shm.Alloc(5);
  }

  lemma LiveValue(blocks: map<nat, Block>, x: nat)
    requires x in Live(blocks)
    ensures x in blocks && blocks[x] == Live(blocks)[x] && blocks[x].alloc
  {
  }

  lemma SmallBound(c: Config)
    requires c.minSize == 8 && c.linear && c.factor == 8
    ensures Bound(c, 1) == 16
  {
  }

  lemma WholeServes(c: Config, h: Heap, size: nat)
    requires c.Valid() && Whole(c, h) && 0 < size <= c.total - c.base - c.header
    ensures |h.lists| == c.freeLen && CanServe(c, h, size)
    ensures c.base in h.blocks && h.blocks[c.base].size == c.total - c.base - c.header
    ensures forall x :: Fits(h, x, 0) ==> x == c.base
  {
    hide Class;
    assert forall x :: x in h.blocks <==> x in h.blocks.Keys;
    assert Fits(h, c.base, size);
  }

  /** The only free block is large enough. */
  lemma OneServes(c: Config, h: Heap, n: nat, size: nat)
    requires Inv(c, h) && Fits(h, n, size) && size > 0 && forall x :: Fits(h, x, 0) ==> x == n
    ensures |h.lists| == c.freeLen && CanServe(c, h, size)
  {
    hide Tiled, Merged, Avail, Class;
    if h.lists[0] != [] {
      assert h.lists[0][0] in h.lists[0] && Fits(h, h.lists[0][0], 0);
    }
  }

  lemma SmallRoom(l: Layout, most: nat, size: nat)
    requires l.Valid() && most % ALIGN_SIZE == 0 && most >= 64
    requires size == l.shm + l.node * (most / 8) + l.storage + most + 1
    ensures Alignment(8) == 8 && Alignment(most) == most && FirstConfig(8, most, LINEAR, 8).Valid()
    ensures Room(l, size, FirstConfig(8, most, LINEAR, 8), most) == ErrNone
  {
    hide UpDiv;
    WholePages(size, l.page);
    EighthsUp(most);
  }

  lemma EighthsUp(x: nat)
    requires x % 8 == 0 && x >= 8
    ensures UpDiv(x - 8, 8) + 1 == x / 8
  {
  }

  lemma TailMembers(s: seq<nat>, i: nat)
    requires i < |s| && NoDup(s)
    ensures s[i] in s[i..]
    ensures forall a :: a in s[i + 1..] <==> a in s[i..] && a != s[i]
  {
    assert s[i..] == [s[i]] + s[i + 1..];
  }

  lemma InvOf(shm: Shmem)
    requires shm.Valid()
    ensures Inv(shm.config, shm.Now()) && shm.config.Valid()
    ensures Known(shm.order, shm.blocks) && shm.usedSize == Total(shm.order, shm.blocks, false)
    ensures shm.reqsSize == Total(shm.order, shm.blocks, true) && shm.stCount == |shm.order|
  {
  }

  lemma WholeBlock(c: Config, h: Heap)
    requires c.Valid() && Whole(c, h)
    ensures |h.order| == 1 && c.base in h.blocks && h.blocks[c.base].size == c.total - c.base - c.header
  {
  }
}
