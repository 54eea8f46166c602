/** The slab layer of src/fast_slabs.c over any allocator: cached chunks per size class, and a
    retry loop that gives cached chunks back when the allocator refuses. */
module Slabs {
  import opened FastMath
  import opened ShmemState
  import opened SlabClasses
  import opened SlabAllocator
  import Shmem

  const SPLIT_ID := -5
  const POWER := 1
  const LINEAR := 2
  const RECOVER_FACTOR := 2

  datatype Error =
    | ErrNone | ErrParam | ErrPowerFactor | ErrLinearFactor | ErrUptype | ErrInvalidId | ErrAllocFailed
    | ErrTooLarge | ErrChunkId | ErrAllocator | ErrNotSupported

  /** What fast_slabs_recover reports. */
  datatype Recovered = Enough | Few | NoSpace

  /** A chunk header; `id` is the class the chunk was cut for, or SPLIT_ID. */
  datatype Chunk = Chunk(size: nat, req: nat, id: int)

  // ---------- sums over sets of chunks ----------

  function Weight(c: Chunk, req: bool): nat
  {
    if req then c.req else c.size
  }

  /** The sizes of the chunks `s`, or with `req` the sizes asked for. */
  ghost function Sum(s: set<nat>, chunks: map<nat, Chunk>, req: bool): nat
    requires s <= chunks.Keys
  {
    if s == {} then 0 else var x :| x in s; Weight(chunks[x], req) + Sum(s - {x}, chunks, req)
  }

  lemma {:induction false} SumRemove(s: set<nat>, chunks: map<nat, Chunk>, req: bool, x: nat)
    requires s <= chunks.Keys && x in s
    ensures Sum(s, chunks, req) == Weight(chunks[x], req) + Sum(s - {x}, chunks, req)
    decreases |s|
  {
    var y :| y in s && Sum(s, chunks, req) == Weight(chunks[y], req) + Sum(s - {y}, chunks, req);
    if y != x {
      SumRemove(s - {y}, chunks, req, x);
      SumRemove(s - {x}, chunks, req, y);
      assert s - {y} - {x} == s - {x} - {y};
    }
  }

  lemma {:induction false} SumFrame(s: set<nat>, chunks: map<nat, Chunk>, chunks': map<nat, Chunk>, req: bool)
    requires s <= chunks.Keys && s <= chunks'.Keys
    requires forall x :: x in s ==> Weight(chunks[x], req) == Weight(chunks'[x], req)
    ensures Sum(s, chunks, req) == Sum(s, chunks', req)
    decreases |s|
  {
    if s != {} {
      var x :| x in s;
      SumRemove(s, chunks, req, x);
      SumRemove(s, chunks', req, x);
      SumFrame(s - {x}, chunks, chunks', req);
    }
  }

  lemma SumAdd(s: set<nat>, chunks: map<nat, Chunk>, chunks': map<nat, Chunk>, req: bool, x: nat)
    requires s <= chunks.Keys && x !in s && s + {x} <= chunks'.Keys
    requires forall y :: y in s ==> Weight(chunks[y], req) == Weight(chunks'[y], req)
    ensures Sum(s + {x}, chunks', req) == Sum(s, chunks, req) + Weight(chunks'[x], req)
  {
    SumRemove(s + {x}, chunks', req, x);
    assert s + {x} - {x} == s;
    SumFrame(s, chunks, chunks', req);
  }

  // ---------- the state ----------

  /** The free lists and the chunk headers of a manager. */
  datatype Pool = Pool(lists: seq<seq<nat>>, chunks: map<nat, Chunk>)

  /** The lists with `a` at the head of list `i`. */
  function InFront(lists: seq<seq<nat>>, i: int, a: nat): seq<seq<nat>>
  {
    if 0 <= i < |lists| then lists[i := [a] + lists[i]] else lists
  }

  ghost predicate IsCached(p: Pool, a: nat)
  {
    a in p.chunks && 0 <= p.chunks[a].id < |p.lists| && a in p.lists[p.chunks[a].id]
  }

  ghost function Cached(p: Pool): set<nat>
  {
    set a | a in p.chunks && IsCached(p, a)
  }

  /** The chunks that are handed out. */
  ghost function Used(p: Pool): set<nat>
  {
    set a | a in p.chunks && !IsCached(p, a)
  }

  /** Every chunk has the size of its class, and the free list of a class holds chunks of that
      class only, each once. */
  ghost predicate Sorted(c: Classes, p: Pool)
    requires c.Valid()
  {
    && |p.lists| == c.len
    && (forall i :: 0 <= i < c.len ==> NoDup(p.lists[i]))
    && (forall i, a :: 0 <= i < c.len && a in p.lists[i] ==> a in p.chunks && p.chunks[a].id == i)
    && (forall a {:trigger p.chunks[a]} :: a in p.chunks ==>
          p.chunks[a].id == SPLIT_ID || (0 <= p.chunks[a].id < c.len && p.chunks[a].size == c.Size(p.chunks[a].id) - CHUNK_SIZE))
  }

  /** What the three size counters should read. */
  datatype Stats = Stats(used: int, reqs: int, free: int)

  ghost function StatsOf(p: Pool): Stats
  {
    Stats(Sum(Used(p), p.chunks, false), Sum(Used(p), p.chunks, true), Sum(Cached(p), p.chunks, false))
  }

  // ---------- the steps on a pool ----------

  /** The first cached chunk of class `i` is given back to the allocator. */
  function Dropped(p: Pool, i: nat): Pool
    requires i < |p.lists| && p.lists[i] != []
  {
    Pool(p.lists[i := p.lists[i][1..]], p.chunks - {p.lists[i][0]})
  }

  /** The first cached chunk of class `i` is handed out for `req` bytes. */
  function Popped(p: Pool, i: nat, req: nat): Pool
    requires i < |p.lists| && p.lists[i] != [] && p.lists[i][0] in p.chunks
  {
    var a := p.lists[i][0];
    Pool(p.lists[i := p.lists[i][1..]], p.chunks[a := p.chunks[a].(req := req, id := i)])
  }

  /** The chunk `a` is cached again. */
  function Pushed(p: Pool, a: nat): Pool
    requires a in p.chunks && 0 <= p.chunks[a].id < |p.lists|
  {
    var i := p.chunks[a].id;
    p.(lists := p.lists[i := [a] + p.lists[i]])
  }

  lemma Head(c: Classes, p: Pool, i: nat)
    requires c.Valid() && Sorted(c, p) && i < c.len && p.lists[i] != []
    ensures var a, t := p.lists[i][0], p.lists[i][1..];
      && a in p.chunks && p.chunks[a].id == i && p.chunks[a].size == c.Size(i) - CHUNK_SIZE && a in Cached(p)
      && NoDup(t) && (forall x :: x in t <==> x in p.lists[i] && x != a)
      && (forall j, x {:trigger x in p.lists[j]} :: 0 <= j < c.len && x in p.lists[j] ==> x in p.chunks && p.chunks[x].id == j)
      && |p.lists| == c.len
  {
    var a, t := p.lists[i][0], p.lists[i][1..];
    assert a in p.lists[i];
    assert p.lists[i] == [a] + t;
    forall x ensures x in t <==> x in p.lists[i] && x != a {
      if x in t {
        var k :| 0 <= k < |t| && t[k] == x;
        assert x == p.lists[i][k + 1];
      }
    }
  }

  lemma DroppedSets(c: Classes, p: Pool, i: nat)
    requires c.Valid() && Sorted(c, p) && i < c.len && p.lists[i] != []
    ensures var a, d := p.lists[i][0], Dropped(p, i);
      && a in p.chunks && a in Cached(p) && Sorted(c, d) && Used(d) == Used(p) && Cached(d) == Cached(p) - {a}
  {
    Head(c, p, i);
    hide Classes.Size;
    var d := Dropped(p, i);
    forall x | x in d.chunks ensures IsCached(d, x) <==> IsCached(p, x) { }
  }

  lemma PoppedSets(c: Classes, p: Pool, i: nat, req: nat)
    requires c.Valid() && Sorted(c, p) && i < c.len && p.lists[i] != []
    ensures var a := p.lists[i][0];
      && a in p.chunks && a in Cached(p)
      && var d := Popped(p, i, req); Sorted(c, d) && Used(d) == Used(p) + {a} && Cached(d) == Cached(p) - {a}
  {
    Head(c, p, i);
    hide Classes.Size;
    var a, d := p.lists[i][0], Popped(p, i, req);
    forall x | x in d.chunks ensures IsCached(d, x) <==> IsCached(p, x) && x != a { }
  }

  lemma PushedSets(c: Classes, p: Pool, a: nat)
    requires c.Valid() && Sorted(c, p) && a in Used(p) && p.chunks[a].id != SPLIT_ID
    ensures |p.lists| == c.len && 0 <= p.chunks[a].id < c.len
    ensures var d := Pushed(p, a); Sorted(c, d) && Used(d) == Used(p) - {a} && Cached(d) == Cached(p) + {a}
  {
    hide Classes.Size;
    var d, i := Pushed(p, a), p.chunks[a].id;
    assert a !in p.lists[i];
    assert forall x :: x in d.lists[i] <==> x == a || x in p.lists[i];
    forall x | x in d.chunks ensures IsCached(d, x) <==> IsCached(p, x) || x == a { }
  }

  lemma AddedSets(c: Classes, p: Pool, a: nat, k: Chunk)
    requires c.Valid() && Sorted(c, p) && a !in p.chunks
    requires k.id == SPLIT_ID || (0 <= k.id < c.len && k.size == c.Size(k.id) - CHUNK_SIZE)
    ensures var d := p.(chunks := p.chunks[a := k]); Sorted(c, d) && Used(d) == Used(p) + {a} && Cached(d) == Cached(p)
  {
    hide Classes.Size;
    var d := p.(chunks := p.chunks[a := k]);
    assert 0 <= k.id < c.len ==> a !in p.lists[k.id];
    forall x | x in d.chunks ensures IsCached(d, x) <==> x in p.chunks && IsCached(p, x) { }
  }

  lemma RemovedSets(c: Classes, p: Pool, a: nat)
    requires c.Valid() && Sorted(c, p) && a in Used(p)
    ensures var d := p.(chunks := p.chunks - {a}); Sorted(c, d) && Used(d) == Used(p) - {a} && Cached(d) == Cached(p)
  {
    hide Classes.Size;
    var d := p.(chunks := p.chunks - {a});
    forall i, x | 0 <= i < c.len && x in p.lists[i] ensures x != a { }
    forall x | x in d.chunks ensures IsCached(d, x) <==> IsCached(p, x) { }
  }

  // ---------- what the steps do to the counters ----------

  lemma DroppedStats(c: Classes, p: Pool, i: nat)
    requires c.Valid() && Sorted(c, p) && i < c.len && p.lists[i] != []
    ensures var s := StatsOf(p); StatsOf(Dropped(p, i)) == s.(free := s.free - (c.Size(i) - CHUNK_SIZE))
    ensures |Dropped(p, i).chunks| == |p.chunks| - 1
  {
    hide Sorted, Used, Cached;
    Head(c, p, i);
    DroppedSets(c, p, i);
    var a, d := p.lists[i][0], Dropped(p, i);
    UsedKnown(p);
    UsedKnown(d);
    SumFrame(Used(p), p.chunks, d.chunks, false);
    SumFrame(Used(p), p.chunks, d.chunks, true);
    SumRemove(Cached(p), p.chunks, false, a);
    SumFrame(Cached(d), p.chunks, d.chunks, false);
    assert d.chunks.Keys == p.chunks.Keys - {a};
  }

  lemma UsedKnown(p: Pool)
    ensures Used(p) + Cached(p) == p.chunks.Keys && Used(p) !! Cached(p)
  {
  }

  lemma PoppedStats(c: Classes, p: Pool, i: nat, req: nat)
    requires c.Valid() && Sorted(c, p) && i < c.len && p.lists[i] != [] && p.lists[i][0] in p.chunks
    ensures var s, size := StatsOf(p), c.Size(i) - CHUNK_SIZE;
      StatsOf(Popped(p, i, req)) == Stats(s.used + size, s.reqs + req, s.free - size)
    ensures |Popped(p, i, req).chunks| == |p.chunks|
  {
    hide Sorted, Used, Cached;
    Head(c, p, i);
    PoppedSets(c, p, i, req);
    var a, d := p.lists[i][0], Popped(p, i, req);
    UsedKnown(p);
    UsedKnown(d);
    SumAdd(Used(p), p.chunks, d.chunks, false, a);
    SumAdd(Used(p), p.chunks, d.chunks, true, a);
    SumRemove(Cached(p), p.chunks, false, a);
    SumFrame(Cached(d), p.chunks, d.chunks, false);
    assert d.chunks.Keys == p.chunks.Keys;
  }

  lemma PushedStats(c: Classes, p: Pool, a: nat)
    requires c.Valid() && Sorted(c, p) && a in Used(p) && p.chunks[a].id != SPLIT_ID
    ensures |p.lists| == c.len && 0 <= p.chunks[a].id < c.len
    ensures var s, k := StatsOf(p), p.chunks[a];
      StatsOf(Pushed(p, a)) == Stats(s.used - k.size, s.reqs - k.req, s.free + k.size)
  {
    hide Sorted, Used, Cached;
    UsedKnown(p);
    PushedSets(c, p, a);
    var d := Pushed(p, a);
    UsedKnown(d);
    SumRemove(Used(p), p.chunks, false, a);
    SumRemove(Used(p), p.chunks, true, a);
    SumAdd(Cached(p), p.chunks, d.chunks, false, a);
  }

  lemma AddedStats(c: Classes, p: Pool, a: nat, k: Chunk)
    requires c.Valid() && Sorted(c, p) && a !in p.chunks
    requires k.id == SPLIT_ID || (0 <= k.id < c.len && k.size == c.Size(k.id) - CHUNK_SIZE)
    ensures var s := StatsOf(p); StatsOf(p.(chunks := p.chunks[a := k])) == Stats(s.used + k.size, s.reqs + k.req, s.free)
    ensures |p.chunks[a := k]| == |p.chunks| + 1
  {
    hide Sorted, Used, Cached;
    AddedSets(c, p, a, k);
    var d := p.(chunks := p.chunks[a := k]);
    UsedKnown(p);
    UsedKnown(d);
    SumAdd(Used(p), p.chunks, d.chunks, false, a);
    SumAdd(Used(p), p.chunks, d.chunks, true, a);
    SumFrame(Cached(p), p.chunks, d.chunks, false);
    assert d.chunks.Keys == p.chunks.Keys + {a};
  }

  lemma RemovedStats(c: Classes, p: Pool, a: nat)
    requires c.Valid() && Sorted(c, p) && a in Used(p)
    ensures var s, k := StatsOf(p), p.chunks[a];
      StatsOf(p.(chunks := p.chunks - {a})) == Stats(s.used - k.size, s.reqs - k.req, s.free)
    ensures |p.chunks - {a}| == |p.chunks| - 1
  {
    hide Sorted, Used, Cached;
    RemovedSets(c, p, a);
    var d := p.(chunks := p.chunks - {a});
    UsedKnown(p);
    UsedKnown(d);
    SumRemove(Used(p), p.chunks, false, a);
    SumRemove(Used(p), p.chunks, true, a);
    SumFrame(Used(d), p.chunks, d.chunks, false);
    SumFrame(Used(d), p.chunks, d.chunks, true);
    SumFrame(Cached(p), p.chunks, d.chunks, false);
    assert d.chunks.Keys == p.chunks.Keys - {a};
  }

  /** The payload `ptr` belongs to a chunk of class `id` that is newly handed out and holds `req` bytes. */
  ghost predicate HandedOut(c: Classes, before: Pool, after: Pool, ptr: nat, actual: bool, req: nat, slabSize: nat, id: int)
  {
    && 0 <= id < c.len && id < |before.lists| && ptr >= CHUNK_SIZE
    && var a, size := ptr - CHUNK_SIZE, c.Size(id) - CHUNK_SIZE;
    && a !in Used(before) && Used(after) == Used(before) + {a}
    && req <= size && slabSize == (if actual then size else req)
    && a in after.chunks && after.chunks[a] == Chunk(size, slabSize, id)
  }

  /** The table of class sizes. */
  ghost predicate Tabled(c: Classes, sizes: seq<nat>)
  {
    |sizes| == c.len && forall i :: 0 <= i < c.len ==> sizes[i] == c.Size(i)
  }

  // ---------- giving chunks back ----------

  /** The bytes, headers included, that have gone from the free lists of the classes below `n`. */
  ghost function Given(c: Classes, before: Pool, after: Pool, n: nat): int
    requires n <= |before.lists| && n <= |after.lists|
  {
    if n == 0 then 0
    else Given(c, before, after, n - 1) + (|before.lists[n - 1]| - |after.lists[n - 1]|) * c.Size(n - 1)
  }

  lemma {:induction false} NothingGiven(c: Classes, p: Pool, n: nat)
    requires n <= |p.lists|
    ensures Given(c, p, p, n) == 0
  {
    if n > 0 { NothingGiven(c, p, n - 1); }
  }

  lemma {:induction false} OneGiven(c: Classes, before: Pool, mid: Pool, after: Pool, n: nat, j: nat)
    requires |before.lists| == |mid.lists| == |after.lists| && n <= |mid.lists| && j < |mid.lists|
    requires |after.lists[j]| == |mid.lists[j]| - 1 && forall k :: 0 <= k < |mid.lists| && k != j ==> after.lists[k] == mid.lists[k]
    ensures Given(c, before, after, n) == Given(c, before, mid, n) + if j < n then c.Size(j) else 0
  {
    hide Classes.Size;
    if n > 0 {
      OneGiven(c, before, mid, after, n - 1, j);
      if j == n - 1 {
        OneMore(|before.lists[j]| - |mid.lists[j]|, c.Size(j));
      }
    }
  }

  lemma OneMore(n: int, x: int)
    ensures (n + 1) * x == n * x + x
  {
  }

  ghost predicate IsTail(a: seq<nat>, b: seq<nat>)
  {
    |a| <= |b| && a == b[|b| - |a|..]
  }

  /** Class `i` is the first one above `id` with a cached chunk. */
  ghost predicate NextCached(p: Pool, id: nat, i: nat)
  {
    id < i < |p.lists| && p.lists[i] != [] && forall k :: id < k < i ==> p.lists[k] == []
  }

  /** What fast_slabs_recover gives back: one chunk of the next class above that has one;
      otherwise chunks of the classes below, the nearest class first, until they make up
      `enough` bytes, and not one chunk more. */
  ghost predicate Recovering(c: Classes, before: Pool, after: Pool, enough: nat, id: nat, r: Recovered)
    requires |before.lists| == |after.lists| == c.len && id < c.len
  {
    if exists i :: NextCached(before, id, i) then
      r == Enough && exists i :: NextCached(before, id, i) && after == Dropped(before, i)
    else
      && (forall k :: id <= k < c.len ==> after.lists[k] == before.lists[k])
      && (r == Enough <==> Given(c, before, after, id) >= enough)
      && exists j :: StoppedAt(c, before, after, enough, id, r, j)
  }

  ghost predicate StoppedAt(c: Classes, before: Pool, after: Pool, enough: nat, id: nat, r: Recovered, j: nat)
    requires |before.lists| == |after.lists| == c.len && id < c.len
  {
    && j <= id && (forall k :: 0 <= k < j ==> after.lists[k] == before.lists[k]) && (forall k :: j < k < id ==> after.lists[k] == [])
    && (j < id ==> IsTail(after.lists[j], before.lists[j]))
    && if r == Enough then j < id && Given(c, before, after, id) - c.Size(j) < enough
       else j == 0 && (id > 0 ==> after.lists[0] == [])
  }

  lemma RecoveringAbove(c: Classes, before: Pool, after: Pool, enough: nat, id: nat, i: nat)
    requires |before.lists| == |after.lists| == c.len && id < c.len && NextCached(before, id, i) && after == Dropped(before, i)
    ensures Recovering(c, before, after, enough, id, Enough)
  {
  }

  lemma RecoveringBelow(c: Classes, before: Pool, after: Pool, enough: nat, id: nat, r: Recovered, j: nat)
    requires |before.lists| == |after.lists| == c.len && id < c.len
    requires forall k :: id < k < c.len ==> before.lists[k] == []
    requires forall k :: id <= k < c.len ==> after.lists[k] == before.lists[k]
    requires (r == Enough <==> Given(c, before, after, id) >= enough) && StoppedAt(c, before, after, enough, id, r, j)
    ensures Recovering(c, before, after, enough, id, r)
  {
  }

  /** The classes from `j` up to `id` are drained, which gave `size` bytes back; `space` says whether
      there were chunks in them. */
  ghost predicate Drained(c: Classes, before: Pool, after: Pool, id: nat, j: nat, size: int, space: bool)
  {
    && |before.lists| == |after.lists| == c.len && j <= id < c.len && size == Given(c, before, after, id)
    && (forall k :: 0 <= k < c.len && (k < j || id <= k) ==> after.lists[k] == before.lists[k])
    && (forall k :: j <= k < id ==> after.lists[k] == [])
    && (space <==> exists k :: j <= k < id && before.lists[k] != [])
    && (if space then |after.chunks| < |before.chunks| else after == before)
  }

  lemma DrainedNothing(c: Classes, p: Pool, id: nat)
    requires |p.lists| == c.len && id < c.len
    ensures Drained(c, p, p, id, id, 0, false)
  {
    NothingGiven(c, p, id);
  }

  /** What draining class `j` changed. */
  ghost predicate DrainedOne(mid: Pool, after: Pool, j: nat)
  {
    && j < |mid.lists| == |after.lists| && (forall k :: 0 <= k < |mid.lists| && k != j ==> after.lists[k] == mid.lists[k])
    && (if mid.lists[j] == [] then after == mid else |after.chunks| < |mid.chunks|)
  }

  lemma DrainedStep(c: Classes, before: Pool, mid: Pool, after: Pool, id: nat, j: nat, size: int, size': int, space: bool)
    requires j < id && Drained(c, before, mid, id, j + 1, size, space) && DrainedOne(mid, after, j)
    requires after.lists[j] == [] && |after.lists| == |before.lists| && size' == Given(c, before, after, id)
    ensures Drained(c, before, after, id, j, size', space || mid.lists[j] != [])
  {
    hide Given;
  }

  /** Enough was given back while class `j` was drained. */
  lemma DrainedEnough(c: Classes, before: Pool, mid: Pool, after: Pool, enough: nat, id: nat, j: nat, size: int, size': int, space: bool)
    requires j < id && Drained(c, before, mid, id, j + 1, size, space) && DrainedOne(mid, after, j) && mid.lists[j] != []
    requires IsTail(after.lists[j], mid.lists[j]) && |after.lists| == |before.lists| && size' == Given(c, before, after, id)
    requires size' >= enough && size' - c.Size(j) < enough && forall k :: id < k < c.len ==> before.lists[k] == []
    ensures Recovering(c, before, after, enough, id, Enough) && |after.chunks| < |before.chunks|
    ensures (forall k :: id <= k < c.len ==> after.lists[k] == before.lists[k]) && before.lists[j] != []
  {
    hide Given, Classes.Size, Recovering;
    RecoveringBelow(c, before, after, enough, id, Enough, j);
  }

  /** All classes below `id` are drained, and that was not enough. */
  lemma DrainedAll(c: Classes, before: Pool, after: Pool, enough: nat, id: nat, size: int, space: bool)
    requires Drained(c, before, after, id, 0, size, space) && size < enough && forall k :: id < k < c.len ==> before.lists[k] == []
    ensures Recovering(c, before, after, enough, id, if space then Few else NoSpace)
    ensures if space then |after.chunks| < |before.chunks| else after == before
    ensures space <==> exists k :: 0 <= k < id && before.lists[k] != []
    ensures (forall k :: id <= k < c.len ==> after.lists[k] == before.lists[k]) && forall k :: 0 <= k < id ==> after.lists[k] == []
  {
    hide Given, Recovering;
    RecoveringBelow(c, before, after, enough, id, if space then Few else NoSpace, 0);
  }

  lemma DrainedIs(c: Classes, before: Pool, after: Pool, id: nat, j: nat, size: int, space: bool)
    requires Drained(c, before, after, id, j, size, space)
    ensures |before.lists| == |after.lists| == c.len && j <= id < c.len && size == Given(c, before, after, id)
    ensures forall k :: 0 <= k < j ==> after.lists[k] == before.lists[k]
    ensures if space then |after.chunks| < |before.chunks| else after == before
  {
  }

  /** Some chunks may be gone. */
  ghost predicate Fewer(before: map<nat, Chunk>, after: map<nat, Chunk>)
  {
    (forall a :: a in after ==> a in before && after[a] == before[a]) && |after| <= |before|
  }

  lemma FewerOn(c0: map<nat, Chunk>, c1: map<nat, Chunk>, c2: map<nat, Chunk>)
    requires Fewer(c0, c1) && Fewer(c1, c2)
    ensures Fewer(c0, c2) && |c2| <= |c1| <= |c0|
  {
  }

  lemma FewerSame(c: map<nat, Chunk>)
    ensures Fewer(c, c)
  {
  }

  lemma FewerIs(before: map<nat, Chunk>, after: map<nat, Chunk>)
    requires Fewer(before, after)
    ensures forall a :: a in after ==> a in before && after[a] == before[a]
    ensures |after| <= |before|
  {
  }

  class Manager {
    const allocator: Allocator
    const classes: Classes
    const sizes: seq<nat>
    var lists: seq<seq<nat>>
    var chunks: map<nat, Chunk>
    var usedSize: int
    var reqsSize: int
    var freeSize: int
    var chunkCount: int
    var failed: nat
    var recover: nat
    var recoverFailed: nat
    var splitFailed: nat

    ghost function Now(): Pool
      reads this`lists, this`chunks
    {
      Pool(lists, chunks)
    }

    ghost predicate Valid()
      reads this`lists, this`chunks, this`chunkCount, allocator, allocator.shm
    {
      && classes.Valid() && Tabled(classes, sizes)
      && allocator.Valid() && Sorted(classes, Now()) && Backed()
      && chunkCount == |chunks|
    }

    /** Every chunk with its header lies in an allocated piece of its own. */
    ghost predicate Backed()
      reads this`chunks, allocator, allocator.shm
    {
      forall a {:trigger chunks[a]} :: a in chunks ==> allocator.Holds(a, chunks[a].size + CHUNK_SIZE)
    }

    lemma HeldChunk(a: nat)
      requires Backed() && a in chunks
      ensures allocator.Holds(a, chunks[a].size + CHUNK_SIZE)
    {
    }

    twostate lemma BackedWithout(a: nat)
      requires old(Backed()) && allocator.Kept({a}) && chunks == old(chunks) - {a}
      ensures Backed()
    {
      hide Allocator.Holds;
    }

    /** How far the size counters are from the sums they stand for. */
    ghost function Drift(): Stats
      reads this`lists, this`chunks, this`usedSize, this`reqsSize, this`freeSize
    {
      var s := StatsOf(Now());
      Stats(usedSize - s.used, reqsSize - s.reqs, freeSize - s.free)
    }

    constructor (allocator: Allocator, classes: Classes, sizes: seq<nat>)
      requires allocator.Valid() && classes.Valid() && Tabled(classes, sizes)
      ensures this.allocator == allocator && this.classes == classes && this.sizes == sizes
      ensures Valid() && chunks == map[] && Drift() == Stats(0, 0, 0)
    {
      this.allocator, this.classes, this.sizes := allocator, classes, sizes;
      lists, chunks := seq(classes.len, i => []), map[];
      usedSize, reqsSize, freeSize, chunkCount := 0, 0, 0, 0;
      failed, recover, recoverFailed, splitFailed := 0, 0, 0, 0;
    }

    /** Gives the piece of a chunk back to the allocator. */
    method Forget(chunk: nat)
      requires allocator.Valid() && Backed() && chunk in chunks
      modifies this`chunks, allocator, allocator.shm
      ensures allocator.Valid() && Backed() && chunks == old(chunks) - {chunk} && |chunks| == |old(chunks)| - 1
      ensures allocator.Kept({chunk}) && !allocator.Holds(chunk, 0) && allocator.refusals == old(allocator.refusals)
      ensures Moves(old(allocator.Held()), allocator.Held(), old(chunks.Keys) - chunks.Keys, {})
    {
      hide Allocator.Valid, Allocator.Holds, Allocator.Held, Allocator.Kept, Moves, Backed;
      HeldChunk(chunk);
      allocator.HoldsLess(chunk, 0, chunks[chunk].size + CHUNK_SIZE);
      allocator.Free(chunk);
      allocator.KeptMoves({chunk});
      chunks := chunks - {chunk};
      BackedWithout(chunk);
      assert old(chunks.Keys) - chunks.Keys == {chunk} && chunks.Keys == old(chunks.Keys) - {chunk};
    }

    /** Gives the first cached chunk of class `i` back to the allocator. */
    method GiveBack(i: nat)
      requires Valid() && i < classes.len && lists[i] != []
      modifies this`lists, this`chunks, this`freeSize, this`chunkCount, allocator, allocator.shm
      ensures Valid() && Now() == Dropped(old(Now()), i) && Drift() == old(Drift()) && Used(Now()) == old(Used(Now()))
      ensures !allocator.Holds(old(lists)[i][0], 0) && allocator.Kept({old(lists)[i][0]})
      ensures chunks.Keys <= old(chunks.Keys) && Moves(old(allocator.Held()), allocator.Held(), old(chunks.Keys) - chunks.Keys, {})
      ensures Fewer(old(chunks), chunks) && |chunks| < |old(chunks)| && allocator.refusals == old(allocator.refusals)
    {
      hide Sorted, Used, Cached, Allocator.Valid, Allocator.Holds, Allocator.Held, Allocator.Kept, Moves, Classes.Size, StatsOf, Backed;
      ghost var c, p := classes, Now();
      Head(c, p, i);
      DroppedSets(c, p, i);
      DroppedStats(c, p, i);
      Forget(lists[i][0]);
      lists := lists[i := lists[i][1..]];
      freeSize := freeSize - (sizes[i] - CHUNK_SIZE);
      chunkCount := chunkCount - 1;
      assert Now() == Dropped(p, i);
    }

    /** Cached chunks may have gone, but nothing that is handed out changed. */
    twostate predicate Steady()
      reads this, allocator, allocator.shm
    {
      && Valid() && Drift() == old(Drift()) && Used(Now()) == old(Used(Now())) && failed == old(failed)
      && chunks.Keys <= old(chunks.Keys) && Fewer(old(chunks), chunks)
    }

    /** Gives cached chunks of class `j` back until the class is empty or `size`, which counts
        the bytes, is enough. */
    method Drain(j: nat, chunkSize: nat, size: nat, ghost before: Pool, ghost id: nat) returns (done: bool, size': nat)
      requires Valid() && j < id < classes.len == |before.lists| == |lists|
      requires size == Given(classes, before, Now(), id) && size < chunkSize * RECOVER_FACTOR
      modifies this`lists, this`chunks, this`freeSize, this`chunkCount, allocator, allocator.shm
      ensures Steady() && |lists| == |old(lists)| && forall k :: 0 <= k < |lists| && k != j ==> lists[k] == old(lists)[k]
      ensures allocator.refusals == old(allocator.refusals)
      ensures Moves(old(allocator.Held()), allocator.Held(), old(chunks.Keys) - chunks.Keys, {})
      ensures size' == Given(classes, before, Now(), id) && IsTail(lists[j], old(lists)[j])
      ensures done <==> size' >= chunkSize * RECOVER_FACTOR
      ensures if done then size' - classes.Size(j) < chunkSize * RECOVER_FACTOR else lists[j] == []
      ensures if old(lists)[j] == [] then !done && Now() == old(Now()) && allocator.Unchanged()
              else |chunks| < |old(chunks)|
      ensures DrainedOne(old(Now()), Now(), j)
    {
      hide Fewer, Moves, Allocator.Held, Valid, Used, Drift, Given, Classes.Size;
      Lengths();
      ghost var h0, k0, c0 := allocator.Held(), chunks.Keys, chunks;
      FewerSame(c0);
      MovesNot(h0, k0);
      size' := size;
      while lists[j] != []
        invariant Steady() && |lists| == |old(lists)| == classes.len && allocator.refusals == old(allocator.refusals)
        invariant Moves(old(allocator.Held()), allocator.Held(), old(chunks.Keys) - chunks.Keys, {})
        invariant forall k :: 0 <= k < |lists| && k != j ==> lists[k] == old(lists)[k]
        invariant size' == Given(classes, before, Now(), id) < chunkSize * RECOVER_FACTOR && IsTail(lists[j], old(lists)[j])
        invariant if lists[j] == old(lists)[j] then Now() == old(Now()) && allocator.Unchanged()
                  else |chunks| < |old(chunks)|
        decreases |lists[j]|
      {
        ghost var mid := Now();
        ghost var h1, k1, c1 := allocator.Held(), chunks.Keys, chunks;
        GiveBack(j);
        MovesOn(h0, h1, allocator.Held(), k0, k1, chunks.Keys, {});
        FewerOn(c0, c1, chunks);
        OneGiven(classes, before, mid, Now(), id, j);
        size' := size' + sizes[j];
        if size' >= chunkSize * RECOVER_FACTOR {
          return true, size';
        }
      }
      done := false;
    }

    lemma Lengths()
      requires Valid()
      ensures classes.Valid() && |lists| == classes.len && Tabled(classes, sizes)
    {
    }

    /** fast_slabs_recover: gives cached chunks of classes other than `id` back to the
        allocator; it says NoSpace exactly when there are none. */
    method Recover(chunkSize: nat, id: nat) returns (r: Recovered)
      requires Valid() && id < classes.len && chunkSize > 0
      modifies this, allocator, allocator.shm
      ensures Steady() && |lists| == |old(lists)| == classes.len && lists[id] == old(lists)[id]
      ensures allocator.refusals == old(allocator.refusals)
      ensures Moves(old(allocator.Held()), allocator.Held(), old(chunks.Keys) - chunks.Keys, {})
      ensures Recovering(classes, old(Now()), Now(), chunkSize * RECOVER_FACTOR, id, r)
      ensures r == NoSpace <==> forall i :: 0 <= i < classes.len && i != id ==> old(lists)[i] == []
      ensures r == NoSpace ==> Now() == old(Now()) && allocator.Unchanged()
      ensures r != NoSpace ==> |chunks| < |old(chunks)|
      ensures r == Few ==> forall i :: 0 <= i < classes.len && i != id ==> lists[i] == []
      ensures recover == old(recover) + 1 && recoverFailed == old(recoverFailed) + if r == Enough then 0 else 1
    {
      hide Fewer, Moves, Allocator.Held, Valid, Used, Drift, Given, Classes.Size, Recovering;
      Lengths();
      ghost var start := Now();
      recover := recover + 1;
      var i := id + 1;
      while i < classes.len
        invariant id + 1 <= i <= classes.len
        invariant forall k :: id < k < i ==> lists[k] == []
      {
        if lists[i] != [] {
          GiveBack(i);
          RecoveringAbove(classes, start, Now(), chunkSize * RECOVER_FACTOR, id, i);
          return Enough;
        }
        i := i + 1;
      }
      r := RecoverBelow(chunkSize, id);
      if r != Enough {
        recoverFailed := recoverFailed + 1;
      }
    }

    /** The second loop of fast_slabs_recover: no class above `id` has a cached chunk. */
    method RecoverBelow(chunkSize: nat, id: nat) returns (r: Recovered)
      requires Valid() && id < classes.len == |lists| && chunkSize > 0 && forall k :: id < k < classes.len ==> lists[k] == []
      modifies this`lists, this`chunks, this`freeSize, this`chunkCount, allocator, allocator.shm
      ensures Steady() && |lists| == |old(lists)| && lists[id] == old(lists)[id]
      ensures allocator.refusals == old(allocator.refusals)
      ensures Moves(old(allocator.Held()), allocator.Held(), old(chunks.Keys) - chunks.Keys, {})
      ensures Recovering(classes, old(Now()), Now(), chunkSize * RECOVER_FACTOR, id, r)
      ensures r == NoSpace <==> forall i :: 0 <= i < id ==> old(lists)[i] == []
      ensures r == NoSpace ==> Now() == old(Now()) && allocator.Unchanged()
      ensures r != NoSpace ==> |chunks| < |old(chunks)|
      ensures forall i :: id < i < classes.len ==> lists[i] == []
      ensures r == Few ==> forall i :: 0 <= i < id ==> lists[i] == []
    {
      hide Fewer, Moves, Drained, DrainedOne, Allocator.Held, Valid, Used, Drift, Given, Classes.Size, Recovering;
      Lengths();
      ghost var h0, k0, c0 := allocator.Held(), chunks.Keys, chunks;
      FewerSame(c0);
      MovesNot(h0, k0);
      ghost var start, enough := Now(), chunkSize * RECOVER_FACTOR;
      var space, size, done := false, 0, false;
      var j := id;
      DrainedNothing(classes, start, id);
      while j > 0
        invariant 0 <= j <= id && Steady() && |lists| == |old(lists)| && allocator.refusals == old(allocator.refusals)
        invariant Moves(old(allocator.Held()), allocator.Held(), old(chunks.Keys) - chunks.Keys, {})
        invariant Drained(classes, start, Now(), id, j, size, space) && 0 <= size < enough
        invariant !space ==> allocator.Unchanged()
      {
        j := j - 1;
        DrainedIs(classes, start, Now(), id, j + 1, size, space);
        ghost var h1, k1, c1, mid, size1, space1 := allocator.Held(), chunks.Keys, chunks, Now(), size, space;
        if lists[j] != [] {
          space := true;
        }
        done, size := Drain(j, chunkSize, size, start, id);
        MovesOn(h0, h1, allocator.Held(), k0, k1, chunks.Keys, {});
        FewerOn(c0, c1, chunks);
        if done {
          DrainedEnough(classes, start, mid, Now(), enough, id, j, size1, size, space1);
          return Enough;
        }
        DrainedStep(classes, start, mid, Now(), id, j, size1, size, space1);
      }
      DrainedAll(classes, start, Now(), enough, id, size, space);
      r := if space then Few else NoSpace;
    }

    /** fast_slabs_clsid */
    method ClassId(size: nat, up: bool) returns (id: int)
      requires classes.Valid() && Tabled(classes, sizes)
      ensures Found(classes, size, up, id)
    {
      hide Classes.Size, Classes.Item;
      if size == 0 {
        return INVALID_ID;
      }
      var maxId := classes.len - 1;
      var all := Need(size);
      if all > sizes[maxId] {
        return INVALID_ID;
      }
      if all <= sizes[0] {
        return 0;
      }
      if all == sizes[maxId] {
        SizesStrict(classes, maxId - 1, maxId);
        LeastFrom(classes, size, maxId);
        return maxId;
      }
      if classes.linear {
        AboveMin(classes, size);
        id := (size - classes.min) / LINEAR_FACTOR;
        if up && (size - classes.min) % LINEAR_FACTOR != 0 {
          id := id + 1;
        }
        return id;
      }
      var low, high := 1, maxId - 1;
      while low <= high
        invariant 1 <= low <= maxId && 0 <= high <= maxId - 1 && sizes[low - 1] < all <= sizes[high + 1]
        invariant classes.len > 2 ==> low <= high
        decreases high - low
      {
        var mid := (low + high) / 2;
        if all <= sizes[mid] {
          if all > sizes[mid - 1] {
            LeastFrom(classes, size, mid);
            return mid;
          } else if all == sizes[mid - 1] {
            if mid >= 2 {
              SizesStrict(classes, mid - 2, mid - 1);
            }
            LeastFrom(classes, size, mid - 1);
            return mid - 1;
          }
          SizesOrder(classes, size, low - 1, mid - 1);
          high := mid - 1;
        } else if all > sizes[mid] {
          if all <= sizes[mid + 1] {
            LeastFrom(classes, size, mid + 1);
            return mid + 1;
          }
          SizesOrder(classes, size, high + 1, mid + 1);
          low := mid + 1;
        }
      }
      return INVALID_ID;
    }

    /** One turn of the retry loop: recovers, and asks again unless there was nothing to recover. */
    method Retry(id: nat) returns (ret: Recovered, chunk: Option)
      requires Valid() && id < classes.len && lists[id] == []
      modifies this, allocator, allocator.shm
      ensures Steady() && |lists| == |old(lists)| == classes.len && lists[id] == []
      ensures allocator.refusals == old(allocator.refusals) + if ret != NoSpace && chunk.None? then 1 else 0
      ensures ret == NoSpace ==> chunk.None? && allocator.Unchanged() && forall i :: 0 <= i < classes.len ==> lists[i] == []
      ensures ret != NoSpace ==> |chunks| < |old(chunks)| && (chunk.None? ==> allocator.Refuses(sizes[id]))
      ensures Moves(old(allocator.Held()), allocator.Held(), old(chunks.Keys) - chunks.Keys, if chunk.Some? then {chunk.value} else {})
      ensures chunk.Some? ==> chunk.value in old(chunks) || (chunk.value, 0) !in old(allocator.Held())
      ensures chunk.Some? ==> chunk.value !in chunks && allocator.Holds(chunk.value, sizes[id])
    {
      hide Fewer, Valid, Used, Drift, CanServe, Recovering, Moves, Allocator.Held, Allocator.Valid, Allocator.Holds;
      Lengths();
      SizePositive(id);
      ghost var h, k, c := allocator.Held(), chunks.Keys, chunks;
      ret := Recover(sizes[id], id);
      chunk := None;
      if ret != NoSpace {
        ghost var h', k' := allocator.Held(), chunks.Keys;
        chunk := AllocBlock(sizes[id]);
        MovesOn(h, h', allocator.Held(), k, k', chunks.Keys, if chunk.Some? then {chunk.value} else {});
        if chunk.Some? {
          MovesNew(h, h', k - k', chunk.value);
        }
      }
    }

    /** Asks the allocator for a chunk of class `id`, giving cached chunks of other classes back
        as long as it refuses. */
    method Obtain(id: nat) returns (chunk: Option, err: Error)
      requires Valid() && id < classes.len && lists[id] == []
      modifies this, allocator, allocator.shm
      ensures Steady() && |lists| == |old(lists)| == classes.len && lists[id] == []
      ensures chunk.None? ==> err == ErrAllocFailed && allocator.Refuses(sizes[id]) && allocator.refusals > old(allocator.refusals)
      ensures chunk.None? ==> forall i :: 0 <= i < classes.len ==> lists[i] == []
      ensures chunk.Some? ==> err == (if allocator.refusals == old(allocator.refusals) then ErrNone else ErrAllocator)
      ensures chunk.Some? && allocator.shm != null ==> (err == ErrNone <==> old(allocator.shm.Servable(sizes[id])))
      ensures Moves(old(allocator.Held()), allocator.Held(), old(chunks.Keys) - chunks.Keys, if chunk.Some? then {chunk.value} else {})
      ensures chunk.Some? ==> chunk.value in old(chunks) || (chunk.value, 0) !in old(allocator.Held())
      ensures chunk.Some? ==> chunk.value !in chunks && allocator.Holds(chunk.value, sizes[id])
    {
      hide Fewer, Moves, Allocator.Held, Valid, Used, Drift, CanServe, Recovering, Allocator.Valid, Allocator.Holds;
      Lengths();
      ghost var h0, k0, c0 := allocator.Held(), chunks.Keys, chunks;
      FewerSame(c0);
      MovesNot(h0, k0);
      err := ErrNone;
      chunk := AllocBlock(sizes[id]);
      MovesOn(h0, h0, allocator.Held(), k0, k0, chunks.Keys, if chunk.Some? then {chunk.value} else {});
      assert Now() == old(Now());
      if chunk.None? {
        err := ErrAllocator;
      }
      var ret := Enough;
      while chunk.None? && ret != NoSpace
        invariant Steady() && |lists| == |old(lists)| == classes.len && lists[id] == []
        invariant chunk.None? ==> err == ErrAllocator && allocator.Refuses(sizes[id])
        invariant err == (if allocator.refusals == old(allocator.refusals) then ErrNone else ErrAllocator)
        invariant allocator.refusals >= old(allocator.refusals)
        invariant allocator.shm != null ==> (err == ErrNone <==> old(allocator.shm.Servable(sizes[id])))
        invariant ret == NoSpace ==> chunk.None? && forall i :: 0 <= i < classes.len ==> lists[i] == []
        invariant Moves(old(allocator.Held()), allocator.Held(), old(chunks.Keys) - chunks.Keys, if chunk.Some? then {chunk.value} else {})
        invariant chunk.Some? ==> chunk.value in old(chunks) || (chunk.value, 0) !in old(allocator.Held())
        invariant chunk.Some? ==> chunk.value !in chunks && allocator.Holds(chunk.value, sizes[id])
        decreases if ret == NoSpace then 0 else 1, |chunks|
      {
        ghost var h, k, c := allocator.Held(), chunks.Keys, chunks;
        ret, chunk := Retry(id);
        MovesOn(h0, h, allocator.Held(), k0, k, chunks.Keys, if chunk.Some? then {chunk.value} else {});
        FewerOn(c0, c, chunks);
        if chunk.Some? && chunk.value !in k {
          MovesNew(h0, h, k0 - k, chunk.value);
        }
      }
      if chunk.None? {
        err := ErrAllocFailed;
      }
    }

    lemma SizePositive(id: nat)
      requires Valid() && id < classes.len
      ensures id < |sizes| && sizes[id] > 0
    {
    }

    /** The allocator's answer; the chunks do not notice. */
    method AllocBlock(size: nat) returns (chunk: Option)
      requires Valid()
      modifies allocator, allocator.shm
      ensures Valid() && allocator.refusals == old(allocator.refusals) + if chunk.None? then 1 else 0
      ensures allocator.shm != null ==> (chunk.Some? <==> old(allocator.shm.Servable(size)))
      ensures chunk.None? ==> allocator.Refuses(size)
      ensures Moves(old(allocator.Held()), allocator.Held(), old(chunks.Keys) - chunks.Keys, if chunk.Some? then {chunk.value} else {})
      ensures chunk.Some? ==> (chunk.value, 0) !in old(allocator.Held())
      ensures chunk.Some? ==> chunk.value !in chunks && allocator.Holds(chunk.value, size)
    {
      hide Sorted, CanServe, Allocator.Valid, Allocator.Holds;
      chunk := allocator.Alloc(size);
      assert old(chunks.Keys) - chunks.Keys == {};
      allocator.KeptMoves(if chunk.Some? then {chunk.value} else {});
      if chunk.Some? {
        NotYetHeld(chunk.value);
      }
    }

    /** A piece that was not allocated held no chunk. */
    twostate lemma NotYetHeld(new p: nat)
      requires old(Backed()) && chunks == old(chunks) && !old(allocator.Holds(p, 0)) && allocator.Kept({p})
      ensures p !in chunks && Backed()
    {
    }

    /** Hands out the first cached chunk of class `id`. */
    method HandOutCached(id: nat, actual: bool, req: nat) returns (chunk: nat, slabSize: nat)
      requires Valid() && id < classes.len && lists[id] != []
      modifies this`lists, this`chunks, this`freeSize, this`reqsSize, this`usedSize
      ensures Valid() && Drift() == old(Drift()) && chunk in old(Cached(Now())) && Used(Now()) == old(Used(Now())) + {chunk}
      ensures chunk == old(lists)[id][0] && lists == old(lists)[id := old(lists)[id][1..]] && chunk in old(chunks)
      ensures slabSize == if actual then classes.Size(id) - CHUNK_SIZE else req
      ensures chunks == old(chunks)[chunk := Chunk(classes.Size(id) - CHUNK_SIZE, slabSize, id)]
    {
      hide Sorted, Used, Cached, Classes.Size, StatsOf, Allocator.Valid, Allocator.Holds;
      Head(classes, Now(), id);
      chunk := lists[id][0];
      slabSize := if actual then chunks[chunk].size else req;
      PoppedSets(classes, Now(), id, slabSize);
      PoppedStats(classes, Now(), id, slabSize);
      lists := lists[id := lists[id][1..]];
      freeSize := freeSize - chunks[chunk].size;
      chunks := chunks[chunk := chunks[chunk].(req := slabSize, id := id)];
      reqsSize := reqsSize + slabSize;
      usedSize := usedSize + chunks[chunk].size;
      assert Now() == Popped(old(Now()), id, slabSize);
    }

    /** Hands out the new chunk `a`; `id` is its class or SPLIT_ID. */
    method HandOutNew(a: nat, size: nat, id: int, req: nat)
      requires Valid() && a !in chunks && allocator.Holds(a, size + CHUNK_SIZE)
      requires id == SPLIT_ID || (0 <= id < classes.len && size == classes.Size(id) - CHUNK_SIZE)
      modifies this`chunks, this`chunkCount, this`reqsSize, this`usedSize
      ensures Valid() && Drift() == old(Drift()) && Used(Now()) == old(Used(Now())) + {a}
      ensures chunks == old(chunks)[a := Chunk(size, req, id)]
    {
      hide Sorted, Used, Cached, Classes.Size, StatsOf, Allocator.Valid, Allocator.Holds;
      AddedSets(classes, Now(), a, Chunk(size, req, id));
      AddedStats(classes, Now(), a, Chunk(size, req, id));
      chunkCount := chunkCount + 1;
      chunks := chunks[a := Chunk(size, req, id)];
      reqsSize := reqsSize + req;
      usedSize := usedSize + size;
    }

    /** No chunk of class `id` is cached: a new one, or a failure that is counted. */
    method AllocNew(id: nat, actual: bool, req: nat) returns (ptr: Option, slabSize: nat, err: Error)
      requires Valid() && id < classes.len && lists[id] == [] && req + CHUNK_SIZE <= classes.Size(id)
      modifies this, allocator, allocator.shm
      ensures Valid() && Drift() == old(Drift())
      ensures forall a :: a in old(Used(Now())) ==> a in chunks && chunks[a] == old(chunks)[a]
      ensures ptr.Some? ==> HandedOut(classes, old(Now()), Now(), ptr.value, actual, req, slabSize, id)
      ensures ptr.Some? ==> err == (if allocator.refusals == old(allocator.refusals) then ErrNone else ErrAllocator)
      ensures Moves(old(allocator.Held()), allocator.Held(), old(chunks.Keys) - chunks.Keys, if ptr.Some? then {ptr.value - CHUNK_SIZE} else {})
      ensures ptr.Some? ==> ptr.value - CHUNK_SIZE in old(chunks) || (ptr.value - CHUNK_SIZE, 0) !in old(allocator.Held())
      ensures ptr.None? ==>
        && Used(Now()) == old(Used(Now())) && allocator.Refuses(classes.Size(id)) && allocator.refusals > old(allocator.refusals)
        && (forall i :: 0 <= i < |lists| ==> lists[i] == []) && err == ErrAllocFailed && slabSize == 0 && failed == old(failed) + 1
    {
      hide Valid, Used, Cached, Drift, Sorted, CanServe, Allocator.Valid, Allocator.Holds, Allocator.Held, Moves, Fewer, Classes.Size;
      Lengths();
      ghost var c0, k0 := chunks, chunks.Keys;
      CachedApart(Now());
      var chunk;
      chunk, err := Obtain(id);
      FewerIs(c0, chunks);
      CachedApart(Now());
      if chunk.None? {
        failed := failed + 1;
        return None, 0, err;
      }
      slabSize := if actual then sizes[id] - CHUNK_SIZE else req;
      ghost var k1 := chunks.Keys;
      HandOutNew(chunk.value, sizes[id] - CHUNK_SIZE, id, slabSize);
      assert k0 - chunks.Keys == k0 - k1 - {chunk.value};
      MovesWeaker(old(allocator.Held()), allocator.Held(), k0 - k1, {chunk.value}, k0 - chunks.Keys, {chunk.value});
      ptr := Some(chunk.value + CHUNK_SIZE);
    }

    /** fast_slabs_alloc: when it fails for a class that exists, nothing is cached any more and
        the allocator has just refused. */
    method Alloc(actual: bool, req: nat) returns (ptr: Option, slabSize: nat, err: Error, ghost id: int)
      requires Valid()
      modifies this, allocator, allocator.shm
      ensures Valid() && Drift() == old(Drift()) && Found(classes, req, true, id)
      ensures forall a :: a in old(Used(Now())) ==> a in chunks && chunks[a] == old(chunks)[a]
      ensures ptr.Some? ==> HandedOut(classes, old(Now()), Now(), ptr.value, actual, req, slabSize, id)
      ensures ptr.Some? ==> err == (if allocator.refusals == old(allocator.refusals) then ErrNone else ErrAllocator)
      ensures Moves(old(allocator.Held()), allocator.Held(), old(chunks.Keys) - chunks.Keys, if ptr.Some? then {ptr.value - CHUNK_SIZE} else {})
      ensures ptr.Some? && old(lists)[id] != [] ==>
        && err == ErrNone && allocator.Unchanged() && ptr.value - CHUNK_SIZE == old(lists)[id][0]
        && lists == old(lists)[id := old(lists)[id][1..]] && chunks.Keys == old(chunks.Keys)
      ensures ptr.Some? && old(lists)[id] == [] ==>
        ptr.value - CHUNK_SIZE in old(chunks) || (ptr.value - CHUNK_SIZE, 0) !in old(allocator.Held())
      ensures ptr.None? ==> Used(Now()) == old(Used(Now()))
      ensures ptr.None? && id == INVALID_ID ==>
        Now() == old(Now()) && allocator.Unchanged() && err == (if req == 0 then ErrParam else ErrInvalidId)
      ensures ptr.None? && id != INVALID_ID ==>
        && id >= 0 && allocator.Refuses(classes.Size(id)) && allocator.refusals > old(allocator.refusals) && (forall i :: 0 <= i < |lists| ==> lists[i] == [])
        && err == ErrAllocFailed && slabSize == 0 && failed == old(failed) + 1
    {
      hide Moves, Allocator.Held, Valid, Used, Cached, Drift, Sorted, CanServe, Allocator.Valid, Allocator.Holds, Classes.Size, Found;
      Lengths();
      ghost var h0, k0 := allocator.Held(), chunks.Keys;
      MovesNot(h0, k0);
      slabSize := 0;
      var k := ClassId(req, true);
      id := k;
      FoundHolds(classes, req, k);
      CachedApart(Now());
      if req == 0 {
        return None, 0, ErrParam, id;
      }
      if k == INVALID_ID {
        return None, 0, ErrInvalidId, id;
      }
      if lists[k] == [] {
        ptr, slabSize, err := AllocNew(k, actual, req);
        return ptr, slabSize, err, id;
      } else {
        var chunk;
        chunk, slabSize := HandOutCached(k, actual, req);
        assert k0 - chunks.Keys == {};
        MovesWeaker(h0, allocator.Held(), k0 - k0, {}, k0 - chunks.Keys, {chunk});
        return Some(chunk + CHUNK_SIZE), slabSize, ErrNone, id;
      }
    }

    lemma CachedApart(p: Pool)
      ensures forall a :: a in Cached(p) ==> a !in Used(p)
      ensures forall a :: a in Used(p) ==> a in p.chunks
    {
    }

    /** fast_slabs_split_alloc: hands out one large piece of the allocator as one chunk; from the
        shared-memory allocator a largest free block. */
    method SplitAlloc(req: nat, minReq: nat) returns (ptr: Option, slabSize: nat, err: Error)
      requires Valid()
      modifies this, allocator, allocator.shm
      ensures Valid() && Drift() == old(Drift()) && lists == old(lists) && failed == old(failed)
      ensures ptr.Some? ==> SplitError(req).ErrNone?
      ensures allocator.shm != null && SplitError(req).ErrNone? ==>
        (ptr.Some? <==> exists x :: Fits(old(allocator.shm.Now()), x, Need(minReq)))
      ensures ptr.Some? ==> err == ErrNone && ptr.value >= CHUNK_SIZE && slabSize >= minReq && var a := ptr.value - CHUNK_SIZE;
        && allocator.Kept({a}) && !old(allocator.Holds(a, 0)) && allocator.Holds(a, slabSize + CHUNK_SIZE)
        && a !in old(chunks) && Used(Now()) == old(Used(Now())) + {a}
        && chunks == old(chunks)[a := Chunk(slabSize, if req >= slabSize then slabSize else req, SPLIT_ID)]
      ensures allocator.shm != null && ptr.Some? ==>
        forall x :: Fits(old(allocator.shm.Now()), x, 0) ==> old(allocator.shm.blocks)[x].size <= slabSize + CHUNK_SIZE
      ensures ptr.None? ==> Now() == old(Now()) && allocator.Kept({}) && (allocator.shm != null ==> allocator.shm.Now() == old(allocator.shm.Now()))
      ensures ptr.None? ==> err == if SplitError(req).ErrNone? then ErrAllocator else SplitError(req)
      ensures err == ErrAllocator <==> allocator.refusals > old(allocator.refusals)
    {
      hide Valid, Used, Cached, Drift, Sorted, Allocator.Valid, Allocator.Holds, Classes.Size;
      Lengths();
      slabSize := 0;
      if req == 0 {
        return None, 0, ErrParam;
      }
      if !allocator.splits {
        return None, 0, ErrNotSupported;
      }
      if Need(req) > sizes[classes.len - 1] {
        return None, 0, ErrTooLarge;
      }
      ghost var p := Now();
      var size;
      ptr, size := SplitBlock(Need(minReq));
      assert Now() == p;
      if ptr.None? {
        splitFailed := splitFailed + 1;
        return None, 0, ErrAllocator;
      }
      slabSize := size - CHUNK_SIZE;
      HandOutNew(ptr.value, slabSize, SPLIT_ID, if req >= slabSize then slabSize else req);
      return Some(ptr.value + CHUNK_SIZE), slabSize, ErrNone;
    }

    /** Why a split is refused before the allocator is asked. */
    function SplitError(req: nat): Error
      requires classes.Valid()
    {
      if req == 0 then ErrParam
      else if !allocator.splits then ErrNotSupported
      else if Need(req) > classes.Size(classes.len - 1) then ErrTooLarge
      else ErrNone
    }

    /** The allocator's answer; the chunks do not notice. */
    method SplitBlock(minSize: nat) returns (chunk: Option, size: nat)
      requires Valid() && allocator.splits
      modifies allocator, allocator.shm
      ensures Valid() && allocator.refusals == old(allocator.refusals) + if chunk.None? then 1 else 0
      ensures chunk.Some? ==> chunk.value !in chunks && allocator.Holds(chunk.value, size) && size >= minSize
      ensures chunk.None? ==> allocator.Kept({})
      ensures chunk.Some? ==> allocator.Kept({chunk.value}) && !old(allocator.Holds(chunk.value, 0))
      ensures allocator.shm != null ==> (chunk.Some? <==> exists x :: Fits(old(allocator.shm.Now()), x, minSize))
      ensures allocator.shm != null && chunk.Some? ==>
        forall x :: Fits(old(allocator.shm.Now()), x, 0) ==> old(allocator.shm.blocks)[x].size <= size
      ensures allocator.shm != null && chunk.None? ==> allocator.shm.Now() == old(allocator.shm.Now())
    {
      hide Sorted, Allocator.Valid, Allocator.Holds;
      chunk, size := allocator.SplitAlloc(minSize);
      if chunk.Some? {
        NotYetHeld(chunk.value);
      }
    }

    /** fast_slabs_free.  A chunk of a class is cached before the counters are checked, so a
        refused free leaves the counters behind by exactly that chunk. */
    method Free(ptr: nat) returns (ok: bool, err: Error)
      requires Valid() && ptr >= CHUNK_SIZE && ptr - CHUNK_SIZE in Used(Now())
      modifies this, allocator, allocator.shm
      ensures Valid() && Used(Now()) == old(Used(Now())) - {ptr - CHUNK_SIZE} && failed == old(failed)
      ensures err == if ok then ErrNone else ErrChunkId
      ensures var a, k := ptr - CHUNK_SIZE, old(chunks)[ptr - CHUNK_SIZE];
        if k.id == SPLIT_ID then
          && ok && Drift() == old(Drift()) && lists == old(lists) && chunks == old(chunks) - {a}
          && allocator.Kept({a}) && !allocator.Holds(a, 0)
        else
          && lists == InFront(old(lists), k.id, a) && chunks == old(chunks) && Cached(Now()) == old(Cached(Now())) + {a} && allocator.Unchanged()
          && (ok <==> k.id >= 0 && old(usedSize) >= classes.Size(k.id))
          && var d := old(Drift());
            Drift() == if ok then d else Stats(d.used + k.size, d.reqs + k.req, d.free - k.size)
    {
      hide Valid, Used, Cached, Drift, Classes.Size;
      Lengths();
      var chunk := ptr - CHUNK_SIZE;
      CachedApart(Now());
      KnownId(Now(), chunk);
      if chunks[chunk].id == SPLIT_ID {
        FreeSplit(chunk);
        return true, ErrNone;
      }
      ok := FreeCached(chunk);
      err := if ok then ErrNone else ErrChunkId;
    }

    lemma KnownId(p: Pool, a: nat)
      requires Valid() && p == Now() && a in chunks
      ensures chunks[a].id == SPLIT_ID || 0 <= chunks[a].id < classes.len
    {
    }

    /** A chunk that split_alloc handed out goes back to the allocator. */
    method FreeSplit(chunk: nat)
      requires Valid() && chunk in Used(Now()) && chunk in chunks && chunks[chunk].id == SPLIT_ID
      modifies this`chunks, this`chunkCount, this`usedSize, this`reqsSize, allocator, allocator.shm
      ensures Valid() && Used(Now()) == old(Used(Now())) - {chunk} && Drift() == old(Drift())
      ensures chunks == old(chunks) - {chunk}
      ensures allocator.Kept({chunk}) && !allocator.Holds(chunk, 0)
    {
      hide Moves, Allocator.Held, Used, Cached, Sorted, Allocator.Valid, Allocator.Holds, Classes.Size, StatsOf, Backed, Tabled;
      ghost var p := Now();
      RemovedSets(classes, p, chunk);
      RemovedStats(classes, p, chunk);
      chunkCount := chunkCount - 1;
      usedSize := usedSize - chunks[chunk].size;
      reqsSize := reqsSize - chunks[chunk].req;
      Forget(chunk);
      assert Now() == p.(chunks := p.chunks - {chunk});
    }

    /** A chunk of a class goes to the free list of the class. */
    method FreeCached(chunk: nat) returns (ok: bool)
      requires Valid() && chunk in Used(Now()) && chunk in chunks && 0 <= chunks[chunk].id < classes.len
      modifies this`lists, this`freeSize, this`usedSize, this`reqsSize
      ensures Valid() && Used(Now()) == old(Used(Now())) - {chunk} && Cached(Now()) == old(Cached(Now())) + {chunk}
      ensures lists == InFront(old(lists), chunks[chunk].id, chunk)
      ensures ok <==> old(usedSize) >= classes.Size(chunks[chunk].id)
      ensures var d, k := old(Drift()), chunks[chunk];
        Drift() == if ok then d else Stats(d.used + k.size, d.reqs + k.req, d.free - k.size)
    {
      hide Used, Cached, Sorted, Allocator.Valid, Allocator.Holds, Classes.Size, StatsOf;
      ghost var p := Now();
      Lengths();
      var k := chunks[chunk];
      PushedSets(classes, p, chunk);
      PushedStats(classes, p, chunk);
      lists := lists[k.id := [chunk] + lists[k.id]];
      assert Now() == Pushed(p, chunk);
      if usedSize < sizes[k.id] {
        return false;
      }
      freeSize := freeSize + k.size;
      usedSize := usedSize - k.size;
      reqsSize := reqsSize - k.req;
      ok := true;
    }
  }

  lemma AboveMin(c: Classes, size: nat)
    requires c.Size(0) < Need(size)
    ensures c.min < size
  {
    ItemMonotone(c, 0, 0);
    if size <= c.min {
      AlignmentMonotone(size + CHUNK_SIZE, c.Item(0) + CHUNK_SIZE);
    }
  }

  /** Classes are ordered like their sizes. */
  lemma SizesOrder(c: Classes, size: nat, i: nat, j: nat)
    ensures c.Size(i) < Need(size) && Need(size) < c.Size(j) ==> i < j
    ensures Need(size) <= c.Size(i) && c.Size(j) < Need(size) ==> j < i
  {
    if i >= j {
      SizesMonotone(c, j, i);
    } else {
      SizesMonotone(c, i, j);
    }
  }

  /** Every answer but INVALID_ID is a class that holds the request. */
  lemma FoundHolds(c: Classes, size: nat, id: int)
    requires c.Valid() && Found(c, size, true, id)
    ensures size == 0 ==> id == INVALID_ID
    ensures id != INVALID_ID ==> 0 <= id < c.len && size + CHUNK_SIZE <= Need(size) <= c.Size(id)
  {
    hide Classes.Size;
    if id != INVALID_ID && c.Size(0) < Need(size) < c.Size(c.len - 1) && c.linear {
      AboveMin(c, size);
      LinearLookup(c, size, id);
    }
  }

  /** When the counters are exact, a free is accepted just when the chunks that stay handed out
      hold at least as many bytes as one header. */
  lemma FreeAccepted(c: Classes, p: Pool, a: nat)
    requires c.Valid() && Sorted(c, p) && a in Used(p) && p.chunks[a].id >= 0
    ensures Used(p) <= p.chunks.Keys
    ensures StatsOf(p).used >= c.Size(p.chunks[a].id) <==> Sum(Used(p) - {a}, p.chunks, false) >= CHUNK_SIZE
  {
    hide Classes.Size;
    UsedKnown(p);
    SumRemove(Used(p), p.chunks, false, a);
  }

  /** So the last chunk of a class can never be freed without an error. */
  lemma LastFreeIsRefused(c: Classes, p: Pool, a: nat)
    requires c.Valid() && Sorted(c, p) && Used(p) == {a} && a in p.chunks && p.chunks[a].id >= 0
    ensures StatsOf(p).used < c.Size(p.chunks[a].id)
  {
    FreeAccepted(c, p, a);
    assert Used(p) - {a} == {};
  }

  /** Chunks do not overlap, and over the shared-memory allocator they lie inside its region. */
  lemma ChunksDisjoint(m: Manager, a: nat, b: nat)
    requires m.Valid() && a in m.chunks && b in m.chunks && a != b
    ensures a + CHUNK_SIZE + m.chunks[a].size <= b || b + CHUNK_SIZE + m.chunks[b].size <= a
    ensures m.allocator.shm != null ==>
      m.allocator.shm.config.base + m.allocator.shm.config.header <= a && a + CHUNK_SIZE + m.chunks[a].size <= m.allocator.shm.config.total
  {
    hide Sorted, Allocator.Valid, Allocator.Holds, Classes.Size;
    m.allocator.HeldApart(a, m.chunks[a].size + CHUNK_SIZE, b, m.chunks[b].size + CHUNK_SIZE);
  }

  /** The errors that the arguments alone decide. */
  ghost predicate CreateError(uptype: int, factor: nat, itemMin: nat, itemMax: nat, err: Error)
  {
    if itemMin == 0 || itemMax == 0 || itemMax / itemMin < 2 then err == ErrParam
    else if uptype == POWER && factor != POWER_FACTOR then err == ErrPowerFactor
    else if uptype == LINEAR && factor != LINEAR_FACTOR then err == ErrLinearFactor
    else if uptype != POWER && uptype != LINEAR then err == ErrUptype
    else err == ErrNone || err == ErrAllocator
  }

  /** fast_slabs_create; the manager and its table of classes, `managerSize` and `classSize` bytes
      per class, live in pieces of the same allocator, the ones in `kept`. */
  method Create(allocator: Allocator, uptype: int, factor: nat, itemMin: nat, itemMax: nat, managerSize: nat, classSize: nat)
    returns (m: Manager?, err: Error, ghost kept: set<nat>)
    requires allocator.Valid() && managerSize > 0 && classSize > 0
    modifies allocator, allocator.shm
    ensures allocator.Valid() && (m == null <==> err != ErrNone)
    ensures CreateError(uptype, factor, itemMin, itemMax, err)
    ensures err.ErrParam? || err.ErrLinearFactor? || err.ErrPowerFactor? || err.ErrUptype? ==> allocator.Unchanged() && kept == {}
    ensures err.ErrNone? || err.ErrAllocator? ==> exists n: nat ::
      Covers(Classes(uptype == LINEAR, itemMin, n), itemMax) && Tables(allocator, managerSize, classSize * n, err.ErrNone?, kept)
    ensures m != null ==> fresh(m) && m.Valid() && m.Drift() == Stats(0, 0, 0) && m.chunks == map[] && m.allocator == allocator
    ensures m != null ==> m.classes.linear == (uptype == LINEAR) && m.classes.min == itemMin
    ensures m != null ==> Covers(m.classes, itemMax)
  {
    hide Allocator.Valid, Allocator.Holds, Classes.Item, Covers, CanServe, Tabled, Manager.Valid, Manager.Drift;
    m, kept := null, {};
    if itemMin == 0 || itemMax == 0 || itemMax / itemMin < 2 {
      return null, ErrParam, {};
    }
    if uptype == POWER {
      if factor != POWER_FACTOR {
        return null, ErrPowerFactor, {};
      }
    } else if uptype == LINEAR {
      if factor != LINEAR_FACTOR {
        return null, ErrLinearFactor, {};
      }
    } else {
      return null, ErrUptype, {};
    }
    var linear := uptype == LINEAR;
    var freeLen := CountClasses(linear, itemMin, itemMax);
    var room;
    room, kept := AllocTables(allocator, managerSize, classSize * freeLen);
    assert Covers(Classes(linear, itemMin, freeLen), itemMax);
    if room {
      var classes := Classes(linear, itemMin, freeLen);
      var sizes := SizeTable(classes);
      m := new Manager(allocator, classes, sizes);
    }
    err := if room then ErrNone else ErrAllocator;
    assert Tables(allocator, managerSize, classSize * freeLen, room, kept);
  }

  /** The pieces `kept` are new and no other piece has changed: the two of the manager and its
      table, or, when one of the two was refused, those that were granted before. */
  twostate predicate Tables(allocator: Allocator, new managerSize: nat, new tableSize: nat, new ok: bool, new kept: set<nat>)
    reads allocator, allocator.shm
  {
    && allocator.Kept(kept) && (forall a :: a in kept ==> !old(allocator.Holds(a, 0)))
    && if ok then exists a, b :: kept == {a, b} && a != b && allocator.Holds(a, managerSize) && allocator.Holds(b, tableSize)
       else
         && allocator.refusals == old(allocator.refusals) + 1
         && (allocator.shm != null ==> (kept != {} <==> old(allocator.shm.Servable(managerSize))))
         && if kept == {} then allocator.Refuses(managerSize)
            else allocator.Refuses(tableSize) && exists a :: kept == {a} && allocator.Holds(a, managerSize)
  }

  /** The two pieces of a new manager.  When the second one is refused, the first one stays
      allocated. */
  method AllocTables(allocator: Allocator, managerSize: nat, tableSize: nat) returns (ok: bool, ghost kept: set<nat>)
    requires allocator.Valid()
    modifies allocator, allocator.shm
    ensures allocator.Valid() && Tables(allocator, managerSize, tableSize, ok, kept)
  {
    hide Allocator.Valid, Allocator.Holds, CanServe;
    kept := {};
    var block := allocator.Alloc(managerSize);
    if block.None? {
      return false, {};
    }
    allocator.HoldsLess(block.value, 0, managerSize);
    var table := allocator.Alloc(tableSize);
    kept := if table.Some? then {block.value, table.value} else {block.value};
    ok := table.Some?;
  }

  /** A heap with one live piece at `first`, behind which exactly `size` bytes are left. */
  method NarrowHeap(l: Shmem.Layout, size: nat) returns (shm: Shmem.Shmem, first: nat, ghost filler: nat)
    requires l.Valid() && size >= 8
    ensures fresh(shm) && shm.Valid() && shm.Servable(size)
    ensures var c := shm.config;
      && first == c.base + c.header && first + filler + c.header + size == c.total
      && c.base in Live(shm.blocks) && Live(shm.blocks)[c.base].size >= filler
  {
    hide CanServe, FirstFound, Whole, Inv, Shmem.Shmem.Counted, Live, Bound;
    shm := Shmem.SmallHeap(l, 64 + Alignment(size) + l.storage);
    ghost var c, h := shm.config, shm.Now();
    Shmem.WholeBlock(c, h);
    var n := shm.blocks[shm.config.base].size - shm.config.header - size;
    Shmem.WholeServes(c, h, n);
    var p, e := shm.Alloc(n);
    assert Fits(h, p.value - c.header, 0);
    assert Live(shm.blocks).Keys == {c.base};
    OneLive(c, shm.Now());
    Shmem.OneServes(c, shm.Now(), c.base + c.header + n, size);
    first, filler := p.value, n;
  }

  /** There is no room for two more pieces. */
  lemma NoRoomForTwo(allocator: Allocator, first: nat, filler: nat, a: nat, b: nat, size: nat)
    requires allocator.shm != null && allocator.Valid() && first + filler + allocator.shm.config.header + size == allocator.shm.config.total
    requires first == allocator.shm.config.base + allocator.shm.config.header && allocator.shm.config.header > 0
    requires allocator.Holds(first, filler) && allocator.Holds(a, size) && allocator.Holds(b, 0)
    ensures a == first || b == first || a == b
  {
    hide Allocator.Holds, Allocator.Valid;
    if a != first && b != first && a != b {
      allocator.HeldApart(first, filler, a, size);
      allocator.HeldApart(b, 0, first, filler);
      allocator.HeldApart(a, size, b, 0);
    }
  }

  /** So the second piece of a manager is refused. */
  twostate lemma SecondIsRefused(allocator: Allocator, new first: nat, new filler: nat, new size: nat, new tableSize: nat,
    new ok: bool, new kept: set<nat>)
    requires allocator.shm != null && allocator.Valid() && first + filler + allocator.shm.config.header + size == allocator.shm.config.total
    requires first == allocator.shm.config.base + allocator.shm.config.header && allocator.shm.config.header > 0
    requires old(allocator.Holds(first, filler) && allocator.shm.Servable(size)) && Tables(allocator, size, tableSize, ok, kept)
    ensures !ok && exists a :: kept == {a} && allocator.Holds(a, size)
  {
    hide Allocator.Holds, Allocator.Valid, CanServe;
    assert old(allocator.Holds(first, 0)) by { FirstHeld(allocator, first, filler); }
    assert first !in kept && allocator.Holds(first, filler);
    if ok {
      var a, b :| kept == {a, b} && a != b && allocator.Holds(a, size) && allocator.Holds(b, tableSize);
      allocator.HoldsLess(b, 0, tableSize);
      NoRoomForTwo(allocator, first, filler, a, b, size);
      assert false;
    }
  }

  twostate lemma FirstHeld(allocator: Allocator, new first: nat, new filler: nat)
    requires old(allocator.Holds(first, filler))
    ensures old(allocator.Holds(first, 0))
  {
  }

  /** A heap in which that happens: the rest is just large enough for the manager, which stays
      allocated although there is no manager. */
  method TableCanBeRefused(l: Shmem.Layout, managerSize: nat, classSize: nat)
    returns (allocator: Allocator, m: Manager?, err: Error, ghost kept: set<nat>)
    requires l.Valid() && managerSize >= 8 && classSize > 0
    ensures fresh(allocator) && allocator.Valid() && m == null && err == ErrAllocator
    ensures exists a :: kept == {a} && allocator.Holds(a, managerSize)
  {
    hide CanServe, Shmem.Shmem.Valid, Live, Covers, Classes.Item, Allocator.Valid, Tables;
    var shm, first;
    ghost var filler;
    shm, first, filler := NarrowHeap(l, managerSize);
    Shmem.InvOf(shm);
    allocator := new Allocator(shm, true);
    assert allocator.Holds(first, filler);
    label before:
    m, err, kept := Create(allocator, POWER, POWER_FACTOR, 16, 64, managerSize, classSize);
    ghost var n: nat :| Tables@before(allocator, managerSize, classSize * n, err.ErrNone?, kept);
    SecondIsRefused@before(allocator, first, filler, managerSize, classSize * n, err.ErrNone?, kept);
  }

  /** The last class, and no class before it, holds the largest item. */
  ghost predicate Covers(c: Classes, itemMax: nat)
  {
    c.len >= 2 && c.Item(c.len - 2) < itemMax <= c.Item(c.len - 1)
  }

  method CountClasses(linear: bool, lo: nat, hi: nat) returns (n: nat)
    requires lo > 0 && hi / lo >= 2
    ensures Classes(linear, lo, n).Valid() && Covers(Classes(linear, lo, n), hi)
  {
    hide Pow2, Log2Up, IsPow2, UpDiv;
    AtLeastTwice(lo, hi);
    LastClass(linear, lo, hi);
    if !linear {
      var power := DivideUp(hi, lo);
      n := FastLog2(power, true);
    } else {
      n := DivideUp(hi - lo, LINEAR_FACTOR);
    }
    n := n + 1;
  }

  method SizeTable(c: Classes) returns (sizes: seq<nat>)
    ensures Tabled(c, sizes)
  {
    hide Classes.Item;
    ItemStart(c);
    var size := c.min;
    sizes := [];
    while |sizes| < c.len
      invariant |sizes| <= c.len && size == c.Item(|sizes|)
      invariant forall j :: 0 <= j < |sizes| ==> sizes[j] == c.Size(j)
    {
      ItemStep(c, |sizes|);
      sizes := sizes + [Alignment(size + CHUNK_SIZE)];
      size := if c.linear then size + LINEAR_FACTOR else size * POWER_FACTOR;
    }
  }

  lemma ItemStart(c: Classes)
    ensures c.Item(0) == c.min
  {
    assert Pow2(0) == 1;
  }

  lemma AtLeastTwice(x: nat, y: nat)
    requires x > 0 && y / x >= 2
    ensures y >= 2 * x
  {
    DivMod(y, x);
    MulLe(x, 2, y / x);
  }

  /** The class count is the least one whose last class reaches the largest item. */
  lemma LastClass(linear: bool, lo: nat, hi: nat)
    requires 0 < lo && 2 * lo <= hi
    ensures var c := Config(lo, LINEAR_FACTOR, 1, linear, 1, 0, 2);
      && c.Valid() && var n := AllocIndex(c, hi);
      && n >= 1 && Classes(linear, lo, n + 1).Item(n - 1) < hi <= Classes(linear, lo, n + 1).Item(n)
  {
    AllocIndexBounds(Config(lo, LINEAR_FACTOR, 1, linear, 1, 0, 2), hi);
  }
}
