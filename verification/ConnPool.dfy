/** The operations of src/fast_conn_pool.c on linked connections; each of them runs through
    steps of the transition system in ConnMachine. */
module ConnPool {
  import M = ConnMachine

  class Conn {
    var next: Conn?
    constructor () ensures next == null { next := null; }
  }

  /** The entry behind position `i`, if any. */
  ghost function After(s: seq<Conn>, i: int): Conn?
  {
    if 0 <= i + 1 < |s| then s[i + 1] else null
  }

  /** The list that starts at `head` holds the connections `s`, each once. */
  ghost predicate Linked(head: Conn?, s: seq<Conn>)
    reads s`next
  {
    && head == (if s == [] then null else s[0])
    && (forall i :: 0 <= i < |s| ==> s[i].next == After(s, i))
    && (forall i, j :: 0 <= i < j < |s| ==> s[i] != s[j])
  }

  lemma LinkedTail(s: seq<Conn>)
    requires s != [] && Linked(s[0], s)
    ensures Linked(s[0].next, s[1..]) && s[0] !in s[1..]
  {
    var t := s[1..];
    forall i | 0 <= i < |t| ensures t[i].next == After(t, i) {
      assert t[i] == s[i + 1] && s[i + 1].next == After(s, i + 1);
    }
  }

  lemma LinkedEnds(head: Conn?, s: seq<Conn>)
    requires Linked(head, s)
    ensures (head == null <==> s == []) && (s != [] ==> head == s[0])
    ensures Linked(null, [])
  {
  }

  lemma PartsApart(head: Conn?, s: seq<Conn>, n: nat)
    requires Linked(head, s)
    ensures forall x :: x in M.Front(s, n) ==> x !in M.Back(s, n)
  {
  }

  /** `c` in front of the list `s` that starts at its `next`. */
  lemma LinkedCons(c: Conn, s: seq<Conn>)
    requires Linked(c.next, s) && c !in s
    ensures Linked(c, [c] + s)
  {
    var t := [c] + s;
    forall i | 0 <= i < |t| ensures t[i].next == After(t, i) {
      if i > 0 {
        assert t[i] == s[i - 1] && s[i - 1].next == After(s, i - 1);
      }
    }
  }

  /** The two parts of a list, once the link between them is cut. */
  lemma LinkedCut(s: seq<Conn>, n: nat)
    requires 0 < n < |s| && s[n - 1].next == null
    requires forall i :: 0 <= i < |s| && i != n - 1 ==> s[i].next == After(s, i)
    requires forall i, j :: 0 <= i < j < |s| ==> s[i] != s[j]
    ensures Linked(s[0], s[..n]) && Linked(s[n], s[n..])
  {
    var t := s[n..];
    forall i | 0 <= i < |t| ensures t[i].next == After(t, i) {
      assert t[i] == s[n + i] && s[n + i].next == After(s, n + i);
    }
  }

  /** Storing null behind position n - 1 cuts a list in two. */
  twostate lemma CutAt(s: seq<Conn>, new n: nat)
    requires 0 < n < |s| && old(Linked(s[0], s)) && s[n - 1].next == null
    requires forall x :: x in s && x != s[n - 1] ==> x.next == old(x.next)
    ensures Linked(s[0], s[..n]) && Linked(s[n], s[n..]) && s[n - 1] !in s[n..]
  {
    LinkedCut(s, n);
  }

  class Pool {
    var size: nat
    var change: int
    var free: Conn?
    var freeCount: int
    var used: int
    ghost var list: seq<Conn>
    ghost var held: set<Conn>

    /** A zeroed structure. */
    constructor ()
      ensures Valid() && State() == M.Pool(0, 0, [], 0, {}, M.Idle)
    {
      size, change, free, freeCount, used, list, held := 0, 0, null, 0, 0, [], {};
    }

    ghost predicate Valid()
      reads this, list`next
    {
      Linked(free, list) && freeCount == |list|
    }

    ghost function State(): M.Pool<Conn>
      reads this
    {
      M.Pool(size, change, list, used, held, M.Idle)
    }

    /** conn_pool_init: a list of `n` new connections; `haveConns`, `haveReads` and `haveWrites`
        say whether the three arrays could be allocated. */
    method Init(n: nat, haveConns: bool, haveReads: bool, haveWrites: bool) returns (ok: bool)
      requires Valid()
      modifies this`size, this`free, this`freeCount, this`list
      ensures ok <==> n > 0 && haveConns && haveReads && haveWrites
      ensures ok ==> Valid() && (forall c :: c in list ==> fresh(c)) && |list| == n
      ensures ok ==> State() == M.Pool(n, old(change), list, old(used), old(held), M.Idle)
      ensures !ok ==> free == old(free) && list == old(list) && size == (if n == 0 then old(size) else if haveConns then 0 else n)
    {
      if n == 0 {
        return false;
      }
      size := n;
      if !haveConns {
        return false;
      }
      if !haveReads {
        Clear();
        return false;
      }
      if !haveWrites {
        Clear();
        return false;
      }
      var conns := NewConns(n);
      free := conns[0];
      freeCount := n;
      list := conns;
      ok := true;
    }

    /** conn_pool_free, which leaves the free list alone. */
    method Clear()
      modifies this`size, this`freeCount
      ensures size == 0 && freeCount == 0
    {
      size, freeCount := 0, 0;
    }

    /** Connections linked in the order of the array. */
    static method NewConns(n: nat) returns (conns: seq<Conn>)
      requires n > 0
      ensures |conns| == n && Linked(conns[0], conns) && forall c :: c in conns ==> fresh(c)
    {
      conns := [];
      while |conns| < n
        invariant |conns| <= n && (forall i :: 0 <= i < |conns| ==> fresh(conns[i]))
        invariant forall i, j :: 0 <= i < j < |conns| ==> conns[i] != conns[j]
      {
        var c := new Conn();
        conns := conns + [c];
      }
      var i := 0;
      while i < n
        invariant 0 <= i <= n && forall k :: 0 <= k < i ==> conns[k].next == After(conns, k)
      {
        if i == n - 1 {
          conns[i].next := null;
        } else {
          conns[i].next := conns[i + 1];
        }
        i := i + 1;
      }
    }

    /** put_comm_conn, on the common pool. */
    method PutCommon(c: Conn)
      requires Valid() && c !in list
      modifies this`free, this`freeCount, this`list, c`next
      ensures Valid() && list == [c] + old(list)
    {
      hide Linked;
      freeCount := freeCount + 1;
      c.next := free;
      LinkedCons(c, list);
      free := c;
      list := [c] + list;
    }

    /** get_comm_conn, on the common pool: at most `n` connections from the front. */
    method GetCommon(n: nat) returns (c: Conn?, num: int)
      requires Valid() && n > 0
      modifies this`free, this`freeCount, this`list, list`next
      ensures Valid() && list == M.Back(old(list), n)
      ensures Linked(c, M.Front(old(list), n)) && num == |M.Front(old(list), n)|
      ensures forall x :: x in list ==> x.next == old(x.next)
    {
      hide Linked;
      LinkedEnds(free, list);
      num := 0;
      if freeCount == 0 {
        return null, 0;
      }
      if n >= freeCount {
        c := free;
        num := freeCount;
        free := null;
        freeCount := 0;
        list := [];
        return;
      }
      var last, p := Walk(n);
      ghost var l := list;
      label before:
      last.next := null;
      CutAt@before(l, n);
      c := free;
      free := p;
      freeCount := freeCount - n;
      num := n;
      list := l[n..];
    }

    /** The connections at positions n - 1 and n. */
    method Walk(n: nat) returns (last: Conn, p: Conn)
      requires Valid() && 0 < n < |list|
      ensures last == list[n - 1] && p == list[n]
    {
      var q, i := free, n;
      last := free;
      while q != null && i > 0
        invariant 0 <= i <= n && q == list[n - i] && (i < n ==> last == list[n - i - 1])
      {
        last := q;
        assert q.next == After(list, n - i);
        q := q.next;
        i := i - 1;
      }
      p := q;
    }

    /** conn_pool_get_connection */
    method GetConnection(common: Pool) returns (c: Conn?)
      requires common != this && Valid() && common.Valid() && (forall x :: x in list ==> x !in common.list)
      modifies this`change, this`free, this`freeCount, this`used, this`list, this`held
      modifies common`free, common`freeCount, common`list, common.list`next
      ensures Valid() && common.Valid()
      ensures (State(), common.list) == Got(old(State()), old(common.list))
      ensures c == null <==> old(list) == [] && (old(change) >= 0 || old(common.list) == [])
      ensures c == null ==> State() == old(State()) && common.list == old(common.list)
      ensures c != null ==> c !in list && c !in common.list && held == old(held) + {c} && used == old(used) + 1 && size == old(size)
      ensures c != null && (forall x :: x in old(list) || x in old(common.list) ==> x !in old(held)) ==> c !in old(held)
      ensures old(list) != [] ==>
        c == old(list)[0] && list == old(list)[1..] && change == old(change) && common.list == old(common.list)
      ensures c != null && old(list) == [] ==>
        var n := if -old(change) < old(|common.list|) then -old(change) else old(|common.list|);
        && n > 0 && c == old(common.list)[0] && list == old(common.list)[1..n] && common.list == old(common.list)[n..]
        && change == old(change) + n
    {
      hide Linked;
      LinkedEnds(free, list);
      if free == null {
        if change >= 0 {
          return null;
        }
        var fetched := Fetch(common);
        if !fetched {
          return null;
        }
      }
      c := PopFree();
    }

    /** Makes a chain from the common list the own free list and counts it. */
    method Fetch(common: Pool) returns (ok: bool)
      requires common != this && Valid() && common.Valid() && list == [] && change < 0
      modifies this`change, this`free, this`freeCount, this`list
      modifies common`free, common`freeCount, common`list, common.list`next
      ensures Valid() && common.Valid() && (ok <==> old(common.list) != [])
      ensures !ok ==> State() == old(State()) && common.list == old(common.list)
      ensures ok ==> list != [] && State() == M.Refilled(old(State()), M.Front(old(common.list), -old(change)))
      ensures ok ==> common.list == M.Back(old(common.list), -old(change)) && forall x :: x in list ==> x !in common.list
    {
      hide Linked;
      PartsApart(common.free, common.list, -change);
      LinkedEnds(common.free, common.list);
      var c, num := common.GetCommon(-change);
      ghost var chain := M.Front(old(common.list), -change);
      LinkedEnds(c, chain);
      if c == null {
        return false;
      }
      list := chain;
      free := c;
      freeCount := freeCount + num;
      change := change + num;
      ok := true;
    }

    /** Takes the first connection of the own free list. */
    method PopFree() returns (c: Conn)
      requires Valid() && list != []
      modifies this`free, this`freeCount, this`used, this`list, this`held
      ensures Valid() && c == old(list)[0] && c !in list && State() == M.Popped(old(State()))
    {
      hide Linked;
      LinkedEnds(free, list);
      LinkedTail(list);
      c := free;
      free := c.next;
      freeCount := freeCount - 1;
      used := used + 1;
      list := list[1..];
      held := held + {c};
    }

    /** conn_pool_free_connection */
    method FreeConnection(common: Pool, c: Conn)
      requires common != this && Valid() && common.Valid() && (forall x :: x in list ==> x !in common.list)
      requires c in held && c !in list && c !in common.list
      modifies this`change, this`free, this`freeCount, this`used, this`list, this`held
      modifies common`free, common`freeCount, common`list, c`next
      ensures Valid() && common.Valid()
      ensures (State(), common.list) == Freed(old(State()), old(common.list), c)
      ensures held == old(held) - {c} && used == old(used) - 1 && size == old(size)
      ensures if old(change) > 0 then
                change == old(change) - 1 && common.list == [c] + old(common.list) && list == old(list)
              else change == old(change) && common.list == old(common.list) && list == [c] + old(list)
    {
      hide Linked;
      if change > 0 {
        used := used - 1;
        held := held - {c};
        common.PutCommon(c);
        change := change - 1;
        return;
      }
      c.next := free;
      LinkedCons(c, list);
      free := c;
      freeCount := freeCount + 1;
      used := used - 1;
      list := [c] + list;
      held := held - {c};
    }

    /** conn_pool_out, for the connections `conns` that another thread will use. */
    method TransferOut(n: nat, ghost conns: set<Conn>)
      requires Valid() && conns <= held && n == |conns|
      modifies this`change, this`used, this`held
      ensures Valid() && State() == M.Lent(old(State()), conns)
      ensures change == old(change) - n && used == old(used) - n && held == old(held) - conns && list == old(list)
    {
      change := change - n;
      used := used - n;
      held := held - conns;
    }

    /** conn_pool_in, for the connections `conns` that come from another thread. */
    method TransferIn(n: nat, ghost conns: set<Conn>)
      requires Valid() && n == |conns|
      modifies this`change, this`used, this`held
      ensures Valid() && State() == M.Received(old(State()), conns)
      ensures change == old(change) + n && used == old(used) + n && held == old(held) + conns && list == old(list)
    {
      change := change + n;
      used := used + n;
      held := held + conns;
    }
  }

  /** A pool and the common list after a get that nobody interrupts. */
  function Got<T>(p: M.Pool<T>, common: seq<T>): (M.Pool<T>, seq<T>)
    requires p.pc.Idle?
  {
    if p.free != [] then (M.Popped(p), common)
    else if p.change >= 0 || common == [] then (p, common)
    else (M.Popped(M.Refilled(p, M.Front(common, -p.change))), M.Back(common, -p.change))
  }

  function Freed<T>(p: M.Pool<T>, common: seq<T>, c: T): (M.Pool<T>, seq<T>)
  {
    if p.change > 0 then (M.Settled(M.GivenUp(p, c)), [c] + common) else (M.Pushed(p, c), common)
  }

  /** The steps of a get that succeeds. */
  function GetSteps<T>(p: M.Pool<T>, i: nat): seq<M.Step<T>>
  {
    if p.free != [] then [M.Pop(i)] else [M.Take(i), M.Refill(i), M.Pop(i)]
  }

  function FreeSteps<T>(p: M.Pool<T>, i: nat, c: T): seq<M.Step<T>>
  {
    if p.change > 0 then [M.GiveUp(i, c), M.Put(i), M.Settle(i)] else [M.Push(i, c)]
  }

  lemma RunOne<T>(s: M.System<T>, a: M.Step<T>)
    requires M.Enabled(s, a)
    ensures M.Possible(s, [a]) && M.Run(s, [a]) == M.Apply(s, a)
  {
    assert [a][1..] == [];
  }

  lemma RunCons<T>(s: M.System<T>, a: M.Step<T>, rest: seq<M.Step<T>>)
    requires M.Enabled(s, a) && M.Possible(M.Apply(s, a), rest)
    ensures M.Possible(s, [a] + rest) && M.Run(s, [a] + rest) == M.Run(M.Apply(s, a), rest)
  {
    assert ([a] + rest)[1..] == rest;
  }

  lemma RunThree<T>(s: M.System<T>, a: M.Step<T>, b: M.Step<T>, c: M.Step<T>)
    requires M.Enabled(s, a) && M.Enabled(M.Apply(s, a), b) && M.Enabled(M.Apply(M.Apply(s, a), b), c)
    ensures M.Possible(s, [a, b, c]) && M.Run(s, [a, b, c]) == M.Apply(M.Apply(M.Apply(s, a), b), c)
  {
    RunOne(M.Apply(M.Apply(s, a), b), c);
    RunCons(M.Apply(s, a), b, [c]);
    RunCons(s, a, [b] + [c]);
    assert [a] + ([b] + [c]) == [a, b, c];
  }

  /** An uninterrupted get is a run of the transition system. */
  lemma GetIsRun<T>(s: M.System<T>, i: nat)
    requires i < |s.pools| && s.pools[i].pc.Idle?
    requires s.pools[i].free != [] || (s.pools[i].change < 0 && s.common != [])
    ensures var steps, r := GetSteps(s.pools[i], i), Got(s.pools[i], s.common);
      M.Possible(s, steps) && M.Run(s, steps) == s.(pools := s.pools[i := r.0], common := r.1)
  {
    hide M.Run, M.Possible;
    if s.pools[i].free != [] {
      RunOne(s, M.Pop(i));
    } else {
      RunThree(s, M.Take(i), M.Refill(i), M.Pop(i));
    }
  }

  /** An uninterrupted free is a run of the transition system. */
  lemma FreeIsRun<T>(s: M.System<T>, i: nat, c: T)
    requires i < |s.pools| && s.pools[i].pc.Idle? && c in s.pools[i].held
    ensures var steps, r := FreeSteps(s.pools[i], i, c), Freed(s.pools[i], s.common, c);
      M.Possible(s, steps) && M.Run(s, steps) == s.(pools := s.pools[i := r.0], common := r.1)
  {
    hide M.Run, M.Possible;
    if s.pools[i].change > 0 {
      RunThree(s, M.GiveUp(i, c), M.Put(i), M.Settle(i));
    } else {
      RunOne(s, M.Push(i, c));
    }
  }

  /** Lending connections is a run of the transition system; they are in transfer then. */
  lemma OutIsRun<T>(s: M.System<T>, i: nat, conns: set<T>)
    requires i < |s.pools| && s.pools[i].pc.Idle? && conns <= s.pools[i].held
    ensures M.Possible(s, [M.Out(i, conns)])
    ensures M.Run(s, [M.Out(i, conns)]) == s.(pools := s.pools[i := M.Lent(s.pools[i], conns)], moving := s.moving + conns)
  {
    hide M.Run, M.Possible;
    RunOne(s, M.Out(i, conns));
  }

  /** And so is receiving connections that are in transfer. */
  lemma InIsRun<T>(s: M.System<T>, i: nat, conns: set<T>)
    requires i < |s.pools| && s.pools[i].pc.Idle? && conns <= s.moving
    ensures M.Possible(s, [M.In(i, conns)])
    ensures M.Run(s, [M.In(i, conns)]) == s.(pools := s.pools[i := M.Received(s.pools[i], conns)], moving := s.moving - conns)
  {
    hide M.Run, M.Possible;
    RunOne(s, M.In(i, conns));
  }

  /** Connections that one pool lends and another one receives change hands and nothing else; what
      the one owes the other is owed. */
  lemma TransferIsRun<T>(s: M.System<T>, all: set<T>, i: nat, j: nat, conns: set<T>)
    requires M.Inv(s, all) && i < |s.pools| && j < |s.pools| && i != j
    requires s.pools[i].pc.Idle? && s.pools[j].pc.Idle? && conns <= s.pools[i].held
    ensures var steps := [M.Out(i, conns), M.In(j, conns)];
      && M.Possible(s, steps)
      && M.Run(s, steps) == s.(pools := s.pools[i := M.Lent(s.pools[i], conns)][j := M.Received(s.pools[j], conns)])
      && M.Inv(M.Run(s, steps), all)
  {
    hide M.Run, M.Possible, M.Inv;
    var t := M.Apply(s, M.Out(i, conns));
    M.OutIsNew(s, all, i, conns);
    RunOne(t, M.In(j, conns));
    RunCons(s, M.Out(i, conns), [M.In(j, conns)]);
    assert [M.Out(i, conns)] + [M.In(j, conns)] == [M.Out(i, conns), M.In(j, conns)];
    assert s.moving + conns - conns == s.moving;
    M.RunKeeps(s, [M.Out(i, conns), M.In(j, conns)], all);
  }

  // ---------- the start ----------

  ghost function States(pools: seq<Pool>): (s: seq<M.Pool<Conn>>)
    reads pools
    ensures |s| == |pools| && forall i :: 0 <= i < |s| ==> s[i] == pools[i].State()
  {
    if pools == [] then [] else [pools[0].State()] + States(pools[1..])
  }

  function Sizes<T>(s: seq<M.Pool<T>>): (sizes: seq<nat>)
    ensures |sizes| == |s| && forall i :: 0 <= i < |s| ==> sizes[i] == s[i].size
  {
    if s == [] then [] else [s[0].size] + Sizes(s[1..])
  }

  lemma StatesCons(p: Pool, pools: seq<Pool>)
    ensures States([p] + pools) == [p.State()] + States(pools)
    ensures Sizes(States([p] + pools)) == [p.size] + Sizes(States(pools))
  {
  }

  /** A pool that conn_pool_init has just set up; nobody else has its connections. */
  method NewPool(n: nat) returns (p: Pool)
    requires n > 0
    ensures fresh(p) && p.Valid() && p.State() == M.Pool(n, 0, p.list, 0, {}, M.Idle) && |p.list| == n
    ensures forall c :: c in p.list ==> fresh(c)
    ensures forall i, j :: 0 <= i < j < |p.list| ==> p.list[i] != p.list[j]
  {
    p := new Pool();
    var ok := p.Init(n, true, true, true);
  }

  /** Pools that conn_pool_init has just set up, and the common pool of conn_pool_common_init,
      are a start of the transition system. */
  method Start(sizes: seq<nat>) returns (pools: seq<Pool>, common: Pool, ghost all: set<Conn>)
    requires forall i :: 0 <= i < |sizes| ==> sizes[i] > 0
    ensures common !in pools && common.Valid() && forall p :: p in pools ==> p.Valid()
    ensures Sizes(States(pools)) == sizes && M.Initial(M.System(States(pools), common.list, {}), all)
  {
    hide States, Sizes, M.Initial, Linked;
    common := new Pool();
    pools, all := [], {};
    StartsEmpty();
    assert sizes[|sizes|..] == [];
    var k := |sizes|;
    while k > 0
      invariant 0 <= k <= |sizes| && Sizes(States(pools)) == sizes[k..] && common !in pools && common.Valid() && common.list == []
      invariant forall p :: p in pools ==> p.Valid()
      invariant M.Initial(M.System(States(pools), [], {}), all)
    {
      k := k - 1;
      var p := NewPool(sizes[k]);
      ghost var more := set c | c in p.list;
      StartsMore(States(pools), all, p.State(), more);
      StatesCons(p, pools);
      assert sizes[k..] == [sizes[k]] + sizes[k + 1..];
      all := all + more;
      pools := [p] + pools;
    }
  }

  lemma StartsEmpty()
    ensures States([]) == [] && Sizes<Conn>([]) == [] && M.Initial<Conn>(M.System<Conn>.System([], [], {}), {})
  {
  }

  lemma StartsMore(states: seq<M.Pool<Conn>>, all: set<Conn>, p: M.Pool<Conn>, more: set<Conn>)
    requires M.Initial(M.System(states, [], {}), all) && p == M.Pool(|p.free|, 0, p.free, 0, {}, M.Idle)
    requires (forall i, j :: 0 <= i < j < |p.free| ==> p.free[i] != p.free[j]) && more == set c | c in p.free
    requires more !! all
    ensures M.Initial(M.System([p] + states, [], {}), all + more)
  {
    NoDoubles(p.free);
    assert ([p] + states)[1..] == states;
    assert multiset(all + more) == multiset(all) + multiset(more);
  }

  lemma {:induction false} NoDoubles<T>(s: seq<T>)
    requires forall i, j :: 0 <= i < j < |s| ==> s[i] != s[j]
    ensures multiset(s) == multiset(set c | c in s)
  {
    if s != [] {
      NoDoubles(s[1..]);
      assert s == [s[0]] + s[1..];
      assert (set c | c in s) == (set c | c in s[1..]) + {s[0]} && s[0] !in s[1..];
    }
  }
}
