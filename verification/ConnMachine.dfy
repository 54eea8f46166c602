/** The connection pools of src/fast_conn_pool.c as a transition system: any number of pools,
    each used by its own thread, share a common list behind a lock.  A step is either local to a
    pool or one locked section, so that a thread can be stopped between the lock and the update
    of its own counters. */
module ConnMachine {

  /** Where the thread of a pool is. */
  datatype Pc<T> =
    | Idle
    | Took(chain: seq<T>)  // has taken a chain from the common list and not yet counted it
    | Giving(conn: T)      // has given a connection up and not yet listed it
    | Gave                 // has listed it and not yet counted it

  /** A pool: `change` is its debt towards the common list, `held` the connections in use. */
  datatype Pool<T> = Pool(size: nat, change: int, free: seq<T>, used: int, held: set<T>, pc: Pc<T>)

  /** All pools, the common list, and the connections handed from one thread to another. */
  datatype System<T> = System(pools: seq<Pool<T>>, common: seq<T>, moving: set<T>)

  datatype Step<T> =
    | Pop(i: nat)                // get: the own free list is not empty
    | Take(i: nat)               // get: the locked section of get_comm_conn
    | Refill(i: nat)             // get: the chain becomes the own free list
    | Push(i: nat, conn: T)      // free: back to the own free list
    | GiveUp(i: nat, conn: T)    // free: the pool owes the common list a connection
    | Put(i: nat)                // free: the locked section of put_comm_conn
    | Settle(i: nat)             // free: the debt is counted
    | Out(i: nat, conns: set<T>) // conn_pool_out for connections that another thread will use
    | In(i: nat, conns: set<T>)  // conn_pool_in on the thread that received them

  function Front<T>(s: seq<T>, n: nat): seq<T> { if n >= |s| then s else s[..n] }

  function Back<T>(s: seq<T>, n: nat): seq<T> { if n >= |s| then [] else s[n..] }

  // ---------- the steps of one pool ----------

  /** Out of the own free list, at out_conn. */
  function Popped<T>(p: Pool<T>): Pool<T>
    requires p.free != []
  {
    p.(free := p.free[1..], used := p.used + 1, held := p.held + {p.free[0]})
  }

  function Refilled<T>(p: Pool<T>, chain: seq<T>): Pool<T>
  {
    p.(free := chain, change := p.change + |chain|, pc := Idle)
  }

  function Pushed<T>(p: Pool<T>, c: T): Pool<T>
  {
    p.(free := [c] + p.free, used := p.used - 1, held := p.held - {c})
  }

  function GivenUp<T>(p: Pool<T>, c: T): Pool<T>
  {
    p.(used := p.used - 1, held := p.held - {c}, pc := Giving(c))
  }

  function Settled<T>(p: Pool<T>): Pool<T>
  {
    p.(change := p.change - 1, pc := Idle)
  }

  function Lent<T>(p: Pool<T>, conns: set<T>): Pool<T>
  {
    p.(change := p.change - |conns|, used := p.used - |conns|, held := p.held - conns)
  }

  function Received<T>(p: Pool<T>, conns: set<T>): Pool<T>
  {
    p.(change := p.change + |conns|, used := p.used + |conns|, held := p.held + conns)
  }

  // ---------- the steps of the system ----------

  ghost predicate Enabled<T>(s: System<T>, step: Step<T>)
  {
    && step.i < |s.pools|
    && var p := s.pools[step.i];
    match step
    case Pop(_) => p.pc.Idle? && p.free != []
    case Take(_) => p.pc.Idle? && p.free == [] && p.change < 0 && s.common != []
    case Refill(_) => p.pc.Took?
    case Push(_, c) => p.pc.Idle? && c in p.held && p.change <= 0
    case GiveUp(_, c) => p.pc.Idle? && c in p.held && p.change > 0
    case Put(_) => p.pc.Giving?
    case Settle(_) => p.pc.Gave?
    case Out(_, conns) => p.pc.Idle? && conns <= p.held
    case In(_, conns) => p.pc.Idle? && conns <= s.moving
  }

  ghost function Apply<T>(s: System<T>, step: Step<T>): System<T>
    requires Enabled(s, step)
  {
    var i := step.i;
    var p := s.pools[i];
    match step
    case Pop(_) => s.(pools := s.pools[i := Popped(p)])
    case Take(_) =>
      s.(pools := s.pools[i := p.(pc := Took(Front(s.common, -p.change)))], common := Back(s.common, -p.change))
    case Refill(_) => s.(pools := s.pools[i := Refilled(p, p.pc.chain)])
    case Push(_, c) => s.(pools := s.pools[i := Pushed(p, c)])
    case GiveUp(_, c) => s.(pools := s.pools[i := GivenUp(p, c)])
    case Put(_) => s.(pools := s.pools[i := p.(pc := Gave)], common := [p.pc.conn] + s.common)
    case Settle(_) => s.(pools := s.pools[i := Settled(p)])
    case Out(_, conns) => s.(pools := s.pools[i := Lent(p, conns)], moving := s.moving + conns)
    case In(_, conns) => s.(pools := s.pools[i := Received(p, conns)], moving := s.moving - conns)
  }

  /** `steps` can be taken one after the other. */
  ghost predicate Possible<T>(s: System<T>, steps: seq<Step<T>>)
    decreases |steps|
  {
    steps == [] || (Enabled(s, steps[0]) && Possible(Apply(s, steps[0]), steps[1..]))
  }

  ghost function Run<T>(s: System<T>, steps: seq<Step<T>>): System<T>
    requires Possible(s, steps)
    decreases |steps|
  {
    if steps == [] then s else Run(Apply(s, steps[0]), steps[1..])
  }

  // ---------- the invariant ----------

  /** Connections that the pool has given up but not yet counted against its debt. */
  function Uncounted<T>(p: Pool<T>): nat
  {
    if p.pc.Giving? || p.pc.Gave? then 1 else 0
  }

  ghost predicate PoolInv<T>(p: Pool<T>)
  {
    && |p.free| + p.used - p.change + Uncounted(p) == p.size
    && p.used == |p.held|
    && (p.pc.Took? ==> p.free == [] && 0 < |p.pc.chain| <= -p.change)
    && (p.pc.Giving? || p.pc.Gave? ==> p.change > 0)
  }

  /** What the common list owes the pool, or the pool the common list, once its pending step is counted. */
  function Balance<T>(p: Pool<T>): int
  {
    p.change + (match p.pc case Took(chain) => |chain| case Gave => -1 case _ => 0)
  }

  function Balances<T>(pools: seq<Pool<T>>): int
  {
    if pools == [] then 0 else Balance(pools[0]) + Balances(pools[1..])
  }

  /** The connections a pool has, wherever they are. */
  function Places<T>(p: Pool<T>): multiset<T>
  {
    multiset(p.free) + multiset(p.held) + (match p.pc case Took(chain) => multiset(chain) case Giving(c) => multiset{c} case _ => multiset{})
  }

  function AllPlaces<T>(pools: seq<Pool<T>>): multiset<T>
  {
    if pools == [] then multiset{} else Places(pools[0]) + AllPlaces(pools[1..])
  }

  function Everything<T>(s: System<T>): multiset<T>
  {
    AllPlaces(s.pools) + multiset(s.common) + multiset(s.moving)
  }

  /** `all` holds every connection; each of them is in exactly one place. */
  ghost predicate Inv<T>(s: System<T>, all: set<T>)
  {
    && (forall i :: 0 <= i < |s.pools| ==> PoolInv(s.pools[i]))
    && Balances(s.pools) + |s.common| + |s.moving| == 0
    && Everything(s) == multiset(all)
  }

  // ---------- sums over the pools ----------

  lemma {:induction false} BalancesUpdate<T>(pools: seq<Pool<T>>, i: nat, p: Pool<T>)
    requires i < |pools|
    ensures Balances(pools[i := p]) == Balances(pools) - Balance(pools[i]) + Balance(p)
  {
    if i > 0 {
      BalancesUpdate(pools[1..], i - 1, p);
      assert pools[i := p][1..] == pools[1..][i - 1 := p];
    } else {
      assert pools[i := p][1..] == pools[1..];
    }
  }

  lemma {:induction false} PlacesUpdate<T>(pools: seq<Pool<T>>, i: nat, p: Pool<T>)
    requires i < |pools|
    ensures AllPlaces(pools[i := p]) + Places(pools[i]) == AllPlaces(pools) + Places(p)
  {
    hide Places;
    if i > 0 {
      PlacesUpdate(pools[1..], i - 1, p);
      assert pools[i := p][1..] == pools[1..][i - 1 := p];
    } else {
      assert pools[i := p][1..] == pools[1..];
    }
    var rest, rest' := AllPlaces(pools[1..]), AllPlaces(pools[i := p][1..]);
    var first, first' := Places(pools[0]), Places(pools[i := p][0]);
    assert AllPlaces(pools) == first + rest && AllPlaces(pools[i := p]) == first' + rest';
    if i > 0 {
      assert (first + rest') + Places(pools[i]) == first + (rest' + Places(pools[i]));
      assert (first + rest) + Places(p) == first + (rest + Places(p));
    } else {
      assert (first' + rest) + first == (first + rest) + first';
    }
  }

  lemma {:induction false} PlacesWithin<T>(pools: seq<Pool<T>>, i: nat)
    requires i < |pools|
    ensures Places(pools[i]) <= AllPlaces(pools)
  {
    hide Places;
    if i > 0 {
      PlacesWithin(pools[1..], i - 1);
    }
  }

  lemma FrontBack<T>(s: seq<T>, n: nat)
    ensures Front(s, n) + Back(s, n) == s && |Front(s, n)| == if n < |s| then n else |s|
    ensures multiset(Front(s, n)) + multiset(Back(s, n)) == multiset(s)
  {
    assert s == Front(s, n) + Back(s, n);
  }

  // ---------- preservation ----------

  /** A connection of pool `i` is nowhere else. */
  lemma Alone<T>(s: System<T>, all: set<T>, i: nat, c: T)
    requires Everything(s) == multiset(all) && i < |s.pools| && c in Places(s.pools[i])
    ensures Places(s.pools[i])[c] == 1 && c !in s.moving
  {
    hide Places;
    PlacesWithin(s.pools, i);
    assert Everything(s)[c] <= 1;
    assert Everything(s)[c] == AllPlaces(s.pools)[c] + multiset(s.common)[c] + multiset(s.moving)[c];
  }

  /** The pool that takes step `step`, after it. */
  ghost function After<T>(s: System<T>, step: Step<T>): Pool<T>
    requires Enabled(s, step)
  {
    Apply(s, step).pools[step.i]
  }

  /** A step changes only its own pool, and the common list and the moving connections with it. */
  lemma ChangesOne<T>(s: System<T>, step: Step<T>)
    requires Enabled(s, step)
    ensures |Apply(s, step).pools| == |s.pools| && Apply(s, step).pools == s.pools[step.i := After(s, step)]
  {
  }

  lemma StepPool<T>(s: System<T>, step: Step<T>, all: set<T>)
    requires Inv(s, all) && Enabled(s, step)
    ensures PoolInv(After(s, step))
  {
    hide Everything, Balances, Places, Inv;
    PoolOf(s, all, step.i);
    var p := s.pools[step.i];
    match step
    case Pop(i) =>
      HeadIsNew(s, all, i);
    case Take(i) =>
      FrontBack(s.common, -p.change);
    case In(i, conns) =>
      MovingIsNew(s, all, i, conns);
      assert |p.held + conns| == |p.held| + |conns|;
    case Out(i, conns) =>
      assert |p.held - conns| == |p.held| - |conns|;
    case _ =>
  }

  lemma PoolOf<T>(s: System<T>, all: set<T>, i: nat)
    requires Inv(s, all) && i < |s.pools|
    ensures PoolInv(s.pools[i])
  {
  }

  lemma HeadIsNew<T>(s: System<T>, all: set<T>, i: nat)
    requires Inv(s, all) && i < |s.pools| && s.pools[i].free != []
    ensures s.pools[i].free[0] !in s.pools[i].held
  {
    var p := s.pools[i];
    var c := p.free[0];
    assert c in multiset(p.free);
    Alone(s, all, i, c);
    assert Places(p)[c] >= multiset(p.free)[c] + multiset(p.held)[c];
  }

  lemma MovingIsNew<T>(s: System<T>, all: set<T>, i: nat, conns: set<T>)
    requires Inv(s, all) && i < |s.pools| && conns <= s.moving
    ensures conns !! s.pools[i].held
  {
    var p := s.pools[i];
    forall c | c in conns ensures c !in p.held {
      if c in p.held {
        assert c in multiset(p.held);
        Alone(s, all, i, c);
      }
    }
  }

  lemma StepBalance<T>(s: System<T>, step: Step<T>, all: set<T>)
    requires Inv(s, all) && Enabled(s, step)
    ensures var t := Apply(s, step); Balances(t.pools) + |t.common| + |t.moving| == 0
  {
    hide Everything, Places, Balances, PoolInv, Inv;
    BalanceOf(s, all);
    var p := s.pools[step.i];
    ChangesOne(s, step);
    BalancesUpdate(s.pools, step.i, After(s, step));
    match step
    case Take(i) =>
      FrontBack(s.common, -p.change);
    case Out(i, conns) =>
      OutIsNew(s, all, i, conns);
    case In(i, conns) =>
      assert |s.moving - conns| == |s.moving| - |conns|;
    case _ =>
  }

  lemma BalanceOf<T>(s: System<T>, all: set<T>)
    requires Inv(s, all)
    ensures Balances(s.pools) + |s.common| + |s.moving| == 0
  {
  }

  lemma OutIsNew<T>(s: System<T>, all: set<T>, i: nat, conns: set<T>)
    requires Inv(s, all) && i < |s.pools| && conns <= s.pools[i].held
    ensures conns !! s.moving && |s.moving + conns| == |s.moving| + |conns|
  {
    MovingIsNew(s, all, i, conns * s.moving);
    assert conns * s.moving == {};
  }

  lemma HeldWithout<T>(held: set<T>, c: T)
    requires c in held
    ensures multiset(held) == multiset(held - {c}) + multiset{c}
  {
  }

  lemma HeldWith<T>(held: set<T>, c: T)
    requires c !in held
    ensures multiset(held + {c}) == multiset(held) + multiset{c}
  {
    HeldWithout(held + {c}, c);
    assert held + {c} - {c} == held;
  }

  lemma PopMoves<T>(p: Pool<T>)
    requires p.pc.Idle? && p.free != [] && p.free[0] !in p.held
    ensures Places(Popped(p)) == Places(p)
  {
    HeldWith(p.held, p.free[0]);
    assert p.free == [p.free[0]] + p.free[1..];
    assert multiset(p.free) == multiset{p.free[0]} + multiset(p.free[1..]);
  }

  lemma PushMoves<T>(p: Pool<T>, c: T)
    requires p.pc.Idle? && c in p.held
    ensures Places(Pushed(p, c)) == Places(p) && Places(GivenUp(p, c)) == Places(p)
  {
    HeldWithout(p.held, c);
    assert multiset([c] + p.free) == multiset{c} + multiset(p.free);
  }

  /** A step inside a pool keeps what the pool has. */
  lemma LocalMoves<T>(s: System<T>, step: Step<T>, all: set<T>)
    requires Inv(s, all) && Enabled(s, step)
    requires step.Pop? || step.Refill? || step.Push? || step.GiveUp? || step.Settle?
    ensures Places(After(s, step)) == Places(s.pools[step.i])
    ensures Apply(s, step).common == s.common && Apply(s, step).moving == s.moving
  {
    hide Everything, Balances, Inv;
    var p := s.pools[step.i];
    PoolOf(s, all, step.i);
    match step
    case Pop(i) =>
      hide Places;
      HeadIsNew(s, all, i);
      PopMoves(p);
    case Push(i, c) =>
      hide Places;
      PushMoves(p, c);
    case GiveUp(i, c) =>
      hide Places;
      PushMoves(p, c);
    case _ =>
  }

  /** A step takes out of one place what it puts into another. */
  lemma StepMoves<T>(s: System<T>, step: Step<T>, all: set<T>)
    requires Inv(s, all) && Enabled(s, step)
    ensures var p, q, t := s.pools[step.i], After(s, step), Apply(s, step);
      Places(q) + multiset(t.common) + multiset(t.moving) == Places(p) + multiset(s.common) + multiset(s.moving)
  {
    hide Everything, Balances, PoolInv, Inv;
    var p := s.pools[step.i];
    match step
    case Take(i) =>
      FrontBack(s.common, -p.change);
    case Put(i) =>
    case In(i, conns) =>
      MovingIsNew(s, all, i, conns);
      assert multiset(s.moving) == multiset(conns) + multiset(s.moving - conns);
    case Out(i, conns) =>
      OutIsNew(s, all, i, conns);
      assert multiset(p.held) == multiset(conns) + multiset(p.held - conns);
    case _ =>
      hide Places;
      LocalMoves(s, step, all);
  }

  lemma StepPlaces<T>(s: System<T>, step: Step<T>, all: set<T>)
    requires Inv(s, all) && Enabled(s, step)
    ensures Everything(Apply(s, step)) == Everything(s)
  {
    hide Places, Balances, PoolInv, Inv;
    var p, q, t := s.pools[step.i], After(s, step), Apply(s, step);
    ChangesOne(s, step);
    PlacesUpdate(s.pools, step.i, q);
    StepMoves(s, step, all);
    var here, there := multiset(s.common) + multiset(s.moving), multiset(t.common) + multiset(t.moving);
    assert Places(q) + there == Places(q) + multiset(t.common) + multiset(t.moving);
    assert Places(p) + here == Places(p) + multiset(s.common) + multiset(s.moving);
    Regroup(AllPlaces(s.pools), AllPlaces(t.pools), Places(p), Places(q), here, there);
    assert Everything(t) == AllPlaces(t.pools) + there;
    assert Everything(s) == AllPlaces(s.pools) + here;
  }

  lemma Regroup<T>(a: multiset<T>, a': multiset<T>, p: multiset<T>, q: multiset<T>, h: multiset<T>, h': multiset<T>)
    requires a' + p == a + q && q + h' == p + h
    ensures a' + h' == a + h
  {
    assert (a' + h') + (p + q) == (a' + p) + (q + h');
    assert (a + h) + (p + q) == (a + q) + (p + h);
    assert (a' + h') + (p + q) - (p + q) == a' + h';
    assert (a + h) + (p + q) - (p + q) == a + h;
  }

  lemma StepKeeps<T>(s: System<T>, step: Step<T>, all: set<T>)
    requires Inv(s, all) && Enabled(s, step)
    ensures Inv(Apply(s, step), all)
  {
    hide Everything, Places, Balances, PoolInv, Enabled;
    ChangesOne(s, step);
    StepPool(s, step, all);
    StepBalance(s, step, all);
    StepPlaces(s, step, all);
  }

  /** Every run keeps the invariant. */
  lemma {:induction false} RunKeeps<T>(s: System<T>, steps: seq<Step<T>>, all: set<T>)
    requires Inv(s, all) && Possible(s, steps)
    ensures Inv(Run(s, steps), all)
    decreases |steps|
  {
    hide Inv;
    if steps != [] {
      StepKeeps(s, steps[0], all);
      RunKeeps(Apply(s, steps[0]), steps[1..], all);
    }
  }

  /** Pools as conn_pool_init leaves them, zeroed before; no connection is in two pools. */
  ghost predicate Initial<T>(s: System<T>, all: set<T>)
  {
    && s.common == [] && s.moving == {} && AllPlaces(s.pools) == multiset(all)
    && (forall i :: 0 <= i < |s.pools| ==>
          var p := s.pools[i]; p.size == |p.free| && p.change == 0 && p.used == 0 && p.held == {} && p.pc == Idle)
  }

  lemma InitialInv<T>(s: System<T>, all: set<T>)
    requires Initial(s, all)
    ensures Inv(s, all)
  {
    hide Places, AllPlaces, Balances;
    NoBalance(s.pools);
    assert Everything(s) == AllPlaces(s.pools);
  }

  lemma {:induction false} NoBalance<T>(pools: seq<Pool<T>>)
    requires forall i :: 0 <= i < |pools| ==> pools[i].change == 0 && pools[i].pc == Idle
    ensures Balances(pools) == 0
  {
    if pools != [] { NoBalance(pools[1..]); }
  }

  /** Every run from the start keeps the books: per pool, over all pools, and no connection is
      lost, doubled or shared. */
  lemma RunFromStart<T>(s: System<T>, steps: seq<Step<T>>, all: set<T>)
    requires Initial(s, all) && Possible(s, steps)
    ensures Inv(Run(s, steps), all)
  {
    InitialInv(s, all);
    RunKeeps(s, steps, all);
  }

  /** No two threads ever use one connection. */
  lemma NeverShared<T>(s: System<T>, all: set<T>, i: nat, j: nat)
    requires Inv(s, all) && i < j < |s.pools|
    ensures s.pools[i].held !! s.pools[j].held
  {
    hide Balances, PoolInv, Places;
    PlacesOfTwo(s.pools, i, j);
    forall c | c in s.pools[i].held ensures c !in s.pools[j].held {
      HeldIsPlace(s.pools[i], c);
      HeldIsPlace(s.pools[j], c);
      assert Everything(s)[c] <= 1;
      assert (Places(s.pools[i]) + Places(s.pools[j]))[c] <= AllPlaces(s.pools)[c] <= Everything(s)[c];
    }
  }

  lemma HeldIsPlace<T>(p: Pool<T>, c: T)
    ensures c in p.held ==> Places(p)[c] >= 1
  {
    assert c in p.held ==> multiset(p.held)[c] == 1;
  }

  lemma {:induction false} PlacesOfTwo<T>(pools: seq<Pool<T>>, i: nat, j: nat)
    requires i < j < |pools|
    ensures Places(pools[i]) + Places(pools[j]) <= AllPlaces(pools)
  {
    hide Places;
    if i > 0 {
      PlacesOfTwo(pools[1..], i - 1, j - 1);
    } else {
      PlacesWithin(pools[1..], j - 1);
    }
  }

  /** The locked section of a get and the update of the own counters after it. */
  ghost function Fetched<T>(s: System<T>, i: nat): System<T>
    requires Enabled(s, Take(i))
  {
    Apply(Apply(s, Take(i)), Refill(i))
  }

  /** What a pool in deficit gets from the common list: its whole deficit or the whole list. */
  lemma TakesWhatIsThere<T>(s: System<T>, i: nat)
    requires Enabled(s, Take(i))
    ensures var p, u := s.pools[i], Fetched(s, i);
      && Enabled(u, Pop(i))
      && u.pools[i].change == (if -p.change <= |s.common| then 0 else p.change + |s.common|)
      && |u.common| == |s.common| - |u.pools[i].free|
  {
    FrontBack(s.common, -s.pools[i].change);
  }

  /** When no pool owes the common list anything and nothing is on the way between threads, an
      empty pool in deficit gets all of it back with its next connection. */
  lemma Recovers<T>(s: System<T>, all: set<T>, i: nat)
    requires Inv(s, all) && i < |s.pools| && s.moving == {}
    requires forall k :: 0 <= k < |s.pools| ==> s.pools[k].change <= 0
    requires s.pools[i].pc.Idle? && s.pools[i].free == [] && s.pools[i].change < 0
    ensures Enabled(s, Take(i)) && Enabled(Fetched(s, i), Pop(i)) && Fetched(s, i).pools[i].change == 0
  {
    hide Everything, Balances;
    forall k | 0 <= k < |s.pools| ensures Balance(s.pools[k]) <= 0 {
      PoolOf(s, all, k);
    }
    BalancesBelow(s.pools, i);
    TakesWhatIsThere(s, i);
  }

  lemma {:induction false} BalancesBelow<T>(pools: seq<Pool<T>>, i: nat)
    requires i < |pools| && forall k :: 0 <= k < |pools| ==> Balance(pools[k]) <= 0
    ensures Balances(pools) <= Balance(pools[i])
  {
    hide Balance;
    if i > 0 {
      BalancesBelow(pools[1..], i - 1);
    } else {
      BalancesNegative(pools[1..]);
    }
  }

  lemma {:induction false} BalancesNegative<T>(pools: seq<Pool<T>>)
    requires forall k :: 0 <= k < |pools| ==> Balance(pools[k]) <= 0
    ensures Balances(pools) <= 0
  {
    hide Balance;
    if pools != [] { BalancesNegative(pools[1..]); }
  }
}
