/** The timers of src/fast_event_timer.c: a red-black tree of the deadline nodes embedded in
    events.  The clock is a parameter, and calling a handler is appending to `fired`. */
module EventTimer {
  import opened RbTree

  const INFINITE := -1
  const LAZY_DELAY := 300

  /** What a 64-bit difference becomes as a 32-bit `int` argument. */
  function Wrap32(x: int): (r: int)
    ensures -0x8000_0000 <= r < 0x8000_0000
    ensures (x - r) % 0x1_0000_0000 == 0
  {
    (x + 0x8000_0000) % 0x1_0000_0000 - 0x8000_0000
  }

  /** `abs` on a 32-bit `int`: the least value has no counterpart and stays. */
  function Abs32(x: int): int
  {
    if x == -0x8000_0000 || x >= 0 then x else -x
  }

  /** The test by which a timer that is set already keeps its old deadline. */
  predicate Lazy(diff: int)
  {
    Abs32(Wrap32(diff)) < LAZY_DELAY
  }

  /** A deadline that is kept is less than 300 ms away from the requested one exactly when
      their difference fits in 31 bits and a sign. */
  lemma LazyIsClose(diff: int)
    requires Lazy(diff)
    ensures -300 < diff < 300 <==> -0x8000_0000 < diff < 0x8000_0000
  {
    if -0x8000_0000 <= diff < 0x8000_0000 {
      assert Wrap32(diff) == diff;
    }
  }

  /** A close deadline is always kept. */
  lemma CloseIsLazy(diff: int)
    requires -300 < diff < 300
    ensures Lazy(diff)
  {
    assert Wrap32(diff) == diff;
  }

  /** A deadline 2^32 ms away is kept too. */
  lemma LazyCanBeFar()
    ensures Lazy(0x1_0000_0000)
  {
    assert Wrap32(0x1_0000_0000) == 0;
  }

  class Event {
    const timer: Node
    var timerSet: bool
    var timedout: bool

    constructor ()
      ensures !timerSet && !timedout && fresh(timer)
    {
      timer := new Node(0);
      timerSet, timedout := false, false;
    }
  }

  class EventTimer {
    const tree: Tree
    /** The events of the program; a node finds its event here, as the source finds the
        struct around the node by address arithmetic. */
    var events: set<Event>

    ghost predicate Valid()
      reads this, tree, tree.nodes, tree.sentinel, events
    {
      && tree.Valid()
      && (forall e :: e in events ==> e.timer != tree.sentinel)
      && (forall e, f :: e in events && f in events && e.timer == f.timer ==> e == f)
      && (forall n :: n in tree.nodes ==> exists e :: e in events && e.timer == n)
      && (forall e :: e in events ==> (e.timerSet <==> e.timer in tree.nodes))
    }

    constructor (events: set<Event>)
      requires forall e :: e in events ==> !e.timerSet
      requires forall e, f :: e in events && f in events && e.timer == f.timer ==> e == f
      ensures Valid() && this.events == events && tree.order == [] && fresh(tree) && fresh(tree.sentinel)
    {
      var s := new Node(0);
      var t := new Tree(s);
      tree := t;
      this.events := events;
    }

    /** How long until the first deadline. */
    ghost function Wait(now: int): (w: int)
      reads this, tree, tree.nodes, tree.sentinel, events, tree.order
      requires Valid()
      ensures w == INFINITE <==> tree.order == []
    {
      if tree.order == [] then INFINITE
      else if tree.order[0].key > now then tree.order[0].key - now else 0
    }

    method FindTimer(now: int) returns (wait: int)
      requires Valid()
      ensures wait == Wait(now)
      ensures if tree.order == [] then wait == -1 else
        && wait >= 0 && (wait > 0 ==> now + wait == tree.order[0].key) && (wait == 0 ==> tree.order[0].key <= now)
    {
      if tree.root == tree.sentinel {
        return INFINITE;
      }
      var node := tree.Min(tree.root);
      var timer := node.key - now;
      wait := if timer > 0 then timer else 0;
    }

    method Del(ev: Event)
      requires Valid() && ev in events
      modifies ev`timerSet, ev.timer`key, tree`root, tree`nodes, tree`order, tree.sentinel`parent, tree.sentinel`color,
               tree.nodes`left, tree.nodes`right, tree.nodes`parent, tree.nodes`color, tree.nodes`lo, tree.nodes`ix,
               tree.nodes`hi, tree.nodes`bh
      ensures Valid() && !ev.timerSet
      ensures tree.order == Without(old(tree.order), ev.timer)
      ensures tree.nodes == old(tree.nodes) - {ev.timer}
      ensures !old(ev.timerSet) ==> ev.timer.key == old(ev.timer.key)
    {
      if !ev.timerSet {
        AbsentWithout(tree.order, ev.timer);
        return;
      }
      PresentWithout(tree.order, ev.timer, ev.timer.ix);
      tree.Delete(ev.timer);
      ev.timerSet := false;
    }

    /** The node of `ev`, due at `key`, stands in `rest` behind every deadline that is not later. */
    ghost predicate Placed(ev: Event, rest: seq<Node>, key: int, k: int)
      reads tree, ev.timer, rest
    {
      && ev.timer.key == key
      && 0 <= k <= |rest| && tree.order == rest[..k] + [ev.timer] + rest[k..]
      && (forall i :: 0 <= i < k ==> rest[i].key <= key)
      && (forall i :: k <= i < |rest| ==> key < rest[i].key)
    }

    method Put(ev: Event, key: int) returns (ghost k: int)
      requires Valid() && ev in events && !ev.timerSet
      modifies ev`timerSet, ev.timer, tree`root, tree`nodes, tree`order,
               tree.nodes`left, tree.nodes`right, tree.nodes`parent, tree.nodes`color, tree.nodes`lo, tree.nodes`ix,
               tree.nodes`hi, tree.nodes`bh
      ensures Valid() && ev.timerSet
      ensures Placed(ev, old(tree.order), key, k)
    {
      hide Tree.Valid, Tree.Links, Tree.LinkAt;
      ev.timer.key := key;
      k := tree.Insert(ev.timer);
      ev.timerSet := true;
    }

    /** Sets a timer: one that is set already keeps its place when the two deadlines are
        close, else its node is put behind every deadline that is not later. */
    method Add(ev: Event, now: int, delay: int) returns (ghost k: int)
      requires Valid() && ev in events
      modifies ev`timerSet, ev.timer, tree`root, tree`nodes, tree`order, tree.sentinel`parent, tree.sentinel`color,
               tree.nodes`left, tree.nodes`right, tree.nodes`parent, tree.nodes`color, tree.nodes`lo, tree.nodes`ix,
               tree.nodes`hi, tree.nodes`bh
      ensures Valid() && ev.timerSet
      ensures if old(ev.timerSet) && Lazy(now + delay - old(ev.timer.key)) then
                tree.order == old(tree.order) && ev.timer.key == old(ev.timer.key)
              else Placed(ev, Without(old(tree.order), ev.timer), now + delay, k)
    {
      hide Tree.Valid, Tree.Links, Tree.LinkAt, Placed;
      var key := now + delay;
      if ev.timerSet {
        var diff := key - ev.timer.key;
        if Lazy(diff) {
          return 0;
        }
        Del(ev);
      } else {
        NotInOrder(ev);
        AbsentWithout(tree.order, ev.timer);
      }
      k := Put(ev, key);
    }

    /** One round of the expiry loop: the first timer leaves the tree. */
    method Fire() returns (ev: Event)
      requires Valid() && tree.root != tree.sentinel
      modifies events`timerSet, events`timedout, tree.nodes`key, tree`root, tree`nodes, tree`order, tree.sentinel`parent, tree.sentinel`color,
               tree.nodes`left, tree.nodes`right, tree.nodes`parent, tree.nodes`color, tree.nodes`lo, tree.nodes`ix,
               tree.nodes`hi, tree.nodes`bh
      ensures Valid() && old(tree.order) != [] && ev in events && ev.timer == old(tree.order)[0]
      ensures tree.order == old(tree.order)[1..] && tree.nodes == old(tree.nodes) - {ev.timer}
      ensures !ev.timerSet && ev.timedout
      ensures forall e :: e in events && e != ev ==> e.timerSet == old(e.timerSet) && e.timedout == old(e.timedout)
      ensures forall n :: n in tree.nodes ==> n.key == old(n.key)
    {
      hide Tree.Valid, Tree.Links, Tree.LinkAt;
      FirstIsMin();
      var node := tree.Min(tree.root);
      ev :| ev in events && ev.timer == node;
      tree.Delete(ev.timer);
      ev.timerSet := false;
      ev.timedout := true;
    }

    /** Fires the timers that are due, first deadline first.  A handler that leaves the timers
        alone is taken for its entry in `fired`. */
    method Expire(now: int) returns (fired: seq<Event>)
      requires Valid()
      modifies events`timerSet, events`timedout, tree.nodes`key, tree`root, tree`nodes, tree`order, tree.sentinel`parent, tree.sentinel`color,
               tree.nodes`left, tree.nodes`right, tree.nodes`parent, tree.nodes`color, tree.nodes`lo, tree.nodes`ix,
               tree.nodes`hi, tree.nodes`bh
      ensures Valid()
      ensures |fired| <= |old(tree.order)| && tree.order == old(tree.order)[|fired|..]
      ensures forall i :: 0 <= i < |fired| ==> fired[i] in events && fired[i].timer == old(tree.order)[i]
      ensures forall i :: 0 <= i < |old(tree.order)| ==> (i < |fired| <==> old(tree.order[i].key) <= now)
      ensures forall e :: e in fired ==> !e.timerSet && e.timedout
      ensures forall e :: e in events && e !in fired ==> e.timerSet == old(e.timerSet) && e.timedout == old(e.timedout)
      ensures forall n :: n in tree.nodes ==> n.key == old(n.key)
      ensures Wait(now) == INFINITE || Wait(now) > 0
    {
      hide Valid, Tree.Valid, Tree.Links, Tree.LinkAt, Tree.Indexed, Tree.Sorted;
      fired := [];
      ghost var was := tree.order;
      while tree.root != tree.sentinel
        invariant Valid()
        invariant |fired| <= |was| && tree.order == was[|fired|..]
        invariant tree.nodes <= old(tree.nodes)
        invariant forall i :: 0 <= i < |fired| ==> fired[i] in events && fired[i].timer == was[i] && old(was[i].key) <= now
        invariant forall e :: e in fired ==> !e.timerSet && e.timedout
        invariant forall e :: e in events && e !in fired ==> e.timerSet == old(e.timerSet) && e.timedout == old(e.timedout)
        invariant forall n :: n in tree.nodes ==> n.key == old(n.key)
        decreases |tree.order|
      {
        FirstIsMin();
        var node := tree.Min(tree.root);
        if node.key > now {
          assert tree.order[0].key > now;
          break;
        }
        var ev := Fire();
        fired := fired + [ev];
      }
      AllLater(now);
      forall i | 0 <= i < |was| ensures i < |fired| <==> old(was[i].key) <= now {
        if i >= |fired| {
          assert tree.order[i - |fired|] == was[i];
        }
      }
    }

    lemma AllLater(now: int)
      requires Valid() && (tree.root != tree.sentinel ==> tree.order != [] && tree.order[0] in tree.nodes && tree.order[0].key > now)
      ensures forall i :: 0 <= i < |tree.order| ==> tree.order[i] in tree.nodes && tree.order[i].key > now
    {
      hide Tree.LinkAt;
      assert tree.order == [] || tree.order[0].key > now;
    }

    lemma NotInOrder(ev: Event)
      requires Valid() && ev in events && !ev.timerSet
      ensures ev.timer !in tree.order
    {
    }

    lemma FirstIsMin()
      requires Valid() && tree.root != tree.sentinel
      ensures tree.Links() && tree.root in tree.nodes && tree.root.lo == 0 && tree.order != [] && tree.order[0] in tree.nodes
    {
      assert tree.LinkAt(tree.root);
    }
  }

  /** The sequence without the given node. */
  ghost function Without(s: seq<Node>, n: Node): seq<Node>
  {
    if s == [] then [] else (if s[0] == n then [] else [s[0]]) + Without(s[1..], n)
  }

  lemma {:induction false} AbsentWithout(s: seq<Node>, n: Node)
    requires n !in s
    ensures Without(s, n) == s
  {
    if s != [] {
      AbsentWithout(s[1..], n);
    }
  }

  lemma {:induction false} PresentWithout(s: seq<Node>, n: Node, i: int)
    requires 0 <= i < |s| && s[i] == n && forall j :: 0 <= j < |s| && s[j] == n ==> j == i
    ensures Without(s, n) == s[..i] + s[i + 1..]
  {
    if i == 0 {
      assert n !in s[1..];
      AbsentWithout(s[1..], n);
    } else {
      PresentWithout(s[1..], n, i - 1);
      assert s[..i] == [s[0]] + s[1..][..i - 1];
    }
  }
}
