/** The circular doubly linked lists of src/fast_queue.h and the algorithms of src/fast_queue.c. */
module Queue {

  class Node {
    var prev: Node?
    var next: Node?
    constructor () { prev, next := null, null; }
  }

  /** Once around the list, from its head back to it. */
  ghost function Around(h: Node, s: seq<Node>): seq<Node>
  {
    [h] + s + [h]
  }

  ghost predicate Link(c: seq<Node>, i: int)
    requires 0 <= i < |c| - 1
    reads c
  {
    c[i].next == c[i + 1] && c[i + 1].prev == c[i]
  }

  /** The list with head `h` holds the nodes `s`; `next` and `prev` are inverse to each other. */
  ghost predicate Ring(h: Node, s: seq<Node>)
    reads [h] + s + [h]
  {
    && (forall i, j :: 0 <= i < j < |s| ==> s[i] != s[j]) && h !in s
    && var c := Around(h, s); forall i {:trigger Link(c, i)} :: 0 <= i <= |s| ==> Link(c, i)
  }

  /** queue_init */
  method Init(h: Node)
    modifies h
    ensures Ring(h, [])
  {
    h.prev := h;
    h.next := h;
  }

  /** queue_insert_head, behind the node at position `i` of the list: the head itself is
      position 0. */
  method InsertAfter(at: Node, x: Node, ghost h: Node, ghost s: seq<Node>, ghost i: nat)
    requires Ring(h, s) && i <= |s| && at == Around(h, s)[i] && x !in s && x != h
    modifies h, s, x
    ensures Ring(h, s[..i] + [x] + s[i..])
  {
    ghost var c := Around(h, s);
    assert Link(c, i);
    x.next := at.next;
    x.next.prev := x;
    x.prev := at;
    at.next := x;
    ghost var t := s[..i] + [x] + s[i..];
    ghost var d := Around(h, t);
    forall j | 0 <= j <= |t| ensures Link(d, j) {
      if j < i {
        assert old(Link(c, j));
      } else if j > i + 1 {
        assert old(Link(c, j - 1));
      }
    }
  }

  /** queue_remove, of the node at position `i` of `s`. */
  method Remove(x: Node, ghost h: Node, ghost s: seq<Node>, ghost i: nat)
    requires Ring(h, s) && i < |s| && x == s[i]
    modifies h, s
    ensures Ring(h, s[..i] + s[i + 1..]) && x.prev == null && x.next == null && x !in s[..i] + s[i + 1..]
  {
    ghost var c := Around(h, s);
    assert Link(c, i) && Link(c, i + 1);
    x.next.prev := x.prev;
    x.prev.next := x.next;
    x.prev, x.next := null, null;
    ghost var t := s[..i] + s[i + 1..];
    ghost var d := Around(h, t);
    forall j | 0 <= j <= |t| ensures Link(d, j) {
      if j < i {
        assert old(Link(c, j));
      } else if j > i {
        assert old(Link(c, j + 1));
      }
    }
  }

  /** queue_split: the nodes from `q` on move to the list with head `n`. */
  method Split(h: Node, q: Node, n: Node, ghost s: seq<Node>, ghost i: nat)
    requires Ring(h, s) && i < |s| && q == s[i] && n != h && n !in s
    modifies h, s, n
    ensures Ring(h, s[..i]) && Ring(n, s[i..])
  {
    ghost var c := Around(h, s);
    assert Link(c, i) && Link(c, |s|);
    n.prev := h.prev;
    n.prev.next := n;
    n.next := q;
    h.prev := q.prev;
    h.prev.next := h;
    q.prev := n;
    ghost var d, e := Around(h, s[..i]), Around(n, s[i..]);
    forall j | 0 <= j <= i ensures Link(d, j) {
      if j < i { assert old(Link(c, j)); }
    }
    forall j | 0 <= j <= |s[i..]| ensures Link(e, j) {
      if 0 < j < |s[i..]| { assert old(Link(c, i + j)); }
    }
  }

  /** queue_add_queue: the nodes of the list with head `n` go to the end of the list with head `h`. */
  method AddQueue(h: Node, n: Node, ghost s: seq<Node>, ghost t: seq<Node>)
    requires Ring(h, s) && Ring(n, t) && n != h && n !in s && h !in t && forall x :: x in s ==> x !in t
    modifies h, s, n, t
    ensures Ring(h, s + t)
  {
    ghost var c, d := Around(h, s), Around(n, t);
    assert Link(c, |s|) && Link(d, 0) && Link(d, |t|);
    h.prev.next := n.next;
    n.next.prev := h.prev;
    h.prev := n.prev;
    h.prev.next := h;
    ghost var e := Around(h, s + t);
    forall i, j | 0 <= i < j < |s + t| ensures (s + t)[i] != (s + t)[j] {
      assert i < |s| <= j ==> s[i] in s && t[j - |s|] in t;
    }
    forall j | 0 <= j <= |s + t| ensures Link(e, j) {
      if j < |s| {
        assert old(Link(c, j));
      } else if |s| < j < |s + t| {
        assert old(Link(d, j - |s|));
      }
    }
  }

  lemma LinkAt(h: Node, s: seq<Node>, i: nat)
    requires Ring(h, s) && i <= |s|
    ensures h !in s
    ensures var c := Around(h, s); c[i].next == c[i + 1] && c[i + 1].prev == c[i]
  {
    assert Link(Around(h, s), i);
  }

  /** queue_middle: the node at position n / 2, or the head of an empty list. */
  method Middle(h: Node, ghost s: seq<Node>) returns (middle: Node)
    requires Ring(h, s)
    ensures middle == if s == [] then h else s[|s| / 2]
  {
    LinkAt(h, s, 0);
    LinkAt(h, s, |s|);
    middle := h.next;
    if middle == h.prev {
      return;
    }
    var next := h.next;
    ghost var i := 0;
    while true
      invariant 0 <= 2 * i < |s| - 1 && middle == s[i] && next == s[2 * i]
      decreases |s| - i
    {
      LinkAt(h, s, i + 1);
      LinkAt(h, s, 2 * i + 1);
      middle := middle.next;
      next := next.next;
      if next == h.prev {
        return;
      }
      LinkAt(h, s, 2 * i + 2);
      next := next.next;
      i := i + 1;
      if next == h.prev {
        return;
      }
    }
  }

  // ---------- stable sorting ----------

  type Compare = (Node, Node) -> int

  /** `cmp` orders any two nodes, and the order is transitive. */
  ghost predicate Orders(cmp: Compare, d: set<Node>)
  {
    && (forall x, y :: x in d && y in d ==> cmp(x, y) <= 0 || cmp(y, x) <= 0)
    && (forall x, y, z :: x in d && y in d && z in d && cmp(x, y) <= 0 && cmp(y, z) <= 0 ==> cmp(x, z) <= 0)
  }

  ghost predicate From(s: seq<Node>, d: set<Node>)
  {
    forall i :: 0 <= i < |s| ==> s[i] in d
  }

  lemma OrdersAny(cmp: Compare, d: set<Node>, x: Node, y: Node, z: Node)
    requires Orders(cmp, d) && x in d && y in d && z in d
    ensures cmp(x, y) <= 0 || cmp(y, x) <= 0
    ensures cmp(x, y) <= 0 && cmp(y, z) <= 0 ==> cmp(x, z) <= 0
  {
  }

  /** The position behind the last node of `s` that is not above `x`. */
  function Place(cmp: Compare, s: seq<Node>, x: Node): (i: nat)
    ensures i <= |s|
  {
    if s == [] || cmp(s[|s| - 1], x) <= 0 then |s| else Place(cmp, s[..|s| - 1], x)
  }

  function Insert(cmp: Compare, s: seq<Node>, x: Node): seq<Node>
  {
    var i := Place(cmp, s, x);
    s[..i] + [x] + s[i..]
  }

  function Sorted(cmp: Compare, s: seq<Node>): seq<Node>
  {
    if s == [] then [] else Insert(cmp, Sorted(cmp, s[..|s| - 1]), s[|s| - 1])
  }

  lemma InsertSame(cmp: Compare, s: seq<Node>, x: Node)
    ensures multiset(Insert(cmp, s, x)) == multiset(s) + multiset{x} && |Insert(cmp, s, x)| == |s| + 1
    ensures forall y {:trigger y in Insert(cmp, s, x)} :: y in Insert(cmp, s, x) <==> y in s || y == x
  {
    var i := Place(cmp, s, x);
    hide Place;
    assert s == s[..i] + s[i..];
  }

  /** Sorting keeps the nodes. */
  lemma {:induction false} SortedSame(cmp: Compare, s: seq<Node>)
    ensures multiset(Sorted(cmp, s)) == multiset(s) && |Sorted(cmp, s)| == |s|
    ensures forall x {:trigger x in Sorted(cmp, s)} :: x in Sorted(cmp, s) <==> x in s
  {
    hide Insert;
    if s != [] {
      var p, x := s[..|s| - 1], s[|s| - 1];
      SortedSame(cmp, p);
      InsertSame(cmp, Sorted(cmp, p), x);
      assert s == p + [x];
    }
  }

  lemma SortedStep(cmp: Compare, s: seq<Node>, k: nat)
    requires k < |s|
    ensures Sorted(cmp, s[..k + 1]) == Insert(cmp, Sorted(cmp, s[..k]), s[k])
  {
    assert s[..k + 1][..k] == s[..k];
  }

  /** The iteration of queue_sort for the first node of `b`, behind the sorted nodes `a`. */
  method InsertNext(h: Node, q: Node, cmp: Compare, ghost a: seq<Node>, ghost b: seq<Node>, ghost all: set<Node>) returns (next: Node)
    requires Ring(h, a + b) && a != [] && b != [] && q == b[0] && From(a + b, all)
    modifies h, all
    ensures Ring(h, Insert(cmp, a, q) + b[1..]) && next == Around(h, b[1..])[1]
  {
    hide Ring, Place;
    ghost var k, t := |a|, a + b[1..];
    LinkAt(h, a + b, k);
    LinkAt(h, a + b, k + 1);
    InRing(h, a + b, k + 1);
    var prev := q.prev;
    next := q.next;
    assert (a + b)[..k] + (a + b)[k + 1..] == t;
    Remove(q, h, a + b, k);
    ghost var p;
    prev, p := FindPlace(h, prev, q, cmp, a, b[1..]);
    assert t[..p] + [q] + t[p..] == Insert(cmp, a, q) + b[1..];
    InsertAfter(prev, q, h, t, p);
  }

  /** Walks back from the last node of `a` to the one behind which `q` belongs. */
  method FindPlace(h: Node, last: Node, q: Node, cmp: Compare, ghost a: seq<Node>, ghost b: seq<Node>)
    returns (prev: Node, ghost p: nat)
    requires Ring(h, a + b) && a != [] && last == a[|a| - 1]
    ensures p == Place(cmp, a, q) && prev == Around(h, a + b)[p]
  {
    hide Ring;
    prev, p := last, |a|;
    assert a[..p] == a;
    while true
      invariant 1 <= p <= |a| && prev == a[p - 1] && Place(cmp, a, q) == Place(cmp, a[..p], q)
      decreases p
    {
      if cmp(prev, q) <= 0 {
        return;
      }
      LinkAt(h, a + b, p - 1);
      InRing(h, a + b, p - 1);
      prev := prev.prev;
      assert a[..p][..p - 1] == a[..p - 1];
      p := p - 1;
      if prev == h {
        return;
      }
    }
  }

  /** Only position 0 of the list is its head, and the end behind the last node. */
  lemma InRing(h: Node, s: seq<Node>, i: nat)
    requires h !in s && i <= |s| + 1
    ensures Around(h, s)[i] == h <==> i == 0 || i == |s| + 1
  {
    if 0 < i <= |s| {
      assert Around(h, s)[i] == s[i - 1] && s[i - 1] in s;
    }
  }

  /** queue_sort: the nodes of the list in the stable sorted order. */
  method Sort(h: Node, cmp: Compare, ghost s: seq<Node>)
    requires Ring(h, s)
    modifies h, s
    ensures Ring(h, Sorted(cmp, s))
  {
    hide Ring, Insert, Sorted;
    LinkAt(h, s, 0);
    LinkAt(h, s, |s|);
    var q := h.next;
    if q == h.prev {
      Short(h, cmp, s);
      return;
    }
    LinkAt(h, s, 1);
    q := q.next;
    ghost var k, all := 1, set x | x in s;
    OneSorted(cmp, s);
    while q != h
      invariant 1 <= k <= |s| && Ring(h, Sorted(cmp, s[..k]) + s[k..]) && q == Around(h, s)[k + 1]
      decreases |s| - k
    {
      SortedSame(cmp, s[..k]);
      SortedStep(cmp, s, k);
      InRing(h, s, k + 1);
      assert From(s, all) && From(s[..k], all) && From(s[k..], all);
      SortedFrom(cmp, s[..k], all);
      q := InsertNext(h, q, cmp, Sorted(cmp, s[..k]), s[k..], all);
      assert s[k..][1..] == s[k + 1..];
      k := k + 1;
    }
    InRing(h, s, k + 1);
    assert s[..k] == s && Sorted(cmp, s) + s[k..] == Sorted(cmp, s);
  }

  lemma OneSorted(cmp: Compare, s: seq<Node>)
    requires s != []
    ensures Sorted(cmp, s[..1]) + s[1..] == s
  {
    SortedStep(cmp, s, 0);
    assert Sorted(cmp, s[..0]) == [];
  }

  lemma Short(h: Node, cmp: Compare, s: seq<Node>)
    requires Ring(h, s) && Around(h, s)[1] == Around(h, s)[|s|]
    ensures Sorted(cmp, s) == s
  {
    if |s| == 1 {
      OneSorted(cmp, s);
      assert s[..1] == s && s[1..] == [];
    }
  }

  ghost predicate InOrder(cmp: Compare, s: seq<Node>)
  {
    forall i, j :: 0 <= i < j < |s| ==> cmp(s[i], s[j]) <= 0
  }

  /** The nodes of `s` that `cmp` does not tell from `x`, in their order. */
  function Ties(cmp: Compare, s: seq<Node>, x: Node): seq<Node>
  {
    if s == [] then []
    else
      var t, y := Ties(cmp, s[..|s| - 1], x), s[|s| - 1];
      if cmp(x, y) <= 0 && cmp(y, x) <= 0 then t + [y] else t
  }

  lemma {:induction false} PlaceSplits(cmp: Compare, s: seq<Node>, x: Node)
    ensures var i := Place(cmp, s, x);
      && (i > 0 ==> cmp(s[i - 1], x) <= 0)
      && (forall j :: i <= j < |s| ==> cmp(s[j], x) > 0)
  {
    if s != [] && cmp(s[|s| - 1], x) > 0 {
      PlaceSplits(cmp, s[..|s| - 1], x);
    }
  }

  lemma InsertKeepsOrder(cmp: Compare, s: seq<Node>, x: Node, d: set<Node>)
    requires InOrder(cmp, s) && Orders(cmp, d) && From(s, d) && x in d
    ensures InOrder(cmp, Insert(cmp, s, x))
  {
    PlaceSplits(cmp, s, x);
    hide Place, Orders;
    var i, r := Place(cmp, s, x), Insert(cmp, s, x);
    forall j, k | 0 <= j < k < |r| ensures cmp(r[j], r[k]) <= 0 {
      if k == i {
        OrdersAny(cmp, d, s[j], s[i - 1], x);
      } else if j == i {
        OrdersAny(cmp, d, x, s[k - 1], x);
      } else {
        assert r[j] == s[if j < i then j else j - 1] && r[k] == s[if k < i then k else k - 1];
      }
    }
  }

  lemma SortedFrom(cmp: Compare, s: seq<Node>, d: set<Node>)
    requires From(s, d)
    ensures From(Sorted(cmp, s), d)
  {
    hide Sorted;
    SortedSame(cmp, s);
    forall i | 0 <= i < |s| ensures Sorted(cmp, s)[i] in d {
      var x := Sorted(cmp, s)[i];
      assert x in multiset(Sorted(cmp, s)) && x in multiset(s);
      assert x in s;
    }
  }

  /** For a total preorder the result is sorted. */
  lemma {:induction false} SortedIsInOrder(cmp: Compare, s: seq<Node>, d: set<Node>)
    requires Orders(cmp, d) && From(s, d)
    ensures InOrder(cmp, Sorted(cmp, s))
  {
    hide Insert, Orders;
    if s != [] {
      var p, x := s[..|s| - 1], s[|s| - 1];
      SortedIsInOrder(cmp, p, d);
      SortedFrom(cmp, p, d);
      InsertKeepsOrder(cmp, Sorted(cmp, p), x, d);
    }
  }

  lemma {:induction false} TiesConcat(cmp: Compare, s: seq<Node>, t: seq<Node>, x: Node)
    ensures Ties(cmp, s + t, x) == Ties(cmp, s, x) + Ties(cmp, t, x)
  {
    if t == [] {
      assert s + t == s;
    } else {
      assert (s + t)[..|s + t| - 1] == s + t[..|t| - 1];
      TiesConcat(cmp, s, t[..|t| - 1], x);
    }
  }

  lemma {:induction false} NoTies(cmp: Compare, s: seq<Node>, x: Node)
    requires forall y :: y in s ==> !(cmp(x, y) <= 0 && cmp(y, x) <= 0)
    ensures Ties(cmp, s, x) == []
  {
    if s != [] { NoTies(cmp, s[..|s| - 1], x); }
  }

  /** A node can move behind nodes none of which is a tie, and any node that is none itself. */
  lemma TiesMove(cmp: Compare, p: seq<Node>, q: seq<Node>, x: Node, v: Node)
    requires Ties(cmp, q, v) == [] || Ties(cmp, [x], v) == []
    ensures Ties(cmp, p + [x] + q, v) == Ties(cmp, p + q + [x], v)
  {
    hide Ties;
    TiesConcat(cmp, p, [x], v);
    TiesConcat(cmp, p + [x], q, v);
    TiesConcat(cmp, p, q, v);
    TiesConcat(cmp, p + q, [x], v);
  }

  /** An insertion puts the node behind all of its ties. */
  lemma InsertTies(cmp: Compare, s: seq<Node>, x: Node, v: Node, d: set<Node>)
    requires Orders(cmp, d) && From(s, d) && x in d && v in d
    ensures Ties(cmp, Insert(cmp, s, x), v) == Ties(cmp, s + [x], v)
  {
    PlaceSplits(cmp, s, x);
    hide Place, Ties, Orders;
    var i := Place(cmp, s, x);
    var q := s[i..];
    assert s == s[..i] + q;
    if cmp(v, x) <= 0 && cmp(x, v) <= 0 {
      AboveIsNoTie(cmp, q, x, v, d);
    } else {
      assert forall y :: y in [x] ==> y == x;
      NoTies(cmp, [x], v);
    }
    TiesMove(cmp, s[..i], q, x, v);
  }

  lemma AboveIsNoTie(cmp: Compare, q: seq<Node>, x: Node, v: Node, d: set<Node>)
    requires Orders(cmp, d) && From(q, d) && x in d && v in d && cmp(v, x) <= 0
    requires forall j :: 0 <= j < |q| ==> cmp(q[j], x) > 0
    ensures Ties(cmp, q, v) == []
  {
    hide Orders;
    forall y | y in q ensures !(cmp(v, y) <= 0 && cmp(y, v) <= 0) {
      OrdersAny(cmp, d, y, v, x);
    }
    NoTies(cmp, q, v);
  }

  /** The sort is stable: nodes that compare equal keep their order. */
  lemma {:induction false} SortIsStable(cmp: Compare, s: seq<Node>, v: Node, d: set<Node>)
    requires Orders(cmp, d) && From(s, d) && v in d
    ensures Ties(cmp, Sorted(cmp, s), v) == Ties(cmp, s, v)
  {
    hide Insert, Orders;
    if s != [] {
      var p, x := s[..|s| - 1], s[|s| - 1];
      SortIsStable(cmp, p, v, d);
      SortedFrom(cmp, p, d);
      var t := Sorted(cmp, p);
      InsertTies(cmp, t, x, v, d);
      TiesConcat(cmp, t, [x], v);
      TiesConcat(cmp, p, [x], v);
      assert p + [x] == s;
    }
  }
}
