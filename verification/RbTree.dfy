/** The red-black tree of src/fast_rbtree.c on nodes with left, right and parent pointers and one
    shared sentinel.

    `order` is the in-order sequence of the nodes.  Every node carries the index range of the
    subtree below it (`lo` up to `hi`), its own index `ix`, and the number `bh` of black nodes on
    the way down to the sentinel, so that each rule of the tree is a statement about one node and
    its neighbours.  The parent of the root is not constrained, and the parent of the sentinel is
    scratch space of the deletion. */
module RbTree {

  datatype Color = Red | Black

  class Node {
    var key: int
    var left: Node?
    var right: Node?
    var parent: Node?
    var color: Color
    ghost var lo: int
    ghost var ix: int
    ghost var hi: int
    ghost var bh: int

    constructor (key: int)
      ensures this.key == key
    {
      this.key := key;
      left, right, parent, color := null, null, null, Black;
    }
  }

  class Tree {
    var root: Node
    var sentinel: Node
    ghost var nodes: set<Node>
    ghost var order: seq<Node>

    constructor (s: Node)
      modifies s
      ensures Valid() && root == sentinel == s && nodes == {} && order == []
    {
      root, sentinel, nodes, order := s, s, {}, [];
      new;
      s.color := Black;
      s.bh, s.lo, s.hi := 0, 0, 0;
    }

    // ---------- the invariant, one rule at a time ----------

    /** `order` lists every node of the tree once, at the index the node records. */
    ghost predicate Indexed()
      reads this, nodes`ix
    {
      && (forall i :: 0 <= i < |order| ==> order[i] in nodes && order[i].ix == i)
      && (forall n :: n in nodes ==> 0 <= n.ix < |order| && order[n.ix] == n)
    }

    /** The links of one node: its children split its index range around it and point back
        to it, and unless it is the root it hangs below its parent. */
    ghost predicate LinkAt(n: Node)
      reads this, nodes`left, nodes`right, nodes`parent, nodes`lo, nodes`ix, nodes`hi
      requires n in nodes
    {
      && n.left != null && n.right != null
      && 0 <= n.lo <= n.ix < n.hi <= |order|
      && (if n.left == sentinel then n.lo == n.ix
          else n.left in nodes && n.left.parent == n && n.left.lo == n.lo && n.left.hi == n.ix)
      && (if n.right == sentinel then n.hi == n.ix + 1
          else n.right in nodes && n.right.parent == n && n.right.lo == n.ix + 1 && n.right.hi == n.hi)
      && HangsAt(n)
    }

    ghost predicate HangsAt(n: Node)
      reads this, nodes`left, nodes`right, nodes`parent
      requires n in nodes
    {
      n == root || (n.parent != null && n.parent in nodes && (n.parent.left == n || n.parent.right == n))
    }

    ghost predicate Links()
      reads this, nodes`left, nodes`right, nodes`parent, nodes`lo, nodes`ix, nodes`hi
    {
      && sentinel !in nodes
      && (if root == sentinel then order == []
          else root in nodes && root.lo == 0 && root.hi == |order|)
      && Indexed()
      && (forall n {:trigger LinkAt(n)} :: n in nodes ==> LinkAt(n))
    }

    ghost predicate IsRed(c: Node?)
      reads this`nodes, nodes`color
    {
      c != null && c in nodes && c.color == Red
    }

    /** The black nodes on every path from `c` to the sentinel, both ends included. */
    ghost function Blacks(c: Node?): int
      reads this`nodes, nodes`color, nodes`bh
    {
      if c != null && c in nodes then c.bh + (if c.color == Black then 1 else 0) else 1
    }

    /** A red node has no red child, except that a child may be `odd`. */
    ghost predicate RedAt(n: Node, odd: Node?)
      reads this`nodes, nodes`left, nodes`right, nodes`color
      requires n in nodes
    {
      n.color == Red ==> (IsRed(n.left) ==> n.left == odd) && (IsRed(n.right) ==> n.right == odd)
    }

    ghost predicate BhAt(n: Node)
      reads this`nodes, nodes`left, nodes`right, nodes`color, nodes`bh
      requires n in nodes
    {
      n.bh >= 1 && Blacks(n.left) == n.bh && Blacks(n.right) == n.bh
    }

    /** Everything but the order of the keys, while `odd` may be a red child of a red node. */
    ghost predicate InsertInv(odd: Node)
      reads this, nodes`left, nodes`right, nodes`parent, nodes`lo, nodes`ix, nodes`hi,
            nodes`color, nodes`bh, sentinel`color
    {
      && Links()
      && sentinel.color == Black
      && odd in nodes && odd.color == Red
      && (root == odd || !IsRed(root))
      && (forall n {:trigger BhAt(n)} :: n in nodes ==> BhAt(n))
      && (forall n {:trigger RedAt(n, odd)} :: n in nodes ==> RedAt(n, odd))
    }

    ghost predicate Sorted()
      reads this`order, this`nodes, nodes`key
      requires forall i :: 0 <= i < |order| ==> order[i] in nodes
    {
      forall i, j :: 0 <= i <= j < |order| ==> order[i].key <= order[j].key
    }

    /** A red-black tree: links, colours, equal black heights and sorted keys. */
    ghost predicate Valid()
      reads this, nodes, sentinel
    {
      && Links()
      && sentinel.color == Black && !IsRed(root)
      && (forall n {:trigger BhAt(n)} :: n in nodes ==> BhAt(n))
      && (forall n {:trigger RedAt(n, null)} :: n in nodes ==> RedAt(n, null))
      && Sorted()
    }

    // ---------- rotations ----------

    ghost function Above(n: Node): set<Node>
      reads this, n
    {
      if n == root || n.parent == null then {} else {n.parent}
    }

    /** Hangs `temp` where `node` hangs. */
    method Supplant(node: Node, temp: Node)
      requires node != root ==> node.parent != null
      modifies this`root, Above(node)`left, Above(node)`right
      ensures if old(root) == node then root == temp else
        && root == old(root)
        && old(node.parent).left == (if old(node.parent.left) == node then temp else old(node.parent.left))
        && old(node.parent).right == (if old(node.parent.left) == node then old(node.parent.right) else temp)
    {
      if node == root {
        root := temp;
      } else if node == node.parent.left {
        node.parent.left := temp;
      } else {
        node.parent.right := temp;
      }
    }

    /** What a rotation that lifts `y` over its parent `x` has written. */
    twostate predicate Rotated(x: Node, new y: Node)
      reads this, nodes`left, nodes`right, nodes`parent, nodes`lo, nodes`ix, nodes`hi
      reads x`left, x`right, x`parent, x`lo, x`hi, y`left, y`right, y`parent, y`lo, y`ix, y`hi
      requires x in old(nodes) && y in old(nodes)
    {
      && nodes == old(nodes) && order == old(order) && sentinel == old(sentinel)
      && x.parent == y
      && (if old(x.right) == y then
            && y.left == x && y.right == old(y.right) && x.left == old(x.left) && x.right == old(y.left)
            && x.lo == old(x.lo) && x.hi == y.ix && y.lo == old(x.lo) && y.hi == old(y.hi)
          else
            && y.right == x && y.left == old(y.left) && x.right == old(x.right) && x.left == old(y.right)
            && x.hi == old(x.hi) && x.lo == y.ix + 1 && y.hi == old(x.hi) && y.lo == old(y.lo))
      && (if old(root) == x then root == y else
          && root == old(root) && y.parent == old(x.parent) && y.parent != null && y.parent in nodes
          && y.parent.left == (if old(x.parent.left) == x then y else old(x.parent.left))
          && y.parent.right == (if old(x.parent.left) == x then old(x.parent.right) else y))
      && (forall n {:trigger n.left} :: n in nodes && n != x && n != y && (n != y.parent || old(root) == x) ==>
            n.left == old(n.left))
      && (forall n {:trigger n.right} :: n in nodes && n != x && n != y && (n != y.parent || old(root) == x) ==>
            n.right == old(n.right))
      && (forall n {:trigger n.parent} :: n in nodes && n != x && n != y ==>
          n.parent == (if n == (if old(x.right) == y then x.right else x.left) then x else old(n.parent)))
      && (forall n {:trigger n.lo} :: n in nodes && n != x && n != y ==> n.lo == old(n.lo))
      && (forall n {:trigger n.hi} :: n in nodes && n != x && n != y ==> n.hi == old(n.hi))
      && (forall n {:trigger n.ix} :: n in nodes ==> n.ix == old(n.ix))
    }

    twostate lemma LeftRotatedLinks(x: Node, new y: Node)
      requires old(Links()) && x in old(nodes) && y in old(nodes) && y == old(x.right)
      requires Rotated(x, y)
      ensures Links()
    {
      assert old(LinkAt(x)) && old(LinkAt(y));
      forall n {:trigger LinkAt(n)} | n in nodes
        ensures LinkAt(n)
      {
        hide Indexed;
        assert old(LinkAt(n));
      }
    }

    twostate lemma RightRotatedLinks(x: Node, new y: Node)
      requires old(Links()) && x in old(nodes) && y in old(nodes) && y == old(x.left)
      requires Rotated(x, y)
      ensures Links()
    {
      assert old(LinkAt(x)) && old(LinkAt(y));
      forall n {:trigger LinkAt(n)} | n in nodes
        ensures LinkAt(n)
      {
        hide Indexed;
        assert old(LinkAt(n));
      }
    }

    /** The nodes a rotation of `y` over its parent `x` writes are different ones. */
    lemma RotationSite(x: Node, y: Node)
      requires Links() && x in nodes && y in nodes && (y == x.left || y == x.right)
      ensures sentinel !in nodes && root in nodes && x != y && y.parent == x
      ensures x.left != null && x.right != null && y.left != null && y.right != null && x.left != x.right
      ensures var c := if x.right == y then y.left else y.right; c in nodes + {sentinel} && c != x && c != y
      ensures x != root ==>
        && x.parent != null && x.parent in nodes && x.parent.left != x.parent.right
        && (x.parent.left == x || x.parent.right == x)
        && x.parent != x && x.parent != y && x.parent != y.left && x.parent != y.right
    {
      assert LinkAt(x) && LinkAt(y);
      if x != root { assert LinkAt(x.parent); }
    }

    method LeftRotateWrites(node: Node)
      requires Links() && node in nodes && node.right in nodes
      modifies this`root, nodes`left, nodes`right, nodes`parent, nodes`lo, nodes`hi
      ensures Rotated(node, old(node.right))
    {
      hide Links, LinkAt, HangsAt, Indexed;
      var temp := node.right;
      RotationSite(node, temp);
      node.right := temp.left;
      if temp.left != sentinel {
        temp.left.parent := node;
      }
      temp.parent := node.parent;
      Supplant(node, temp);
      temp.left := node;
      node.parent := temp;
      node.hi, temp.lo := temp.ix, node.lo;
    }

    method RightRotateWrites(node: Node)
      requires Links() && node in nodes && node.left in nodes
      modifies this`root, nodes`left, nodes`right, nodes`parent, nodes`lo, nodes`hi
      ensures Rotated(node, old(node.left))
    {
      hide Links, LinkAt, HangsAt, Indexed;
      var temp := node.left;
      RotationSite(node, temp);
      node.left := temp.right;
      if temp.right != sentinel {
        temp.right.parent := node;
      }
      temp.parent := node.parent;
      Supplant(node, temp);
      temp.right := node;
      node.parent := temp;
      node.lo, temp.hi := temp.ix + 1, node.hi;
    }

    method LeftRotate(node: Node)
      requires Links() && node in nodes && node.right in nodes
      modifies this`root, nodes`left, nodes`right, nodes`parent, nodes`lo, nodes`hi
      ensures Rotated(node, old(node.right))
      ensures Links()
    {
      LeftRotateWrites(node);
      LeftRotatedLinks(node, old(node.right));
    }

    method RightRotate(node: Node)
      requires Links() && node in nodes && node.left in nodes
      modifies this`root, nodes`left, nodes`right, nodes`parent, nodes`lo, nodes`hi
      ensures Rotated(node, old(node.left))
      ensures Links()
    {
      assert LinkAt(node);
      RightRotateWrites(node);
      RightRotatedLinks(node, old(node.left));
    }

    // ---------- insertion ----------

    /** The uncle is red: parent and uncle turn black, the grandparent red. */
    twostate lemma InsertRecoloured(node: Node, new p: Node, new g: Node, new u: Node)
      requires old(InsertInv(node)) && node in old(nodes) && p in old(nodes) && g in old(nodes) && u in old(nodes)
      requires old(node != root && node.parent == p && p != root && p.parent == g)
      requires old(p.color == Red && u.color == Red && ((g.left == p && g.right == u) || (g.left == u && g.right == p)))
      requires nodes == old(nodes) && Links() && root == old(root) && sentinel == old(sentinel)
      requires sentinel.color == Black
      requires forall n {:trigger n.left} {:trigger n.right} :: n in nodes ==>
        n.left == old(n.left) && n.right == old(n.right)
      requires forall n {:trigger n.color} :: n in nodes ==>
        n.color == (if n == p || n == u then Black else if n == g then Red else old(n.color))
      requires forall n {:trigger n.bh} :: n in nodes ==> n.bh == (if n == g then old(n.bh) + 1 else old(n.bh))
      ensures InsertInv(g)
    {
      assert old(LinkAt(p)) && old(LinkAt(g)) && old(BhAt(g)) && old(RedAt(g, node)) && old(BhAt(p));
      forall n {:trigger BhAt(n)} | n in nodes ensures BhAt(n) {
        assert old(BhAt(n)) && old(LinkAt(n));
      }
      forall n {:trigger RedAt(n, g)} | n in nodes ensures RedAt(n, g) {
        assert old(RedAt(n, node)) && old(LinkAt(n));
      }
    }

    twostate lemma TurnedInnerBh(p: Node, new node: Node)
      requires node in old(nodes) && old(InsertInv(node)) && p in old(nodes)
      requires old(node != root && node.parent == p && p != root && p.color == Red)
      requires Rotated(p, node) && Links() && sentinel.color == Black
      requires forall n {:trigger n.color} {:trigger n.bh} :: n in nodes ==>
        n.color == old(n.color) && n.bh == old(n.bh)
      ensures forall n {:trigger BhAt(n)} :: n in nodes ==> BhAt(n)
    {
      hide Indexed;
      assert old(LinkAt(p)) && old(LinkAt(node)) && old(BhAt(p)) && old(BhAt(node)) && old(RedAt(node, node));
      hide RedAt;
      forall n {:trigger BhAt(n)} | n in nodes ensures BhAt(n) {
        assert old(BhAt(n)) && old(LinkAt(n));
      }
    }

    /** `node` is the inner grandchild: turning it over its parent makes the parent the odd one. */
    twostate lemma InsertTurnedInner(p: Node, new node: Node)
      requires node in old(nodes) && old(InsertInv(node)) && p in old(nodes)
      requires old(node != root && node.parent == p && p != root && p.color == Red)
      requires Rotated(p, node) && Links() && sentinel.color == Black
      requires forall n {:trigger n.color} {:trigger n.bh} :: n in nodes ==>
        n.color == old(n.color) && n.bh == old(n.bh)
      ensures InsertInv(p)
    {
      hide Indexed, BhAt, Blacks;
      TurnedInnerBh(p, node);
      assert old(LinkAt(p)) && old(LinkAt(node)) && old(RedAt(node, node)) && old(RedAt(p, node));
      assert old(LinkAt(p.parent)) && old(RedAt(p.parent, node));
      forall n {:trigger RedAt(n, p)} | n in nodes ensures RedAt(n, p) {
        assert old(RedAt(n, node)) && old(LinkAt(n));
      }
    }

    /** The last turn of an insertion: the red parent `p` is lifted over the grandparent `g`
        and they swap colours, after which no rule is broken. */
    twostate predicate TurnedOuter(g: Node, new p: Node, new node: Node)
      reads this, nodes, sentinel, g, p
      requires node in old(nodes) && p in old(nodes) && g in old(nodes)
    {
      && old(InsertInv(node))
      && old(node != root && node.parent == p && p != root && p.parent == g && p.color == Red)
      && old(if g.left == p then p.left == node && !IsRed(g.right) else p.right == node && !IsRed(g.left))
      && Rotated(g, p) && Links() && sentinel.color == Black
      && (forall n {:trigger n.color} :: n in nodes ==>
            n.color == (if n == p then Black else if n == g then Red else old(n.color)))
      && (forall n {:trigger n.bh} :: n in nodes ==> n.bh == old(n.bh))
    }

    twostate lemma TurnedOuterBh(g: Node, new p: Node, new node: Node)
      requires node in old(nodes) && p in old(nodes) && g in old(nodes) && TurnedOuter(g, p, node)
      ensures forall n {:trigger BhAt(n)} :: n in nodes ==> BhAt(n)
    {
      hide Indexed;
      assert old(LinkAt(p)) && old(LinkAt(g)) && old(BhAt(p)) && old(BhAt(g)) && old(RedAt(p, node))
        && old(RedAt(g, node));
      forall n {:trigger BhAt(n)} | n in nodes ensures BhAt(n) {
        assert old(BhAt(n)) && old(LinkAt(n));
      }
    }

    twostate lemma TurnedOuterRed(g: Node, new p: Node, new node: Node)
      requires node in old(nodes) && p in old(nodes) && g in old(nodes) && TurnedOuter(g, p, node)
      ensures forall n {:trigger RedAt(n, node)} :: n in nodes ==> RedAt(n, node)
      ensures root == p || !IsRed(root)
    {
      hide BhAt, Blacks, Indexed;
      assert old(LinkAt(p)) && old(LinkAt(g)) && old(RedAt(g, node)) && old(RedAt(p, node));
      assert old(g != root ==> RedAt(g.parent, node));
      forall n {:trigger RedAt(n, node)} | n in nodes ensures RedAt(n, node) {
        assert old(RedAt(n, node)) && old(LinkAt(n));
      }
    }

    /** The last turn of an insertion: the red parent `p` is lifted over the grandparent `g`
        and they swap colours, after which no rule is broken. */
    twostate lemma InsertTurnedOuter(g: Node, new p: Node, new node: Node)
      requires node in old(nodes) && p in old(nodes) && g in old(nodes) && TurnedOuter(g, p, node)
      ensures InsertInv(node) && node.parent == p && p.color == Black
    {
      assert old(LinkAt(p)) && old(LinkAt(g));
      TurnedOuterBh(g, p, node);
      TurnedOuterRed(g, p, node);
    }

    lemma InsertInvBasics(node: Node)
      requires InsertInv(node)
      ensures Links() && Indexed() && node in nodes && root in nodes && node.hi - node.lo <= |order|
      ensures sentinel !in nodes && sentinel.color == Black
      ensures node != root ==> node.parent != null && node.parent in nodes
    {
      assert LinkAt(node);
    }

    lemma InsertInvAt(node: Node)
      requires InsertInv(node) && node != root && node.parent != null && node.parent.color == Red
      ensures var p := node.parent;
        && p in nodes && p != root && p.parent != null && p.parent in nodes
        && (p.left == node || p.right == node) && p.left != p.right
        && (p.parent.left == p || p.parent.right == p)
        && p.parent.left != null && p.parent.right != null && p.parent.left != p.parent.right
        && node != p && p != p.parent && node != p.parent
        && node.hi - node.lo < p.hi - p.lo < p.parent.hi - p.parent.lo
        && (node == p.right ==> node in nodes)
        && p.left in nodes + {sentinel}
        && p.parent.left in nodes + {sentinel} && p.parent.right in nodes + {sentinel}
        && sentinel !in nodes && sentinel.color == Black
        && p.parent.left != p.parent && p.parent.right != p.parent
        && node in nodes && node.color == Red
      ensures Links()
    {
      assert LinkAt(node) && LinkAt(node.parent) && RedAt(node.parent, node) && LinkAt(node.parent.parent);
    }

    method InsertRecolour(node: Node, temp: Node) returns (next: Node)
      requires InsertInv(node) && node != root && node.parent != null && node.parent.color == Red
      requires temp in nodes && temp.color == Red && node.parent.parent != null
      requires var g := node.parent.parent;
        if g.left == node.parent then g.right == temp else g.left == temp && g.right == node.parent
      modifies nodes`color, nodes`bh
      ensures next == node.parent.parent && InsertInv(next)
      ensures old(node.hi - node.lo) < next.hi - next.lo
    {
      hide Links, LinkAt, Indexed, BhAt, RedAt, InsertInv, IsRed, Blacks;
      InsertInvAt(node);
      node.parent.color := Black;
      temp.color := Black;
      node.parent.parent.color := Red;
      next := node.parent.parent;
      next.bh := next.bh + 1;
      InsertRecoloured(node, node.parent, next, temp);
    }

    /** Swaps the colours of the red parent `p` and the grandparent `g`, and lifts `p` over `g`. */
    method LiftLeftParent(g: Node, p: Node)
      requires Links() && g in nodes && p in nodes && p == g.left
      modifies this`root, nodes`left, nodes`right, nodes`parent, nodes`color, nodes`lo, nodes`hi
      ensures Rotated(g, p) && Links()
      ensures forall n {:trigger n.color} :: n in nodes ==>
        n.color == (if n == p then Black else if n == g then Red else old(n.color))
    {
      hide Links, LinkAt, Indexed;
      RotationSite(g, p);
      p.color := Black;
      g.color := Red;
      RightRotate(g);
    }

    method InsertTurnLeft(node: Node) returns (last: Node)
      requires InsertInv(node) && node != root && node.parent != null && node.parent.color == Red
      requires node.parent.parent != null && node.parent == node.parent.parent.left && !IsRed(node.parent.parent.right)
      modifies this`root, nodes`left, nodes`right, nodes`parent, nodes`lo, nodes`hi, nodes`color
      ensures last in nodes && InsertInv(last) && last.parent in nodes && last.parent.color == Black
    {
      hide Links, LinkAt, Indexed, BhAt, RedAt, InsertInv, IsRed, Blacks;
      var node := node;
      InsertInvAt(node);
      if node == node.parent.right {
        node := node.parent;
        LeftRotate(node);
        InsertTurnedInner(node, old(node.right));
        InsertInvAt(node);
      }
      last := node;
      label L:
      var p, g := node.parent, node.parent.parent;
      LiftLeftParent(g, p);
      InsertTurnedOuter@L(g, p, node);
    }

    /** Swaps the colours of the red parent `p` and the grandparent `g`, and lifts `p` over `g`. */
    method LiftRightParent(g: Node, p: Node)
      requires Links() && g in nodes && p in nodes && p == g.right
      modifies this`root, nodes`left, nodes`right, nodes`parent, nodes`color, nodes`lo, nodes`hi
      ensures Rotated(g, p) && Links()
      ensures forall n {:trigger n.color} :: n in nodes ==>
        n.color == (if n == p then Black else if n == g then Red else old(n.color))
    {
      hide Links, LinkAt, Indexed;
      RotationSite(g, p);
      p.color := Black;
      g.color := Red;
      LeftRotate(g);
    }

    method InsertTurnRight(node: Node) returns (last: Node)
      requires InsertInv(node) && node != root && node.parent != null && node.parent.color == Red
      requires node.parent.parent != null && node.parent != node.parent.parent.left && !IsRed(node.parent.parent.left)
      modifies this`root, nodes`left, nodes`right, nodes`parent, nodes`lo, nodes`hi, nodes`color
      ensures last in nodes && InsertInv(last) && last.parent in nodes && last.parent.color == Black
    {
      hide Links, LinkAt, Indexed, BhAt, RedAt, InsertInv, IsRed, Blacks;
      var node := node;
      InsertInvAt(node);
      if node == node.parent.left {
        node := node.parent;
        RightRotate(node);
        InsertTurnedInner(node, old(node.left));
        InsertInvAt(node);
      }
      last := node;
      label L:
      var p, g := node.parent, node.parent.parent;
      LiftRightParent(g, p);
      InsertTurnedOuter@L(g, p, node);
    }

    /** Position `k` of the order is where `key` belongs: behind every key that is not greater. */
    static ghost predicate Splits(order: seq<Node>, k: int, key: int)
      reads order`key
    {
      && 0 <= k <= |order|
      && (forall i :: 0 <= i < k ==> order[i].key <= key)
      && (forall i :: k <= i < |order| ==> key < order[i].key)
    }

    /** The place of `key` in the order. */
    ghost function Place(key: int): (k: int)
      reads this, nodes`key
      requires (forall i :: 0 <= i < |order| ==> order[i] in nodes) && Sorted()
      ensures Splits(order, k, key)
    {
      PlaceFrom(key, 0)
    }

    ghost function PlaceFrom(key: int, from: int): (k: int)
      reads this, nodes`key
      requires (forall i :: 0 <= i < |order| ==> order[i] in nodes) && Sorted()
      requires 0 <= from <= |order| && forall i :: 0 <= i < from ==> order[i].key <= key
      ensures Splits(order, k, key)
      decreases |order| - from
    {
      if from == |order| || key < order[from].key then from else PlaceFrom(key, from + 1)
    }

    /** The free child slot at position `k` of the order is the left or the right one of `temp`. */
    ghost predicate FreeSlot(temp: Node, k: int)
      reads this, nodes`left, nodes`right, nodes`lo, nodes`ix, nodes`hi
      requires Indexed()
    {
      && temp in nodes && 0 <= k <= |order| && temp.lo <= k <= temp.hi
      && (k < temp.hi || k == |order| || order[k].left != sentinel)
      && (k - 1 >= temp.lo || k == 0 || order[k - 1].right != sentinel)
      && (if k <= temp.ix then temp.left == sentinel else temp.right == sentinel)
    }

    /** The descent of an insertion, from the root to the node that gets the new child. */
    method FindSlot(key: int) returns (temp: Node, ghost k: int)
      requires Links() && Sorted() && root != sentinel
      ensures Splits(order, k, key) && FreeSlot(temp, k)
      ensures temp in nodes && 0 <= k <= |order|
      ensures key < temp.key <==> k <= temp.ix
    {
      k := Place(key);
      temp := root;
      while true
        invariant temp in nodes && temp.lo <= k <= temp.hi
        invariant k < temp.hi || k == |order| || order[k].left != sentinel
        invariant k - 1 >= temp.lo || k == 0 || order[k - 1].right != sentinel
        decreases temp.hi - temp.lo
      {
        assert LinkAt(temp) && order[temp.ix] == temp;
        var p := if key < temp.key then temp.left else temp.right;
        if p == sentinel {
          break;
        }
        temp := p;
      }
      assert LinkAt(temp) && order[temp.ix] == temp;
    }

    /** The pointer and colour part of hanging `node` below `temp`, among the nodes `all`. */
    twostate predicate Hung(new node: Node, new temp: Node, goLeft: bool, all: set<Node>)
      reads this`sentinel, node`left, node`right, node`parent, node`color, all`left, all`right, all`parent, all`color
    {
      && node.left == sentinel && node.right == sentinel && node.parent == temp && node.color == Red
      && (forall n {:trigger n.left} :: n in all ==> n.left == (if n == temp && goLeft then node else old(n.left)))
      && (forall n {:trigger n.right} :: n in all ==> n.right == (if n == temp && !goLeft then node else old(n.right)))
      && (forall n {:trigger n.parent} :: n in all ==> n.parent == old(n.parent))
      && (forall n {:trigger n.color} :: n in all ==> n.color == old(n.color))
    }

    /** The indices and spans after room was made in the order at position `k`. */
    twostate predicate Opened(k: int, all: set<Node>)
      reads all`lo, all`ix, all`hi
    {
      && (forall n {:trigger n.lo} :: n in all ==> n.lo == (if old(n.lo) > k then old(n.lo) + 1 else old(n.lo)))
      && (forall n {:trigger n.ix} :: n in all ==> n.ix == (if old(n.ix) >= k then old(n.ix) + 1 else old(n.ix)))
      && (forall n {:trigger n.hi} :: n in all ==> n.hi == (if old(n.hi) >= k then old(n.hi) + 1 else old(n.hi)))
    }

    /** What hanging the red node `node` into the slot of `temp` at position `k` has written. */
    twostate predicate Attached(new node: Node, new temp: Node, k: int)
      reads this, nodes, node
      requires temp in old(nodes) && old(Links()) && old(FreeSlot(temp, k))
    {
      && node !in old(nodes) && node != sentinel
      && nodes == old(nodes) + {node} && sentinel == old(sentinel) && root == old(root)
      && order == old(order[..k]) + [node] + old(order[k..])
      && node.lo == k && node.ix == k && node.hi == k + 1 && node.bh == 1
      && Hung(node, temp, k <= old(temp.ix), old(nodes))
      && Opened(k, old(nodes))
      && (forall n {:trigger n.bh} :: n in old(nodes) ==> n.bh == old(n.bh))
    }

    twostate lemma AttachedIndexed(new node: Node, new temp: Node, k: int)
      requires temp in old(nodes) && old(Links()) && old(FreeSlot(temp, k)) && Attached(node, temp, k)
      ensures Indexed()
    {
      hide LinkAt;
      forall i | 0 <= i < |order| ensures order[i] in nodes && order[i].ix == i {
        assert order[i] == if i < k then old(order)[i] else if i == k then node else old(order)[i - 1];
      }
    }

    twostate lemma AttachedLinkAt(new node: Node, new temp: Node, k: int, new n: Node)
      requires temp in old(nodes) && old(Links()) && old(FreeSlot(temp, k)) && Attached(node, temp, k)
      requires n in old(nodes)
      ensures LinkAt(n)
    {
      assert old(LinkAt(temp)) && old(LinkAt(n));
    }

    twostate lemma AttachedLinks(new node: Node, new temp: Node, k: int)
      requires temp in old(nodes) && old(Links()) && old(FreeSlot(temp, k)) && Attached(node, temp, k)
      ensures Links()
    {
      AttachedIndexed(node, temp, k);
      hide Indexed;
      assert LinkAt(node) by { assert old(LinkAt(temp)); }
      assert old(LinkAt(root));
      forall n {:trigger LinkAt(n)} | n in nodes ensures LinkAt(n) {
        if n != node { AttachedLinkAt(node, temp, k, n); }
      }
    }

    twostate lemma AttachedBh(new node: Node, new temp: Node, k: int)
      requires temp in old(nodes) && old(Valid()) && old(FreeSlot(temp, k)) && Attached(node, temp, k)
      requires old(root != sentinel) && sentinel.color == Black
      ensures forall n {:trigger BhAt(n)} :: n in nodes ==> BhAt(n)
    {
      hide Indexed, RedAt, Sorted;
      assert old(LinkAt(temp));
      forall n {:trigger BhAt(n)} | n in nodes ensures BhAt(n) {
        assert n != node ==> old(BhAt(n)) && old(LinkAt(n));
      }
    }

    twostate lemma AttachedColours(new node: Node, new temp: Node, k: int)
      requires temp in old(nodes) && old(Valid()) && old(FreeSlot(temp, k)) && Attached(node, temp, k)
      requires old(root != sentinel) && sentinel.color == Black
      ensures InsertInv(node)
    {
      hide Indexed, BhAt, Blacks, Sorted;
      AttachedLinks(node, temp, k);
      AttachedBh(node, temp, k);
      assert old(LinkAt(temp));
      forall n {:trigger RedAt(n, node)} | n in nodes ensures RedAt(n, node) {
        assert n != node ==> old(RedAt(n, null)) && old(LinkAt(n));
      }
    }

    /** Makes room in the order at position `k`. */
    ghost method OpenSlot(k: int, all: set<Node>)
      modifies all`lo, all`ix, all`hi
      ensures Opened(k, all)
    {
      forall n | n in all { n.lo := if n.lo > k then n.lo + 1 else n.lo; }
      forall n | n in all { n.ix := if n.ix >= k then n.ix + 1 else n.ix; }
      forall n | n in all { n.hi := if n.hi >= k then n.hi + 1 else n.hi; }
    }

    method HangLeaf(node: Node, temp: Node)
      requires temp in nodes && node !in nodes
      modifies node`left, node`right, node`parent, node`color, temp`left, temp`right
      ensures Hung(node, temp, node.key < temp.key, nodes)
    {
      if node.key < temp.key {
        temp.left := node;
      } else {
        temp.right := node;
      }
      node.parent := temp;
      node.left := sentinel;
      node.right := sentinel;
      node.color := Red;
    }

    method Attach(node: Node, temp: Node, ghost k: int)
      requires Links() && node !in nodes && node != sentinel && FreeSlot(temp, k)
      requires temp in nodes && 0 <= k <= |order| && (node.key < temp.key <==> k <= temp.ix)
      modifies this`nodes, this`order, node`left, node`right, node`parent, node`color, node`lo, node`ix, node`hi,
               node`bh,
               nodes`left, nodes`right, nodes`lo, nodes`ix, nodes`hi
      ensures Attached(node, temp, k)
    {
      hide Links, LinkAt, Indexed, FreeSlot, Hung;
      ghost var all := nodes;
      HangLeaf(node, temp);
      assert Hung(node, temp, k <= old(temp.ix), all);
      OpenSlot(k, all);
      assert Opened(k, all);
      Enter(node, k);
    }

    /** The order and the set of nodes with one more node. */
    ghost method Enter(node: Node, k: int)
      requires 0 <= k <= |order|
      modifies this`nodes, this`order, node`lo, node`ix, node`hi, node`bh
      ensures nodes == old(nodes) + {node} && order == old(order[..k]) + [node] + old(order[k..])
      ensures node.lo == k && node.ix == k && node.hi == k + 1 && node.bh == 1
    {
      node.lo, node.ix, node.hi, node.bh := k, k, k + 1, 1;
      nodes, order := nodes + {node}, order[..k] + [node] + order[k..];
    }

    /** Hangs `node` below the leaf its key belongs to, as a red node. */
    method InsertValue(node: Node) returns (ghost k: int)
      requires Valid() && root != sentinel && node !in nodes && node != sentinel
      modifies this`nodes, this`order, node`left, node`right, node`parent, node`color, node`lo, node`ix, node`hi,
               node`bh,
               nodes`left, nodes`right, nodes`lo, nodes`ix, nodes`hi
      ensures InsertInv(node)
      ensures nodes == old(nodes) + {node} && 0 <= k <= old(|order|)
      ensures old(Splits(order, k, node.key))
      ensures order == old(order)[..k] + [node] + old(order)[k..]
    {
      hide Links, LinkAt, Indexed, BhAt, RedAt, IsRed, Blacks, InsertInv, Sorted, FreeSlot, Splits, Hung, Opened;
      var temp;
      temp, k := FindSlot(node.key);
      label L:
      Attach(node, temp, k);
      AttachedColours@L(node, temp, k);
    }

    twostate lemma PlacedSorted(new node: Node, new key: int, new k: int)
      requires old(Links()) && old(Sorted()) && old(Splits(order, k, key))
      requires order == old(order)[..k] + [node] + old(order)[k..]
      requires forall i :: 0 <= i < |order| ==> order[i] in nodes
      requires node.key == key && forall n {:trigger n.key} :: n in old(nodes) ==> n.key == old(n.key)
      ensures Sorted()
    {
      hide LinkAt;
      forall i, j | 0 <= i <= j < |order| ensures order[i].key <= order[j].key {
        assert order[i] == if i < k then old(order)[i] else if i == k then node else old(order)[i - 1];
        assert order[j] == if j < k then old(order)[j] else if j == k then node else old(order)[j - 1];
      }
    }

    /** Blackening the root ends an insertion. */
    twostate lemma InsertDone(new node: Node)
      requires node in old(nodes) && old(InsertInv(node))
      requires old(node == root || (node.parent != null && node.parent.color == Black))
      requires Links() && nodes == old(nodes) && root == old(root) && sentinel == old(sentinel)
        && sentinel.color == Black
      requires forall n {:trigger n.left} {:trigger n.right} :: n in nodes ==>
        n.left == old(n.left) && n.right == old(n.right)
      requires forall n {:trigger n.color} {:trigger n.bh} :: n in nodes ==>
        n.color == (if n == root then Black else old(n.color)) && n.bh == old(n.bh)
      requires Sorted()
      ensures Valid()
    {
      assert old(LinkAt(node));
      forall n {:trigger BhAt(n)} | n in nodes ensures BhAt(n) {
        assert old(BhAt(n)) && old(LinkAt(n));
      }
      forall n {:trigger RedAt(n, null)} | n in nodes ensures RedAt(n, null) {
        assert old(RedAt(n, node)) && old(LinkAt(n));
      }
    }

    lemma OneNodeIsValid()
      requires root != sentinel && nodes == {root} && order == [root] && root.color == sentinel.color == Black
      requires root.left == root.right == sentinel && root.lo == root.ix == 0 && root.hi == root.bh == 1
      ensures Valid()
    {
      assert LinkAt(root) && BhAt(root) && RedAt(root, null);
    }

    method InsertFirst(node: Node)
      requires Valid() && root == sentinel && node != sentinel
      modifies this`root, this`nodes, this`order,
               node`left, node`right, node`parent, node`color, node`lo, node`ix, node`hi, node`bh
      ensures Valid() && nodes == old(nodes) + {node} && order == [node] && old(order) == []
    {
      assert sentinel.color == Black && nodes == {} && order == [];
      hide Valid, Links, Indexed, Sorted, LinkAt, BhAt, RedAt;
      node.parent := null;
      node.left := sentinel;
      node.right := sentinel;
      node.color := Black;
      root := node;
      nodes, order := {node}, [node];
      node.lo, node.ix, node.hi, node.bh := 0, 0, 1, 1;
      OneNodeIsValid();
    }

    /** One turn of the re-balancing loop of an insertion. */
    method InsertTurn(node: Node) returns (next: Node)
      requires InsertInv(node) && node in nodes && node != root && node.parent != null && node.parent.color == Red
      modifies this`root, nodes`left, nodes`right, nodes`parent, nodes`color, nodes`lo, nodes`hi, nodes`bh
      ensures InsertInv(next) && next in nodes && (next != root ==> next.parent != null)
      ensures next != root && next.parent.color == Red ==> old(node.hi - node.lo) < next.hi - next.lo
    {
      hide Links, LinkAt, Indexed, BhAt, RedAt, Blacks, InsertInv, Rotated;
      InsertInvAt(node);
      if node.parent == node.parent.parent.left {
        var temp := node.parent.parent.right;
        if temp.color == Red {
          next := InsertRecolour(node, temp);
        } else {
          next := InsertTurnLeft(node);
        }
      } else {
        var temp := node.parent.parent.left;
        if temp.color == Red {
          next := InsertRecolour(node, temp);
        } else {
          next := InsertTurnRight(node);
        }
      }
      InsertInvBasics(next);
    }

    /** The re-balancing loop of an insertion. */
    method InsertFixup(start: Node)
      requires InsertInv(start) && Sorted()
      modifies this`root, nodes`left, nodes`right, nodes`parent, nodes`color, nodes`lo, nodes`hi, nodes`bh
      ensures Valid()
    {
      hide Links, LinkAt, BhAt, RedAt, Blacks, InsertInv, Rotated, Sorted, Valid;
      var node := start;
      InsertInvBasics(node);
      while node != root && node.parent.color == Red
        invariant InsertInv(node) && Indexed() && Sorted()
        invariant node in nodes && root in nodes && (node != root ==> node.parent != null)
        invariant node.hi - node.lo <= |order|
        decreases if node != root && node.parent.color == Red then |order| + 1 - (node.hi - node.lo) else 0
      {
        node := InsertTurn(node);
        InsertInvBasics(node);
      }
      InsertInvBasics(node);
      label L:
      root.color := Black;
      InsertDone@L(node);
    }

    /** rbtree_insert: the node goes behind every key that is not greater than its own, and
        the tree stays a red-black tree. */
    method Insert(node: Node) returns (ghost k: int)
      requires Valid() && node !in nodes && node != sentinel
      modifies this`root, this`nodes, this`order,
               node`left, node`right, node`parent, node`color, node`lo, node`ix, node`hi, node`bh,
               nodes`left, nodes`right, nodes`parent, nodes`color, nodes`lo, nodes`ix, nodes`hi, nodes`bh
      ensures Valid() && nodes == old(nodes) + {node}
      ensures 0 <= k <= old(|order|) && order == old(order)[..k] + [node] + old(order)[k..]
      ensures old(Splits(order, k, node.key))
    {
      hide LinkAt, BhAt, RedAt, IsRed, Blacks, InsertInv;
      if root == sentinel {
        InsertFirst(node);
        return 0;
      }
      k := InsertValue(node);
      InsertInvBasics(node);
      PlacedSorted(node, node.key, k);
      InsertFixup(node);
    }

    // ---------- deletion ----------

    /** One black node is missing below the parent of `temp`, on the side of `temp`. */
    ghost predicate BhShortAt(n: Node, temp: Node)
      reads this`nodes, this`root, nodes`left, nodes`right, nodes`color, nodes`bh, temp`parent
      requires n in nodes
    {
      && n.bh >= 1
      && Blacks(n.left) + (if temp != root && n == temp.parent && n.left == temp then 1 else 0) == n.bh
      && Blacks(n.right) + (if temp != root && n == temp.parent && n.right == temp then 1 else 0) == n.bh
    }

    ghost predicate RedShortAt(n: Node, temp: Node)
      reads this`nodes, nodes`left, nodes`right, nodes`color
      requires n in nodes
    {
      n == temp || RedAt(n, temp)
    }

    /** Everything but the order of the keys, while one black node is missing on the way to
        `temp`; when `temp` is red it may clash with its parent and its children. */
    ghost predicate DeleteInv(temp: Node)
      reads this, nodes`left, nodes`right, nodes`parent, nodes`lo, nodes`ix, nodes`hi,
            nodes`color, nodes`bh, sentinel`color, temp`parent
    {
      && Links() && root in nodes
      && sentinel.color == Black
      && (temp in nodes || temp == sentinel)
      && (temp != root ==> temp.parent != null && temp.parent in nodes
                           && ((temp.parent.left == temp) != (temp.parent.right == temp)))
      && (root == temp || !IsRed(root))
      && (forall n {:trigger BhShortAt(n, temp)} :: n in nodes ==> BhShortAt(n, temp))
      && (forall n {:trigger RedShortAt(n, temp)} :: n in nodes ==> RedShortAt(n, temp))
    }

    lemma DeleteInvAt(temp: Node)
      requires DeleteInv(temp) && temp != root && temp.color == Black
      ensures var p := temp.parent;
        && p != null && p in nodes && p.left != null && p.right != null && p.left != p.right
        && (p.left == temp || p.right == temp)
        && (temp in nodes ==> temp.hi - temp.lo < p.hi - p.lo) && 0 < p.hi - p.lo <= |order|
        && var w := if p.left == temp then p.right else p.left;
        && w in nodes && w != p && w != temp && w.left != null && w.right != null
        && w.left in nodes + {sentinel} && w.right in nodes + {sentinel} && w.left != p && w.right != p
        && (w.left == w.right ==> w.left == sentinel) && w.left != w && w.right != w
        && (temp in nodes ==> w.left != temp && w.right != temp)
      ensures var p := temp.parent; var w := if p.left == temp then p.right else p.left;
        w.color == Red ==>
          p.color == Black && w.left in nodes && w.right in nodes && w.left.color == Black && w.right.color == Black
      ensures Links() && sentinel !in nodes && sentinel.color == Black && temp != temp.parent
      ensures temp in nodes || temp == sentinel
      ensures temp in nodes ==>
        forall n {:trigger n.left} {:trigger n.right} :: n in nodes && n != temp.parent ==>
          n.left != temp && n.right != temp
    {
      if temp in nodes {
        forall n | n in nodes && n != temp.parent ensures n.left != temp && n.right != temp {
          assert LinkAt(n);
        }
      }
      var p := temp.parent;
      assert LinkAt(p);
      var w := if p.left == temp then p.right else p.left;
      assert BhShortAt(p, temp) && RedShortAt(p, temp);
      if temp in nodes { assert LinkAt(temp) && BhShortAt(temp, temp); }
      assert w in nodes;
      assert LinkAt(w) && BhShortAt(w, temp) && RedShortAt(w, temp);
    }

    /** The red sibling `w` was lifted over `p` and they swapped colours. */
    twostate predicate TurnedRedSibling(p: Node, new w: Node, new temp: Node)
      reads this, nodes, sentinel, p, w, temp
      requires p in old(nodes) && w in old(nodes) && (temp in old(nodes) || temp == old(sentinel))
    {
      && old(DeleteInv(temp) && temp != root && temp.color == Black && temp.parent == p && w.color == Red)
      && old((p.left == temp && p.right == w) || (p.left == w && p.right == temp))
      && Rotated(p, w) && Links() && sentinel.color == Black && temp.parent == p
      && (forall n {:trigger n.color} :: n in nodes ==>
            n.color == (if n == w then Black else if n == p then Red else old(n.color)))
      && (forall n {:trigger n.bh} :: n in nodes ==> n.bh == old(n.bh))
    }

    twostate lemma TurnedRedSiblingBh(p: Node, new w: Node, new temp: Node)
      requires p in old(nodes) && w in old(nodes) && (temp in old(nodes) || temp == old(sentinel))
        && TurnedRedSibling(p, w, temp)
      ensures forall n {:trigger BhShortAt(n, temp)} :: n in nodes ==> BhShortAt(n, temp)
    {
      hide Indexed;
      assert old(LinkAt(p)) && old(LinkAt(w)) && old(BhShortAt(p, temp)) && old(BhShortAt(w, temp))
        && old(RedShortAt(p, temp)) && old(RedShortAt(w, temp));
      forall n {:trigger BhShortAt(n, temp)} | n in nodes ensures BhShortAt(n, temp) {
        assert old(BhShortAt(n, temp)) && old(LinkAt(n));
      }
    }

    twostate lemma TurnedRedSiblingRed(p: Node, new w: Node, new temp: Node)
      requires p in old(nodes) && w in old(nodes) && (temp in old(nodes) || temp == old(sentinel))
        && TurnedRedSibling(p, w, temp)
      ensures forall n {:trigger RedShortAt(n, temp)} :: n in nodes ==> RedShortAt(n, temp)
      ensures !IsRed(root)
    {
      hide BhShortAt, Blacks, Indexed;
      assert old(LinkAt(p)) && old(LinkAt(w)) && old(RedShortAt(p, temp)) && old(RedShortAt(w, temp));
      forall n {:trigger RedShortAt(n, temp)} | n in nodes ensures RedShortAt(n, temp) {
        assert old(RedShortAt(n, temp)) && old(LinkAt(n));
      }
    }

    twostate lemma DeleteTurnedRedSibling(p: Node, new w: Node, new temp: Node)
      requires p in old(nodes) && w in old(nodes) && (temp in old(nodes) || temp == old(sentinel))
        && TurnedRedSibling(p, w, temp)
      ensures DeleteInv(temp) && temp != root && temp.color == Black && temp.parent == p
      ensures p.left in nodes + {sentinel} && !IsRed(p.left) && !IsRed(p.right)
    {
      TurnedRedSiblingBh(p, w, temp);
      TurnedRedSiblingRed(p, w, temp);
      assert old(LinkAt(p)) && old(LinkAt(w)) && LinkAt(p);
      assert old(RedShortAt(w, temp));
      if temp in nodes { assert LinkAt(temp); }
      DeleteTurnedSides(p, w, temp);
    }

    twostate lemma DeleteTurnedSides(p: Node, new w: Node, new temp: Node)
      requires p in old(nodes) && w in old(nodes) && (temp in old(nodes) || temp == old(sentinel))
        && TurnedRedSibling(p, w, temp)
      ensures temp != root && (p.left == temp) != (p.right == temp)
    {
      assert old(LinkAt(p)) && old(LinkAt(w)) && old(BhShortAt(p, temp)) && old(BhShortAt(w, temp));
      if temp in nodes { assert old(LinkAt(temp)); }
    }

    /** The sibling `w` and both its children are black: it turns red and `p` is the short one. */
    twostate predicate Recoloured(p: Node, new w: Node, new temp: Node)
      reads this, nodes, sentinel
      requires p in old(nodes) && w in old(nodes) && (temp in old(nodes) || temp == old(sentinel))
    {
      && old(DeleteInv(temp) && temp != root && temp.color == Black && temp.parent == p && w.color == Black)
      && old(!IsRed(w.left) && !IsRed(w.right))
      && old((p.left == temp && p.right == w) || (p.left == w && p.right == temp))
      && nodes == old(nodes) && root == old(root) && sentinel == old(sentinel) && Links() && sentinel.color == Black
      && (forall n {:trigger n.left} {:trigger n.right} {:trigger n.parent} :: n in nodes ==>
            n.left == old(n.left) && n.right == old(n.right) && n.parent == old(n.parent))
      && (forall n {:trigger n.color} :: n in nodes ==> n.color == (if n == w then Red else old(n.color)))
      && (forall n {:trigger n.bh} :: n in nodes ==> n.bh == (if n == p then old(n.bh) - 1 else old(n.bh)))
    }

    twostate lemma RecolouredBh(p: Node, new w: Node, new temp: Node)
      requires p in old(nodes) && w in old(nodes) && (temp in old(nodes) || temp == old(sentinel))
      requires Recoloured(p, w, temp)
      ensures forall n {:trigger BhShortAt(n, p)} :: n in nodes ==> BhShortAt(n, p)
    {
      hide Indexed, RedShortAt, RedAt;
      assert old(LinkAt(p)) && old(LinkAt(w)) && old(BhShortAt(p, temp)) && old(BhShortAt(w, temp));
      if temp in nodes { assert old(LinkAt(temp)); }
      forall n {:trigger BhShortAt(n, p)} | n in nodes ensures BhShortAt(n, p) {
        assert old(BhShortAt(n, temp)) && old(LinkAt(n));
      }
    }

    twostate lemma DeleteRecoloured(p: Node, new w: Node, new temp: Node)
      requires p in old(nodes) && w in old(nodes) && (temp in old(nodes) || temp == old(sentinel))
      requires Recoloured(p, w, temp)
      ensures DeleteInv(p)
    {
      hide Indexed, BhShortAt, Blacks;
      RecolouredBh(p, w, temp);
      assert old(LinkAt(p)) && old(LinkAt(w)) && LinkAt(p);
      if temp in nodes { assert old(LinkAt(temp)); }
      if p != root { assert old(LinkAt(p.parent)); }
      forall n {:trigger RedShortAt(n, p)} | n in nodes ensures RedShortAt(n, p) {
        assert old(RedShortAt(n, temp)) && old(LinkAt(n));
      }
    }

    /** The inner child `c` of the black sibling `w` is red, the outer one black: `c` was
        lifted over `w` and they swapped colours. */
    twostate predicate TurnedInnerNephew(w: Node, new c: Node, new p: Node, new temp: Node)
      reads this, nodes, sentinel, w, c, p, temp
      requires p in old(nodes) && w in old(nodes) && c in old(nodes) && (temp in old(nodes) || temp == old(sentinel))
    {
      && old(DeleteInv(temp) && temp != root && temp.color == Black && temp.parent == p && w.color == Black
            && c.color == Red)
      && old((p.left == temp && p.right == w && w.left == c && !IsRed(w.right))
          || (p.left == w && p.right == temp && w.right == c && !IsRed(w.left)))
      && Rotated(w, c) && Links() && sentinel.color == Black && temp.parent == p
      && (forall n {:trigger n.color} :: n in nodes ==>
            n.color == (if n == c then Black else if n == w then Red else old(n.color)))
      && (forall n {:trigger n.bh} :: n in nodes ==> n.bh == old(n.bh))
    }

    twostate lemma TurnedInnerNephewBh(w: Node, new c: Node, new p: Node, new temp: Node)
      requires p in old(nodes) && w in old(nodes) && c in old(nodes) && (temp in old(nodes) || temp == old(sentinel))
      requires TurnedInnerNephew(w, c, p, temp)
      ensures forall n {:trigger BhShortAt(n, temp)} :: n in nodes ==> BhShortAt(n, temp)
    {
      hide Indexed;
      assert old(LinkAt(p)) && old(LinkAt(w)) && old(LinkAt(c)) && old(BhShortAt(p, temp)) && old(BhShortAt(w, temp))
        && old(BhShortAt(c, temp)) && old(RedShortAt(c, temp));
      forall n {:trigger BhShortAt(n, temp)} | n in nodes ensures BhShortAt(n, temp) {
        assert old(BhShortAt(n, temp)) && old(LinkAt(n));
      }
    }

    twostate lemma TurnedInnerNephewRed(w: Node, new c: Node, new p: Node, new temp: Node)
      requires p in old(nodes) && w in old(nodes) && c in old(nodes) && (temp in old(nodes) || temp == old(sentinel))
      requires TurnedInnerNephew(w, c, p, temp)
      ensures forall n {:trigger RedShortAt(n, temp)} :: n in nodes ==> RedShortAt(n, temp)
      ensures !IsRed(root)
    {
      hide BhShortAt, Blacks, Indexed;
      assert old(LinkAt(p)) && old(LinkAt(w)) && old(LinkAt(c)) && old(RedShortAt(w, temp)) && old(RedShortAt(c, temp));
      forall n {:trigger RedShortAt(n, temp)} | n in nodes ensures RedShortAt(n, temp) {
        assert old(RedShortAt(n, temp)) && old(LinkAt(n));
      }
    }

    twostate lemma DeleteTurnedInnerNephew(w: Node, new c: Node, new p: Node, new temp: Node)
      requires p in old(nodes) && w in old(nodes) && c in old(nodes) && (temp in old(nodes) || temp == old(sentinel))
      requires TurnedInnerNephew(w, c, p, temp)
      ensures DeleteInv(temp) && temp != root && temp.color == Black && temp.parent == p
      ensures if p.left == temp then p.right == c && c.right == w else p.left == c && c.left == w && p.right == temp
      ensures c.color == Black && w.color == Red
    {
      TurnedInnerNephewBh(w, c, p, temp);
      TurnedInnerNephewRed(w, c, p, temp);
      assert old(LinkAt(p)) && old(LinkAt(w)) && old(LinkAt(c)) && LinkAt(p);
      if temp in nodes { assert old(LinkAt(temp)) && LinkAt(temp); }
    }

    /** The outer child `o` of the sibling `w` is red: `w` was lifted over `p` and took its
        colour, `p` and `o` turned black, and nothing is missing any more. */
    twostate predicate TurnedOuterNephew(p: Node, new w: Node, new o: Node, new temp: Node)
      reads this, nodes, sentinel, p, w, o, temp
      requires p in old(nodes) && w in old(nodes) && o in old(nodes) && (temp in old(nodes) || temp == old(sentinel))
    {
      && old(DeleteInv(temp) && temp != root && temp.color == Black && temp.parent == p && w.color == Black
            && o.color == Red)
      && old((p.left == temp && p.right == w && w.right == o) || (p.left == w && p.right == temp && w.left == o))
      && Rotated(p, w) && Links() && sentinel.color == Black
      && (forall n {:trigger n.color} :: n in nodes ==>
            n.color == (if n == w then old(p.color) else if n == p || n == o then Black else old(n.color)))
      && (forall n {:trigger n.bh} :: n in nodes ==>
            n.bh == (if n == p then old(n.bh) - 1 else if n == w then old(n.bh) + 1 else old(n.bh)))
    }

    twostate lemma TurnedOuterNephewNear(p: Node, new w: Node, new o: Node, new temp: Node, new n: Node)
      requires p in old(nodes) && w in old(nodes) && o in old(nodes) && (temp in old(nodes) || temp == old(sentinel))
      requires TurnedOuterNephew(p, w, o, temp)
      requires n == p || n == w || n == o
      ensures BhShortAt(n, root)
    {
      hide RedShortAt, RedAt, Indexed;
      assert old(LinkAt(p)) && old(LinkAt(w)) && old(LinkAt(o)) && old(BhShortAt(p, temp)) && old(BhShortAt(w, temp))
        && old(BhShortAt(o, temp));
      if temp in nodes { assert old(LinkAt(temp)); }
    }

    twostate lemma TurnedOuterNephewFar(p: Node, new w: Node, new o: Node, new temp: Node, new n: Node)
      requires p in old(nodes) && w in old(nodes) && o in old(nodes) && (temp in old(nodes) || temp == old(sentinel))
      requires TurnedOuterNephew(p, w, o, temp)
      requires n in old(nodes) && n in nodes && n != p && n != w && n != o
      ensures BhShortAt(n, root)
    {
      hide RedShortAt, RedAt, Indexed;
      assert old(LinkAt(p)) && old(LinkAt(w)) && old(BhShortAt(p, temp)) && old(BhShortAt(w, temp))
        && old(BhShortAt(n, temp)) && old(LinkAt(n));
    }

    twostate lemma TurnedOuterNephewBh(p: Node, new w: Node, new o: Node, new temp: Node)
      requires p in old(nodes) && w in old(nodes) && o in old(nodes) && (temp in old(nodes) || temp == old(sentinel))
      requires TurnedOuterNephew(p, w, o, temp)
      ensures forall n {:trigger BhShortAt(n, root)} :: n in nodes ==> BhShortAt(n, root)
    {
      forall n {:trigger BhShortAt(n, root)} | n in nodes ensures BhShortAt(n, root) {
        hide *;
        if n == p || n == w || n == o {
          TurnedOuterNephewNear(p, w, o, temp, n);
        } else {
          TurnedOuterNephewFar(p, w, o, temp, n);
        }
      }
    }

    twostate lemma TurnedOuterNephewRed(p: Node, new w: Node, new o: Node, new temp: Node)
      requires p in old(nodes) && w in old(nodes) && o in old(nodes) && (temp in old(nodes) || temp == old(sentinel))
      requires TurnedOuterNephew(p, w, o, temp)
      ensures forall n {:trigger RedShortAt(n, root)} :: n in nodes ==> RedShortAt(n, root)
    {
      hide BhShortAt, Blacks, Indexed;
      assert old(LinkAt(p)) && old(LinkAt(w)) && old(LinkAt(o)) && old(RedShortAt(p, temp)) && old(RedShortAt(w, temp))
        && old(RedShortAt(o, temp));
      if p != old(root) { assert old(RedShortAt(p.parent, temp)); }
      forall n {:trigger RedShortAt(n, root)} | n in nodes ensures RedShortAt(n, root) {
        assert old(RedShortAt(n, temp)) && old(LinkAt(n));
      }
    }

    twostate lemma DeleteTurnedOuterNephew(p: Node, new w: Node, new o: Node, new temp: Node)
      requires p in old(nodes) && w in old(nodes) && o in old(nodes) && (temp in old(nodes) || temp == old(sentinel))
      requires TurnedOuterNephew(p, w, o, temp)
      ensures DeleteInv(root) && root != sentinel && 0 < root.hi - root.lo == |order|
    {
      TurnedOuterNephewBh(p, w, o, temp);
      TurnedOuterNephewRed(p, w, o, temp);
      assert LinkAt(root);
    }

    /** The sibling and both its children are black: the sibling turns red. */
    method DeleteRecolour(temp: Node, w: Node) returns (next: Node)
      requires DeleteInv(temp) && temp != root && temp.color == Black && temp.parent != null
      requires w == (if temp == temp.parent.left then temp.parent.right else temp.parent.left) && w.color == Black
      requires w.left != null && w.right != null && w.left.color == Black && w.right.color == Black
      modifies nodes`color, nodes`bh
      ensures next == temp.parent && DeleteInv(next) && next in nodes
      ensures old(if temp in nodes then temp.hi - temp.lo else 0) < next.hi - next.lo <= |order|
    {
      hide Links, LinkAt, Indexed, BhShortAt, RedShortAt, RedAt, BhAt, Blacks, DeleteInv;
      DeleteInvAt(temp);
      w.color := Red;
      next := temp.parent;
      next.bh := next.bh - 1;
      DeleteRecoloured(next, w, temp);
    }

    /** The sibling is red: it is lifted over the parent, and a black node becomes the sibling. */
    method DeleteLeftRedSibling(temp: Node)
      requires DeleteInv(temp) && temp != root && temp.color == Black && temp.parent != null && temp == temp.parent.left
      requires temp.parent.right != null && temp.parent.right.color == Red
      modifies this`root, nodes`left, nodes`right, nodes`parent, nodes`color, nodes`lo, nodes`hi
      ensures DeleteInv(temp) && temp != root && temp.color == Black && temp.parent == old(temp.parent)
        && temp == temp.parent.left
      ensures temp.parent.right != null && temp.parent.right.color == Black
      ensures temp in nodes ==> temp.hi - temp.lo == old(temp.hi - temp.lo)
    {
      hide Links, LinkAt, Indexed, BhShortAt, RedShortAt, RedAt, BhAt, Blacks, DeleteInv;
      DeleteInvAt(temp);
      ghost var p := temp.parent;
      var w := temp.parent.right;
      w.color := Black;
      temp.parent.color := Red;
      LeftRotate(temp.parent);
      DeleteTurnedRedSibling(p, w, temp);
      DeleteInvAt(temp);
    }

    /** The sibling is black and its inner child red, its outer one black: the inner child is
        lifted over the sibling and becomes the sibling. */
    method DeleteLeftInnerNephew(temp: Node, w: Node)
      requires DeleteInv(temp) && temp != root && temp.color == Black && temp.parent != null && temp == temp.parent.left
      requires w == temp.parent.right && w.color == Black && w.left != null && w.right != null
      requires w.left.color == Red && w.right.color == Black
      modifies this`root, nodes`left, nodes`right, nodes`parent, nodes`color, nodes`lo, nodes`hi
      ensures DeleteInv(temp) && temp != root && temp.color == Black && temp.parent == old(temp.parent)
        && temp == temp.parent.left
      ensures temp.parent.right == old(w.left) && old(w.left).color == Black
      ensures old(w.left).left != null && old(w.left).right != null && old(w.left).right.color == Red
    {
      hide Links, LinkAt, Indexed, BhShortAt, RedShortAt, RedAt, BhAt, Blacks, DeleteInv;
      DeleteInvAt(temp);
      ghost var c, p := w.left, temp.parent;
      w.left.color := Black;
      w.color := Red;
      RightRotate(w);
      DeleteTurnedInnerNephew(w, c, p, temp);
      DeleteInvAt(temp);
    }

    /** Paints the sibling `w`, its parent `p` and its outer child, and lifts `w` over `p`. */
    method LiftLeftOuterNephew(p: Node, w: Node)
      requires Links() && p in nodes && w in nodes && w == p.right && w.right in nodes
      modifies this`root, nodes`left, nodes`right, nodes`parent, nodes`color, nodes`lo, nodes`hi
      ensures Rotated(p, w) && Links()
      ensures forall n {:trigger n.color} :: n in nodes ==>
        n.color == (if n == w then old(p.color) else if n == p || n == old(w.right) then Black else old(n.color))
    {
      hide Links, LinkAt, Indexed;
      RotationSite(p, w);
      RotationSite(w, w.right);
      w.color := p.color;
      p.color := Black;
      w.right.color := Black;
      LeftRotate(p);
    }

    /** The sibling is black and its outer child red: lifting the sibling over the parent
        makes up for the missing black node. */
    method DeleteLeftOuterNephew(temp: Node, w: Node)
      requires DeleteInv(temp) && temp != root && temp.color == Black && temp.parent != null && temp == temp.parent.left
      requires w == temp.parent.right && w.color == Black && w.left != null && w.right != null
      requires w.right.color == Red
      modifies this`root, nodes`left, nodes`right, nodes`parent, nodes`color, nodes`lo, nodes`hi, nodes`bh
      ensures DeleteInv(root) && root in nodes && root.hi - root.lo == |order| && |order| > 0
    {
      hide Links, LinkAt, Indexed, BhShortAt, RedShortAt, RedAt, BhAt, Blacks, DeleteInv, Rotated;
      DeleteInvAt(temp);
      var p := temp.parent;
      ghost var o := w.right;
      LiftLeftOuterNephew(p, w);
      p.bh, w.bh := p.bh - 1, w.bh + 1;
      DeleteTurnedOuterNephew(p, w, o, temp);
    }

    /** The body of the re-balancing loop of a deletion, for a left child. */
    method DeleteFixLeft(temp: Node) returns (next: Node)
      requires DeleteInv(temp) && temp != root && temp.color == Black && temp.parent != null && temp == temp.parent.left
      modifies this`root, nodes`left, nodes`right, nodes`parent, nodes`color, nodes`lo, nodes`hi, nodes`bh
      ensures DeleteInv(next) && next in nodes
      ensures old(if temp in nodes then temp.hi - temp.lo else 0) < next.hi - next.lo <= |order|
    {
      hide Links, LinkAt, Indexed, BhShortAt, RedShortAt, RedAt, BhAt, Blacks, DeleteInv;
      DeleteInvAt(temp);
      var w := temp.parent.right;
      if w.color == Red {
        DeleteLeftRedSibling(temp);
        DeleteInvAt(temp);
        w := temp.parent.right;
      }
      if w.left.color == Black && w.right.color == Black {
        next := DeleteRecolour(temp, w);
      } else {
        if w.right.color == Black {
          DeleteLeftInnerNephew(temp, w);
          DeleteInvAt(temp);
          w := temp.parent.right;
        }
        DeleteLeftOuterNephew(temp, w);
        next := root;
      }
    }

    /** The sibling is red: it is lifted over the parent, and a black node becomes the sibling. */
    method DeleteRightRedSibling(temp: Node)
      requires DeleteInv(temp) && temp != root && temp.color == Black && temp.parent != null
        && temp == temp.parent.right
      requires temp.parent.left != null && temp.parent.left.color == Red
      modifies this`root, nodes`left, nodes`right, nodes`parent, nodes`color, nodes`lo, nodes`hi
      ensures DeleteInv(temp) && temp != root && temp.color == Black && temp.parent == old(temp.parent)
        && temp == temp.parent.right
      ensures temp.parent.left != null && temp.parent.left.color == Black
      ensures temp in nodes ==> temp.hi - temp.lo == old(temp.hi - temp.lo)
    {
      hide Links, LinkAt, Indexed, BhShortAt, RedShortAt, RedAt, BhAt, Blacks, DeleteInv;
      DeleteInvAt(temp);
      ghost var p := temp.parent;
      var w := temp.parent.left;
      w.color := Black;
      temp.parent.color := Red;
      RightRotate(temp.parent);
      DeleteTurnedRedSibling(p, w, temp);
      DeleteInvAt(temp);
    }

    /** The sibling is black and its inner child red, its outer one black: the inner child is
        lifted over the sibling and becomes the sibling. */
    method DeleteRightInnerNephew(temp: Node, w: Node)
      requires DeleteInv(temp) && temp != root && temp.color == Black && temp.parent != null
        && temp == temp.parent.right
      requires w == temp.parent.left && w.color == Black && w.left != null && w.right != null
      requires w.right.color == Red && w.left.color == Black
      modifies this`root, nodes`left, nodes`right, nodes`parent, nodes`color, nodes`lo, nodes`hi
      ensures DeleteInv(temp) && temp != root && temp.color == Black && temp.parent == old(temp.parent)
        && temp == temp.parent.right
      ensures temp.parent.left == old(w.right) && old(w.right).color == Black
      ensures old(w.right).left != null && old(w.right).right != null && old(w.right).left.color == Red
    {
      hide Links, LinkAt, Indexed, BhShortAt, RedShortAt, RedAt, BhAt, Blacks, DeleteInv;
      DeleteInvAt(temp);
      ghost var c, p := w.right, temp.parent;
      w.right.color := Black;
      w.color := Red;
      LeftRotate(w);
      DeleteTurnedInnerNephew(w, c, p, temp);
      DeleteInvAt(temp);
    }

    /** Paints the sibling `w`, its parent `p` and its outer child, and lifts `w` over `p`. */
    method LiftRightOuterNephew(p: Node, w: Node)
      requires Links() && p in nodes && w in nodes && w == p.left && w.left in nodes
      modifies this`root, nodes`left, nodes`right, nodes`parent, nodes`color, nodes`lo, nodes`hi
      ensures Rotated(p, w) && Links()
      ensures forall n {:trigger n.color} :: n in nodes ==>
        n.color == (if n == w then old(p.color) else if n == p || n == old(w.left) then Black else old(n.color))
    {
      hide Links, LinkAt, Indexed;
      RotationSite(p, w);
      RotationSite(w, w.left);
      w.color := p.color;
      p.color := Black;
      w.left.color := Black;
      RightRotate(p);
    }

    /** The sibling is black and its outer child red: lifting the sibling over the parent
        makes up for the missing black node. */
    method DeleteRightOuterNephew(temp: Node, w: Node)
      requires DeleteInv(temp) && temp != root && temp.color == Black && temp.parent != null
        && temp == temp.parent.right
      requires w == temp.parent.left && w.color == Black && w.left != null && w.right != null
      requires w.left.color == Red
      modifies this`root, nodes`left, nodes`right, nodes`parent, nodes`color, nodes`lo, nodes`hi, nodes`bh
      ensures DeleteInv(root) && root in nodes && root.hi - root.lo == |order| && |order| > 0
    {
      hide Links, LinkAt, Indexed, BhShortAt, RedShortAt, RedAt, BhAt, Blacks, DeleteInv, Rotated;
      DeleteInvAt(temp);
      var p := temp.parent;
      ghost var o := w.left;
      LiftRightOuterNephew(p, w);
      p.bh, w.bh := p.bh - 1, w.bh + 1;
      DeleteTurnedOuterNephew(p, w, o, temp);
    }

    /** The body of the re-balancing loop of a deletion, for a right child. */
    method DeleteFixRight(temp: Node) returns (next: Node)
      requires DeleteInv(temp) && temp != root && temp.color == Black && temp.parent != null
        && temp == temp.parent.right
      modifies this`root, nodes`left, nodes`right, nodes`parent, nodes`color, nodes`lo, nodes`hi, nodes`bh
      ensures DeleteInv(next) && next in nodes
      ensures old(if temp in nodes then temp.hi - temp.lo else 0) < next.hi - next.lo <= |order|
    {
      hide Links, LinkAt, Indexed, BhShortAt, RedShortAt, RedAt, BhAt, Blacks, DeleteInv;
      DeleteInvAt(temp);
      var w := temp.parent.left;
      if w.color == Red {
        DeleteRightRedSibling(temp);
        DeleteInvAt(temp);
        w := temp.parent.left;
      }
      if w.left.color == Black && w.right.color == Black {
        next := DeleteRecolour(temp, w);
      } else {
        if w.left.color == Black {
          DeleteRightInnerNephew(temp, w);
          DeleteInvAt(temp);
          w := temp.parent.left;
        }
        DeleteRightOuterNephew(temp, w);
        next := root;
      }
    }

    /** rbtree_min: the leftmost node below `start`. */
    method Min(start: Node) returns (node: Node)
      requires Links() && start in nodes
      ensures node in nodes && node.left == sentinel && node.ix == start.lo
      ensures order[start.lo] == node
    {
      node := start;
      while node.left != sentinel
        invariant node in nodes && node.lo == start.lo
        decreases node.hi - node.lo
      {
        assert LinkAt(node);
        node := node.left;
      }
      assert LinkAt(node) && LinkAt(start);
    }

    /** The spans after the slot `k` of the order was removed. */
    twostate predicate Closed(k: int, all: set<Node>)
      reads all`lo, all`ix, all`hi
    {
      && (forall n {:trigger n.lo} :: n in all ==> n.lo == (if old(n.lo) > k then old(n.lo) - 1 else old(n.lo)))
      && (forall n {:trigger n.ix} :: n in all ==> n.ix == (if old(n.ix) > k then old(n.ix) - 1 else old(n.ix)))
      && (forall n {:trigger n.hi} :: n in all ==> n.hi == (if old(n.hi) > k then old(n.hi) - 1 else old(n.hi)))
    }

    ghost method CloseSlot(k: int, all: set<Node>)
      modifies all`lo, all`ix, all`hi
      ensures Closed(k, all)
    {
      forall n | n in all { n.lo := if n.lo > k then n.lo - 1 else n.lo; }
      forall n | n in all { n.ix := if n.ix > k then n.ix - 1 else n.ix; }
      forall n | n in all { n.hi := if n.hi > k then n.hi - 1 else n.hi; }
    }

    twostate predicate Removed(node: Node)
      reads this`order
      requires node in old(nodes) && old(Links())
    {
      order == old(order)[..old(node.ix)] + old(order)[old(node.ix) + 1..]
    }

    /** Among the nodes `all`, `temp` hangs where `node` was. */
    twostate predicate Unhooked(node: Node, new temp: Node, new all: set<Node>)
      reads temp`parent, all`left, all`right, all`parent, all`color
      requires all <= old(nodes)
    {
      && temp.parent == old(node.parent)
      && (forall n {:trigger n.left} :: n in all ==> n.left == (if old(n.left) == node then temp else old(n.left)))
      && (forall n {:trigger n.right} :: n in all ==> n.right == (if old(n.right) == node then temp else old(n.right)))
      && (forall n {:trigger n.parent} :: n in all && n != temp ==> n.parent == old(n.parent))
      && (forall n {:trigger n.color} :: n in all ==> n.color == old(n.color))
    }

    /** `node`, which has at most the child `temp`, was cut out of the tree. */
    twostate predicate CutOut(node: Node, new temp: Node)
      reads this, nodes, temp
      requires node in old(nodes) && old(Links()) && (temp in old(nodes) || temp == old(sentinel))
    {
      && old(node != root)
      && old((node.left == sentinel && node.right == temp) || (node.right == sentinel && node.left == temp))
      && nodes == old(nodes) - {node} && root == old(root) && sentinel == old(sentinel)
      && Removed(node)
      && Unhooked(node, temp, old(nodes) - {node})
      && Closed(old(node.ix), old(nodes) - {node})
      && (forall n {:trigger n.bh} :: n in nodes ==> n.bh == old(n.bh))
    }

    twostate lemma RemovedIndexed(node: Node)
      requires node in old(nodes) && old(Links())
      requires nodes == old(nodes) - {node}
      requires Removed(node)
      requires forall n :: n in nodes ==> n.ix == (if old(n.ix) > old(node.ix) then old(n.ix) - 1 else old(n.ix))
      ensures Indexed() && |order| == |old(order)| - 1
      ensures forall n {:trigger n.ix} :: n in nodes ==> old(n.ix) != old(node.ix)
    {
      hide LinkAt;
      forall i | 0 <= i < |order| ensures order[i] in nodes && order[i].ix == i {
        assert order[i] == if i < old(node.ix) then old(order)[i] else old(order)[i + 1];
      }
    }

    twostate lemma CutOutLinkAt(node: Node, new temp: Node)
      requires node in old(nodes) && old(Links()) && (temp in old(nodes) || temp == old(sentinel)) && CutOut(node, temp)
      ensures forall n {:trigger LinkAt(n)} :: n in nodes ==> LinkAt(n)
    {
      hide Indexed, Removed;
      RemovedIndexed(node);
      assert old(LinkAt(node));
      forall n {:trigger LinkAt(n)} | n in nodes
        ensures LinkAt(n)
      {
        assert old(LinkAt(n));
      }
    }

    twostate lemma CutOutLinks(node: Node, new temp: Node)
      requires node in old(nodes) && old(Links()) && (temp in old(nodes) || temp == old(sentinel)) && CutOut(node, temp)
      ensures Links()
    {
      RemovedIndexed(node);
      CutOutLinkAt(node, temp);
      assert old(LinkAt(root));
    }

    twostate lemma CutOutBh(node: Node, new temp: Node, new odd: Node)
      requires node in old(nodes) && old(Valid()) && (temp in old(nodes) || temp == old(sentinel)) && CutOut(node, temp)
        && Links()
      requires odd == (if old(node.color) == Black then temp else root)
      ensures forall n {:trigger BhShortAt(n, odd)} :: n in nodes ==> BhShortAt(n, odd)
    {
      hide Indexed, Removed, RedAt;
      assert old(LinkAt(node)) && old(BhAt(node)) && old(LinkAt(node.parent)) && old(BhAt(node.parent));
      if temp in nodes { assert old(LinkAt(temp)) && old(BhAt(temp)); }
      forall n {:trigger BhShortAt(n, odd)} | n in nodes ensures BhShortAt(n, odd) {
        assert old(BhAt(n)) && old(LinkAt(n));
      }
    }

    twostate lemma CutOutRed(node: Node, new temp: Node, new odd: Node)
      requires node in old(nodes) && old(Valid()) && (temp in old(nodes) || temp == old(sentinel)) && CutOut(node, temp)
        && Links()
      requires odd == (if old(node.color) == Black then temp else root)
      ensures forall n {:trigger RedShortAt(n, odd)} :: n in nodes ==> RedShortAt(n, odd)
    {
      hide Indexed, Removed;
      assert old(LinkAt(node)) && old(RedAt(node, null)) && old(BhAt(node));
      if temp in nodes { assert old(BhAt(temp)); }
      forall n {:trigger RedShortAt(n, odd)} | n in nodes ensures RedShortAt(n, odd) {
        assert old(RedAt(n, null)) && old(LinkAt(n));
      }
    }

    twostate lemma CutOutColours(node: Node, new temp: Node)
      requires node in old(nodes) && old(Valid()) && (temp in old(nodes) || temp == old(sentinel)) && CutOut(node, temp)
      requires sentinel.color == Black
      ensures DeleteInv(if old(node.color) == Black then temp else root) && !IsRed(root)
    {
      hide Indexed, Removed, Sorted;
      CutOutLinks(node, temp);
      var odd := if old(node.color) == Black then temp else root;
      CutOutBh(node, temp, odd);
      CutOutRed(node, temp, odd);
      assert old(LinkAt(node)) && old(BhAt(node)) && old(LinkAt(node.parent)) && old(BhAt(node.parent))
        && LinkAt(old(node.parent));
      if temp in nodes { assert LinkAt(temp); }
    }

    /** Among the nodes `all`, `temp` hangs where `subst` was and `subst` where `node` was. */
    twostate predicate Replaced(node: Node, new subst: Node, new temp: Node, new all: set<Node>)
      reads this`root, temp`parent, subst`left, subst`right, subst`parent, subst`color, all`left, all`right, all`parent,
            all`color
      requires subst in old(nodes) && all <= old(nodes)
    {
      var q := old(subst.parent);
      && root == (if old(root) == node then subst else old(root))
      && subst.left == old(node.left) && subst.right == (if q == node then temp else old(node.right))
      && (old(root) != node ==> subst.parent == old(node.parent)) && subst.color == old(node.color)
      && temp.parent == (if q == node then subst else q)
      && (forall n {:trigger n.left} :: n in all && n != subst ==>
            n.left == (if old(n.left) == subst then temp else if old(n.left) == node then subst else old(n.left)))
      && (forall n {:trigger n.right} :: n in all && n != subst ==>
            n.right == (if old(n.right) == node then subst else old(n.right)))
      && (forall n {:trigger n.parent} :: n in all && n != subst && n != temp ==>
            n.parent == (if n == old(node.left) || n == old(node.right) then subst else old(n.parent)))
      && (forall n {:trigger n.color} :: n in all && n != subst ==> n.color == old(n.color))
    }

    /** `node` has two children; `subst`, the next node of the order, was cut out, leaving its
        right child `temp` in its place, and took over the place and the colour of `node`. */
    twostate predicate Substituted(node: Node, new subst: Node, new temp: Node)
      reads this, nodes, temp
      requires node in old(nodes) && subst in old(nodes) && old(Links())
        && (temp in old(nodes) || temp == old(sentinel))
    {
      var q, k := old(subst.parent), old(subst.ix);
      && old(node.left != sentinel && node.right != sentinel && k == node.ix + 1)
      && old(subst.left == sentinel && subst.right == temp)
      && nodes == old(nodes) - {node} && sentinel == old(sentinel)
      && Removed(node)
      && Replaced(node, subst, temp, old(nodes) - {node})
      && Closed(k, old(nodes) - {node} - {subst})
      && subst.lo == old(node.lo) && subst.ix == old(node.ix) && subst.hi == old(node.hi) - 1
      && subst.bh == old(node.bh)
      && (forall n {:trigger n.bh} :: n in nodes && n != subst ==> n.bh == old(n.bh))
    }

    twostate lemma SubstitutedIndexed(node: Node, new subst: Node, new temp: Node)
      requires node in old(nodes) && subst in old(nodes) && old(Links())
        && (temp in old(nodes) || temp == old(sentinel))
      requires Substituted(node, subst, temp)
      ensures Indexed() && |order| == |old(order)| - 1
      ensures forall n {:trigger n in nodes} :: n in nodes && n != subst ==>
        old(n.ix) != old(node.ix) && old(n.ix) != old(subst.ix)
    {
      hide LinkAt;
      forall i | 0 <= i < |order| ensures order[i] in nodes && order[i].ix == i {
        assert order[i] == if i < old(node.ix) then old(order)[i] else old(order)[i + 1];
      }
    }

    twostate lemma SubstitutedHangs(node: Node, new subst: Node, new temp: Node)
      requires node in old(nodes) && subst in old(nodes) && old(Links())
        && (temp in old(nodes) || temp == old(sentinel))
      requires Substituted(node, subst, temp)
      ensures forall n {:trigger HangsAt(n)} :: n in nodes && n != subst ==> HangsAt(n)
    {
      hide Indexed, Removed, Closed;
      SubstitutedIndexed(node, subst, temp);
      assert old(LinkAt(node)) && old(LinkAt(subst)) && old(LinkAt(subst.parent));
      assert old(subst.parent) == node || (old(subst.parent) in nodes && old(subst.parent.left) == subst);
      forall n {:trigger HangsAt(n)} | n in nodes && n != subst
        ensures HangsAt(n)
      {
        assert old(LinkAt(n));
      }
    }

    twostate lemma SubstitutedLinkBelow(node: Node, new subst: Node, new temp: Node, new n: Node)
      requires node in old(nodes) && subst in old(nodes) && old(Links())
        && (temp in old(nodes) || temp == old(sentinel))
      requires Substituted(node, subst, temp)
      requires n in old(nodes) && n in nodes && n != subst && HangsAt(n) && n == old(subst.parent)
      ensures LinkAt(n)
    {
      hide Indexed, Removed, HangsAt;
      SubstitutedIndexed(node, subst, temp);
      assert old(LinkAt(node)) && old(LinkAt(subst)) && old(LinkAt(node.right)) && old(LinkAt(n));
    }

    twostate lemma SubstitutedLinkAbove(node: Node, new subst: Node, new temp: Node, new n: Node)
      requires node in old(nodes) && subst in old(nodes) && old(Links())
        && (temp in old(nodes) || temp == old(sentinel))
      requires Substituted(node, subst, temp)
      requires n in old(nodes) && n in nodes && n != subst && HangsAt(n)
      requires n != old(subst.parent) && (old(n.left) == node || old(n.right) == node)
      ensures LinkAt(n)
    {
      hide Indexed, Removed, HangsAt;
      SubstitutedIndexed(node, subst, temp);
      assert old(LinkAt(node)) && old(LinkAt(subst)) && old(LinkAt(node.right)) && old(LinkAt(n));
    }

    twostate lemma SubstitutedLinkAt(node: Node, new subst: Node, new temp: Node, new n: Node)
      requires node in old(nodes) && subst in old(nodes) && old(Links())
        && (temp in old(nodes) || temp == old(sentinel))
      requires Substituted(node, subst, temp)
      requires n in old(nodes) && n in nodes && n != subst && HangsAt(n)
      requires n != old(subst.parent) && old(n.left) != node && old(n.right) != node
      ensures LinkAt(n)
    {
      hide Indexed, Removed, HangsAt;
      SubstitutedIndexed(node, subst, temp);
      assert old(LinkAt(node)) && old(LinkAt(subst)) && old(LinkAt(node.right)) && old(LinkAt(n));
    }

    twostate lemma SubstitutedLinkHere(node: Node, new subst: Node, new temp: Node)
      requires node in old(nodes) && subst in old(nodes) && old(Links())
        && (temp in old(nodes) || temp == old(sentinel))
      requires Substituted(node, subst, temp)
      ensures LinkAt(subst)
    {
      hide Indexed, Removed;
      SubstitutedIndexed(node, subst, temp);
      assert old(LinkAt(node)) && old(LinkAt(subst)) && old(LinkAt(node.left)) && old(LinkAt(node.right));
      if node != old(root) { assert old(LinkAt(node.parent)); }
    }

    twostate lemma SubstitutedLinks(node: Node, new subst: Node, new temp: Node)
      requires node in old(nodes) && subst in old(nodes) && old(Links())
        && (temp in old(nodes) || temp == old(sentinel))
      requires Substituted(node, subst, temp)
      ensures Links()
    {
      SubstitutedIndexed(node, subst, temp);
      SubstitutedHangs(node, subst, temp);
      SubstitutedLinkHere(node, subst, temp);
      forall n {:trigger LinkAt(n)} | n in nodes && n != subst ensures LinkAt(n) {
        if n == old(subst.parent) {
          SubstitutedLinkBelow(node, subst, temp, n);
        } else if old(n.left) == node || old(n.right) == node {
          SubstitutedLinkAbove(node, subst, temp, n);
        } else {
          SubstitutedLinkAt(node, subst, temp, n);
        }
      }
      assert old(LinkAt(root));
    }

    twostate lemma SubstitutedBhHere(node: Node, new subst: Node, new temp: Node, new odd: Node)
      requires node in old(nodes) && subst in old(nodes) && old(Valid())
        && (temp in old(nodes) || temp == old(sentinel))
      requires Substituted(node, subst, temp) && Links()
      requires odd == (if old(subst.color) == Black then temp else root)
      ensures BhShortAt(subst, odd)
    {
      hide Indexed, Removed, RedAt, Sorted, Closed;
      assert old(LinkAt(node)) && old(LinkAt(subst)) && old(BhAt(node)) && old(BhAt(subst)) && LinkAt(subst);
      if temp in nodes { assert LinkAt(temp); }
    }

    twostate lemma SubstitutedBhAt(node: Node, new subst: Node, new temp: Node, new odd: Node, new n: Node)
      requires node in old(nodes) && subst in old(nodes) && old(Valid())
        && (temp in old(nodes) || temp == old(sentinel))
      requires Substituted(node, subst, temp) && Links()
      requires odd == (if old(subst.color) == Black then temp else root)
      requires n in old(nodes) && n in nodes && n != subst
      ensures BhShortAt(n, odd)
    {
      hide Indexed, Removed, RedAt, Sorted, Closed;
      assert old(LinkAt(node)) && old(LinkAt(subst)) && old(BhAt(node)) && old(BhAt(subst));
      if temp in nodes { assert LinkAt(temp); }
      assert old(BhAt(n)) && old(LinkAt(n)) && LinkAt(n);
    }

    twostate lemma SubstitutedBh(node: Node, new subst: Node, new temp: Node, new odd: Node)
      requires node in old(nodes) && subst in old(nodes) && old(Valid())
        && (temp in old(nodes) || temp == old(sentinel))
      requires Substituted(node, subst, temp) && Links()
      requires odd == (if old(subst.color) == Black then temp else root)
      ensures forall n {:trigger BhShortAt(n, odd)} :: n in nodes ==> BhShortAt(n, odd)
    {
      hide Links, LinkAt, Indexed, Removed, BhAt, BhShortAt, RedAt, Sorted, Closed;
      forall n {:trigger BhShortAt(n, odd)} | n in nodes ensures BhShortAt(n, odd) {
        if n == subst {
          SubstitutedBhHere(node, subst, temp, odd);
        } else {
          SubstitutedBhAt(node, subst, temp, odd, n);
        }
      }
    }

    twostate lemma SubstitutedRed(node: Node, new subst: Node, new temp: Node, new odd: Node)
      requires node in old(nodes) && subst in old(nodes) && old(Valid())
        && (temp in old(nodes) || temp == old(sentinel))
      requires Substituted(node, subst, temp) && Links()
      requires odd == (if old(subst.color) == Black then temp else root)
      ensures forall n {:trigger RedShortAt(n, odd)} :: n in nodes ==> RedShortAt(n, odd)
    {
      hide Indexed, Removed, Sorted, Closed;
      SubstitutedIndexed(node, subst, temp);
      assert old(LinkAt(node)) && old(LinkAt(subst)) && old(RedAt(node, null)) && old(RedAt(subst, null))
        && old(BhAt(subst));
      if temp in nodes { assert old(BhAt(temp)); }
      forall n {:trigger RedShortAt(n, odd)} | n in nodes ensures RedShortAt(n, odd) {
        assert old(RedAt(n, null)) && old(LinkAt(n));
      }
    }

    twostate lemma SubstitutedColours(node: Node, new subst: Node, new temp: Node)
      requires node in old(nodes) && subst in old(nodes) && old(Valid())
        && (temp in old(nodes) || temp == old(sentinel))
      requires Substituted(node, subst, temp) && sentinel.color == Black
      ensures DeleteInv(if old(subst.color) == Black then temp else root) && !IsRed(root)
    {
      hide Indexed, Removed, Sorted, Closed;
      SubstitutedLinks(node, subst, temp);
      var odd := if old(subst.color) == Black then temp else root;
      SubstitutedBh(node, subst, temp, odd);
      SubstitutedRed(node, subst, temp, odd);
      assert old(LinkAt(node)) && old(LinkAt(subst)) && LinkAt(temp.parent);
      assert old(BhAt(subst)) && old(BhAt(subst.parent)) && old(LinkAt(subst.parent));
      if temp in nodes { assert LinkAt(temp); }
    }

    /** What the deletion knows of a node to be cut out: it has at most one child. */
    lemma OneChildAt(node: Node)
      requires Links() && node in nodes && node != root
      ensures node.parent != null && node.parent in nodes && node.parent != node
      ensures (node.parent.left == node) != (node.parent.right == node)
      ensures node.left != null && node.right != null && node.left in nodes + {sentinel}
        && node.right in nodes + {sentinel}
      ensures sentinel !in nodes && node.left != node && node.right != node && node.left != node.parent
        && node.right != node.parent
      ensures 0 <= node.ix < |order|
      ensures forall n {:trigger n.left} :: n in nodes && n.left == node ==> n == node.parent
      ensures forall n {:trigger n.right} :: n in nodes && n.right == node ==> n == node.parent
    {
      assert LinkAt(node) && LinkAt(node.parent);
      forall n | n in nodes ensures (n.left == node ==> n == node.parent) && (n.right == node ==> n == node.parent) {
        assert LinkAt(n);
      }
    }

    method UnhookOnly(node: Node, temp: Node)
      requires Links() && node in nodes && node != root && node.parent != null && temp in nodes + {sentinel}
        && temp != node
      modifies nodes`left, nodes`right, temp`parent
      ensures Unhooked(node, temp, nodes - {node})
    {
      hide Links, LinkAt, Indexed;
      OneChildAt(node);
      if node == node.parent.left {
        node.parent.left := temp;
      } else {
        node.parent.right := temp;
      }
      temp.parent := node.parent;
    }

    /** Cuts out a node with at most one child. */
    method CutOutNode(node: Node, temp: Node)
      requires Valid() && node in nodes && node != root && temp in nodes + {sentinel}
      requires (node.left == sentinel && node.right == temp) || (node.right == sentinel && node.left == temp)
      modifies this`nodes, this`order, nodes`left, nodes`right, temp`parent, nodes`lo, nodes`ix, nodes`hi
      ensures nodes == old(nodes) - {node} && Removed(node)
      ensures DeleteInv(if old(node.color) == Black then temp else root) && !IsRed(root)
    {
      hide LinkAt, Indexed, BhAt, RedAt, IsRed, Blacks, Sorted, DeleteInv, Unhooked;
      OneChildAt(node);
      ghost var k, rest := node.ix, nodes - {node};
      UnhookOnly(node, temp);
      CloseSlot(k, rest);
      nodes, order := rest, order[..k] + order[k + 1..];
      CutOutColours(node, temp);
    }

    /** What the deletion knows of a node with two children and its successor. */
    lemma SuccessorOnly(node: Node, subst: Node)
      requires Links() && node in nodes && node.left != sentinel && node.right != sentinel
      requires subst in nodes && subst.ix == node.ix + 1 && subst.left == sentinel
      ensures forall n {:trigger n.left} :: n in nodes ==>
        (n.left == node ==> n == node.parent && node != root) && (n.left == subst ==> n == subst.parent)
      ensures forall n {:trigger n.right} :: n in nodes ==>
        && (n.right == node ==> n == node.parent && node != root)
        && (n.right == subst ==> n == node && subst.parent == node)
    {
      assert LinkAt(node) && LinkAt(subst);
      forall n | n in nodes
        ensures n.left == node ==> n == node.parent && node != root
        ensures n.right == node ==> n == node.parent && node != root
        ensures (n.left == subst ==> n == subst.parent) && (n.right == subst ==> n == node && subst.parent == node)
      {
        assert LinkAt(n);
      }
    }

    lemma SuccessorAt(node: Node, subst: Node)
      requires Links() && node in nodes && node.left != sentinel && node.right != sentinel
      requires subst in nodes && subst.ix == node.ix + 1 && subst.left == sentinel
      ensures node.left != null && node.right != null && node.left in nodes && node.right in nodes
        && node.left != node.right
      ensures subst != node && subst != root && subst != node.left
      ensures subst.right != null && subst.right in nodes + {sentinel} && subst.right != node.left
        && subst.right != node.right && subst.right != node && subst.right != subst
      ensures subst.parent != null && subst.parent in nodes && subst.parent != subst
        && subst.parent.left != subst.parent.right
      ensures if subst.parent == node then node.right == subst else subst.parent.left == subst && subst != node.right
      ensures subst.right != subst.parent
      ensures node != root ==> (
        && node.parent != null && node.parent in nodes && node.parent != node && node.parent != subst
        && node.parent != node.left && node.parent != node.right && node.parent != subst.parent
        && (node.parent.left == node) != (node.parent.right == node))
      ensures subst.parent != node.left
      ensures sentinel !in nodes && 0 <= node.ix < |order| && 0 <= subst.ix < |order|
      ensures forall n {:trigger n.left} :: n in nodes ==>
        (n.left == node ==> n == node.parent && node != root) && (n.left == subst ==> n == subst.parent)
      ensures forall n {:trigger n.right} :: n in nodes ==>
        && (n.right == node ==> n == node.parent && node != root)
        && (n.right == subst ==> n == node && subst.parent == node)
    {
      SuccessorOnly(node, subst);
      assert subst.right in nodes ==> LinkAt(subst.right);
      assert LinkAt(node) && LinkAt(subst) && LinkAt(subst.parent) && LinkAt(node.left) && LinkAt(node.right);
      if node != root { assert LinkAt(node.parent); }
    }

    /** Takes the successor `subst` out of its place. */
    method UnhookSuccessor(node: Node, subst: Node, temp: Node)
      requires subst.parent != null && subst.parent.left != subst.parent.right && temp != subst && temp != subst.parent
        && subst != subst.parent
      requires if subst.parent == node then node.right == subst else subst.parent.left == subst
      modifies {subst.parent}`left, {subst.parent}`right, temp`parent
      ensures temp.parent == (if old(subst.parent) == node then subst else old(subst.parent))
      ensures var q := old(subst.parent);
        if q == node then q.left == old(q.left) && q.right == temp else q.left == temp && q.right == old(q.right)
    {
      if subst == subst.parent.left {
        subst.parent.left := temp;
      } else {
        subst.parent.right := temp;
      }
      if subst.parent == node {
        temp.parent := subst;
      } else {
        temp.parent := subst.parent;
      }
    }

    /** Puts `subst` in the place of `node`. */
    method TakePlace(node: Node, subst: Node)
      requires node.left != null && node.right != null && node.left != node.right
      requires node != subst && subst != node.left && subst != node.right && node.left != node && node.right != node
      requires node != root ==> node.parent != null && node.parent != subst && node.parent != node
      modifies this`root, Above(node)`left, Above(node)`right, subst`left, subst`right, subst`parent, subst`color,
               {node.left} - {sentinel}`parent, {node.right} - {sentinel}`parent
      ensures subst.left == old(node.left) && subst.right == old(node.right) && subst.parent == old(node.parent)
        && subst.color == old(node.color)
      ensures old(node.left) != sentinel ==> old(node.left).parent == subst
      ensures old(node.right) != sentinel ==> old(node.right).parent == subst
      ensures if old(root) == node then root == subst else
        && root == old(root)
        && old(node.parent).left == (if old(node.parent.left) == node then subst else old(node.parent.left))
        && old(node.parent).right == (if old(node.parent.left) == node then old(node.parent.right) else subst)
    {
      subst.left := node.left;
      subst.right := node.right;
      subst.parent := node.parent;
      subst.color := node.color;
      Supplant(node, subst);
      if subst.left != sentinel {
        subst.left.parent := subst;
      }
      if subst.right != sentinel {
        subst.right.parent := subst;
      }
    }

    ghost method TakeSpan(k: int, rest: set<Node>, node: Node, subst: Node)
      requires subst in rest && node !in rest
      modifies rest`lo, rest`ix, rest`hi, subst`bh
      ensures Closed(k, rest - {subst})
      ensures subst.lo == node.lo && subst.ix == node.ix && subst.hi == node.hi - 1 && subst.bh == node.bh
    {
      CloseSlot(k, rest - {subst});
      subst.lo, subst.ix, subst.hi, subst.bh := node.lo, node.ix, node.hi - 1, node.bh;
    }

    method ReplacePointers(node: Node, subst: Node, temp: Node)
      requires Links() && node in nodes && node.left != sentinel && node.right != sentinel
      requires subst in nodes && subst.ix == node.ix + 1 && subst.left == sentinel && subst.right == temp
      modifies this`root, nodes`left, nodes`right, nodes`parent, nodes`color, temp`parent
      ensures Replaced(node, subst, temp, nodes - {node})
    {
      hide Links, LinkAt, Indexed;
      SuccessorAt(node, subst);
      UnhookSuccessor(node, subst, temp);
      TakePlace(node, subst);
    }

    /** Cuts out a node with two children: its successor takes its place. */
    method SubstituteNode(node: Node, subst: Node, temp: Node)
      requires Valid() && node in nodes && node.left != sentinel && node.right != sentinel
      requires subst in nodes && subst.ix == node.ix + 1 && subst.left == sentinel && subst.right == temp
      modifies this`root, this`nodes, this`order, nodes`left, nodes`right, nodes`parent, nodes`color, temp`parent,
               nodes`lo, nodes`ix, nodes`hi, nodes`bh
      ensures nodes == old(nodes) - {node} && Removed(node)
      ensures DeleteInv(if old(subst.color) == Black then temp else root) && !IsRed(root)
    {
      hide LinkAt, Indexed, BhAt, RedAt, IsRed, Blacks, Sorted, DeleteInv, Replaced;
      SuccessorAt(node, subst);
      ghost var i, k, rest := node.ix, subst.ix, nodes - {node};
      ReplacePointers(node, subst, temp);
      TakeSpan(k, rest, node, subst);
      nodes, order := rest, order[..i] + order[i + 1..];
      SubstitutedColours(node, subst, temp);
    }

    twostate lemma RemovedSorted(node: Node)
      requires node in old(nodes) && old(Links()) && old(Sorted())
      requires Removed(node) && 0 <= old(node.ix) < |old(order)|
      requires forall i :: 0 <= i < |order| ==> order[i] in nodes
      requires forall n {:trigger n.key} :: n in nodes ==> n in old(nodes) && n.key == old(n.key)
      ensures Sorted()
    {
      hide LinkAt;
      var k := old(node.ix);
      forall i, j | 0 <= i <= j < |order| ensures order[i].key <= order[j].key {
        assert order[i] == if i < k then old(order)[i] else old(order)[i + 1];
        assert order[j] == if j < k then old(order)[j] else old(order)[j + 1];
      }
    }

    /** Blackening `temp` ends a deletion. */
    twostate lemma DeleteDone(temp: Node)
      requires old(DeleteInv(temp)) && old(temp in nodes && (temp == root || temp.color == Red))
      requires nodes == old(nodes) && root == old(root) && sentinel == old(sentinel) && sentinel.color == Black
        && Links()
      requires temp.parent == old(temp.parent) && temp.color == Black
      requires forall n {:trigger n.left} {:trigger n.right} :: n in nodes ==>
        n.left == old(n.left) && n.right == old(n.right)
      requires forall n {:trigger n.bh} :: n in nodes ==> n.bh == old(n.bh)
      requires forall n {:trigger n.color} :: n in nodes && n != temp ==> n.color == old(n.color)
      requires Sorted()
      ensures Valid()
    {
      hide Indexed, Sorted;
      assert old(LinkAt(temp)) && old(LinkAt(root));
      forall n {:trigger BhAt(n)} | n in nodes ensures BhAt(n) {
        assert old(BhShortAt(n, temp)) && old(LinkAt(n));
      }
      forall n {:trigger RedAt(n, null)} | n in nodes ensures RedAt(n, null) {
        assert old(RedShortAt(n, temp)) && old(LinkAt(n));
      }
    }

    /** With the root black and nothing missing, nothing is left to do. */
    lemma DeleteSettled()
      requires DeleteInv(root) && !IsRed(root) && Sorted()
      ensures Valid()
    {
      hide Indexed, Sorted, LinkAt;
      forall n {:trigger BhAt(n)} | n in nodes ensures BhAt(n) {
        assert BhShortAt(n, root);
      }
      forall n {:trigger RedAt(n, null)} | n in nodes ensures RedAt(n, null) {
        assert RedShortAt(n, root) && LinkAt(n);
      }
      RootHasNoParent();
    }

    lemma RootHasNoParent()
      requires Links()
      ensures forall n {:trigger n.left} {:trigger n.right} :: n in nodes ==> n.left != root && n.right != root
    {
      forall n | n in nodes ensures n.left != root && n.right != root {
        assert LinkAt(n);
      }
    }

    lemma DeleteInvBasics(temp: Node)
      requires DeleteInv(temp)
      ensures Links() && Indexed() && root in nodes && sentinel !in nodes && sentinel.color == Black
      ensures temp in nodes || (temp == sentinel && temp != root)
      ensures temp != root ==> temp.parent != null
      ensures temp in nodes ==> 0 < temp.hi - temp.lo <= |order|
    {
      if temp in nodes { assert LinkAt(temp); }
    }

    /** The root, which has at most one child, gives way to that child. */
    /** What removing the root `node` leaves when its only child `temp`, black by now, has become the root. */
    twostate predicate RootGone(node: Node, new temp: Node)
      reads this, nodes, sentinel, temp
      requires node in old(nodes) && old(Valid()) && (temp in old(nodes) || temp == old(sentinel))
    {
      && node == old(root)
      && old((node.left == sentinel && node.right == temp) || (node.right == sentinel && node.left == temp))
      && nodes == old(nodes) - {node} && root == temp && sentinel == old(sentinel) && sentinel.color == Black
      && Removed(node) && Closed(old(node.ix), nodes) && temp.color == Black
      && (forall n {:trigger n.left} {:trigger n.right} {:trigger n.parent} :: n in nodes ==>
            n.left == old(n.left) && n.right == old(n.right) && n.parent == old(n.parent))
      && (forall n {:trigger n.bh} :: n in nodes ==> n.bh == old(n.bh))
      && (forall n {:trigger n.color} :: n in nodes && n != temp ==> n.color == old(n.color))
      && (forall n {:trigger n.key} :: n in nodes ==> n.key == old(n.key))
    }

    twostate lemma RootRemovedLinks(node: Node, new temp: Node)
      requires node in old(nodes) && old(Valid()) && (temp in old(nodes) || temp == old(sentinel))
      requires RootGone(node, temp)
      ensures Links()
    {
      hide Sorted, Removed, BhAt, RedAt;
      RemovedIndexed(node);
      hide Indexed;
      assert old(LinkAt(node));
      if temp in nodes { assert old(LinkAt(temp)); }
      forall n {:trigger LinkAt(n)} | n in nodes ensures LinkAt(n) {
        assert old(LinkAt(n));
      }
    }

    twostate lemma RootRemovedBh(node: Node, new temp: Node)
      requires node in old(nodes) && old(Valid()) && (temp in old(nodes) || temp == old(sentinel))
      requires RootGone(node, temp)
      ensures forall n {:trigger BhAt(n)} :: n in nodes ==> BhAt(n)
    {
      hide Sorted, Removed, Indexed, RedAt;
      assert old(LinkAt(node));
      forall n {:trigger BhAt(n)} | n in nodes ensures BhAt(n) {
        assert old(BhAt(n)) && old(LinkAt(n));
      }
    }

    twostate lemma RootRemoved(node: Node, new temp: Node)
      requires node in old(nodes) && old(Valid()) && (temp in old(nodes) || temp == old(sentinel))
      requires RootGone(node, temp)
      ensures Valid()
    {
      hide Sorted, Removed, BhAt, Blacks;
      RootRemovedLinks(node, temp);
      RootRemovedBh(node, temp);
      hide Indexed;
      RemovedSorted(node);
      forall n {:trigger RedAt(n, null)} | n in nodes ensures RedAt(n, null) {
        assert old(RedAt(n, null)) && old(LinkAt(n));
      }
    }

    lemma RootIndex()
      requires Links() && root in nodes
      ensures 0 <= root.ix < |order|
    {
    }

    method RemoveRoot(node: Node, temp: Node)
      requires Valid() && node in nodes && node == root && (temp in nodes || temp == sentinel)
      requires (node.left == sentinel && node.right == temp) || (node.right == sentinel && node.left == temp)
      modifies this`root, this`nodes, this`order, temp`color, nodes`lo, nodes`ix, nodes`hi
      ensures Valid() && nodes == old(nodes) - {node} && Removed(node)
    {
      hide LinkAt, BhAt, RedAt, Sorted, IsRed, Blacks, Indexed, Closed;
      assert 0 <= node.ix < |order| by { RootIndex(); }
      ghost var k, rest := node.ix, nodes - {node};
      CloseSlot(k, rest);
      root := temp;
      temp.color := Black;
      nodes, order := rest, order[..k] + order[k + 1..];
      RootRemoved(node, temp);
    }

    /** One turn of the re-balancing loop of a deletion. */
    method DeleteTurn(temp: Node) returns (next: Node)
      requires DeleteInv(temp) && temp != root && temp.color == Black && temp.parent != null
      modifies this`root, nodes`left, nodes`right, nodes`parent, nodes`color, nodes`lo, nodes`hi, nodes`bh
      ensures DeleteInv(next) && next in nodes && (next != root ==> next.parent != null)
      ensures old(if temp in nodes then temp.hi - temp.lo else 0) < next.hi - next.lo <= |order|
    {
      hide Links, LinkAt, Indexed, BhShortAt, RedShortAt, RedAt, BhAt, Blacks, DeleteInv;
      DeleteInvAt(temp);
      if temp == temp.parent.left {
        next := DeleteFixLeft(temp);
      } else {
        next := DeleteFixRight(temp);
      }
      DeleteInvBasics(next);
    }

    /** The re-balancing loop of a deletion. */
    method DeleteFixup(start: Node)
      requires DeleteInv(start) && Indexed() && Sorted()
      modifies this`root, nodes`left, nodes`right, nodes`parent, nodes`color, nodes`lo, nodes`hi, nodes`bh
      ensures Valid()
    {
      hide Links, LinkAt, BhAt, RedAt, BhShortAt, RedShortAt, IsRed, Blacks, DeleteInv, Rotated, Sorted, Valid;
      var temp := start;
      DeleteInvBasics(temp);
      while temp != root && temp.color == Black
        invariant DeleteInv(temp) && Indexed() && Sorted()
        invariant temp != root ==> temp.parent != null
        invariant temp in nodes ==> 0 < temp.hi - temp.lo <= |order|
        decreases |order| - (if temp in nodes then temp.hi - temp.lo else 0)
      {
        temp := DeleteTurn(temp);
      }
      DeleteInvBasics(temp);
      label L:
      temp.color := Black;
      DeleteDone@L(temp);
    }

    /** Chooses the node that is cut out for `node`: the node itself when a child is missing,
        else its successor. */
    method ChooseSubst(node: Node) returns (subst: Node, temp: Node)
      requires Links() && node in nodes
      ensures subst in nodes && temp in nodes + {sentinel} && temp != node && temp != subst
      ensures if node.left == sentinel || node.right == sentinel then
                && subst == node
                && ((node.left == sentinel && node.right == temp) || (node.right == sentinel && node.left == temp))
              else subst.ix == node.ix + 1 && subst.left == sentinel && subst.right == temp
    {
      assert LinkAt(node);
      assert node.left in nodes ==> LinkAt(node.left);
      assert node.right in nodes ==> LinkAt(node.right);
      if node.left == sentinel {
        temp := node.right;
        subst := node;
      } else if node.right == sentinel {
        temp := node.left;
        subst := node;
      } else {
        subst := Min(node.right);
        assert LinkAt(subst);
        assert subst.right in nodes ==> LinkAt(subst.right);
        var l, r := subst.left, subst.right;
        var child: Node? := if l != sentinel then l else r;
        temp := child;
      }
    }

    method CutOutAny(node: Node, subst: Node, temp: Node) returns (red: bool)
      requires Valid() && node in nodes && subst in nodes && temp in nodes + {sentinel} && subst != root
      requires if node.left == sentinel || node.right == sentinel then
                && subst == node
                && ((node.left == sentinel && node.right == temp) || (node.right == sentinel && node.left == temp))
              else subst.ix == node.ix + 1 && subst.left == sentinel && subst.right == temp
      modifies this`root, this`nodes, this`order, nodes`left, nodes`right, nodes`parent, nodes`color, temp`parent,
               nodes`lo, nodes`ix, nodes`hi, nodes`bh
      ensures nodes == old(nodes) - {node} && Removed(node)
      ensures DeleteInv(if red then root else temp) && (red ==> !IsRed(root))
      ensures Indexed() && Sorted() && root in nodes && sentinel.color == Black && sentinel !in nodes
    {
      hide LinkAt, BhAt, RedAt, BhShortAt, RedShortAt, IsRed, Blacks, DeleteInv, Sorted;
      red := subst.color == Red;
      if subst == node {
        CutOutNode(node, temp);
      } else {
        SubstituteNode(node, subst, temp);
      }
      DeleteInvBasics(if red then root else temp);
      RemovedSorted(node);
    }

    method Clear(node: Node)
      modifies node`left, node`right, node`parent, node`key
      ensures node.left == null && node.right == null && node.parent == null && node.key == 0
    {
      node.left := null;
      node.right := null;
      node.parent := null;
      node.key := 0;
    }

    /** rbtree_delete: exactly `node` leaves the order, and the tree stays a red-black tree. */
    method Delete(node: Node)
      requires Valid() && node in nodes
      modifies this`root, this`nodes, this`order, node`key, sentinel`parent, sentinel`color,
               nodes`left, nodes`right, nodes`parent, nodes`color, nodes`lo, nodes`ix, nodes`hi, nodes`bh
      ensures Valid() && nodes == old(nodes) - {node}
      ensures 0 <= old(node.ix) < old(|order|) && old(order[node.ix]) == node
      ensures order == old(order)[..old(node.ix)] + old(order)[old(node.ix) + 1..]
      ensures node.left == null && node.right == null && node.parent == null && node.key == 0
    {
      hide LinkAt, BhAt, RedAt, BhShortAt, RedShortAt, IsRed, Blacks, DeleteInv, Sorted;
      var subst, temp := ChooseSubst(node);
      if subst == root {
        SuccessorNotRoot(node, subst);
        RemoveRoot(node, temp);
        Clear(node);
        return;
      }
      var red := CutOutAny(node, subst, temp);
      Clear(node);
      if red {
        DeleteSettled();
        return;
      }
      DeleteFixup(temp);
    }

    lemma SuccessorNotRoot(node: Node, subst: Node)
      requires Links() && node in nodes && subst in nodes && subst == root
      requires if node.left == sentinel || node.right == sentinel then subst == node
               else subst.ix == node.ix + 1 && subst.left == sentinel
      ensures subst == node
    {
      assert LinkAt(node) && LinkAt(subst);
    }

    // ---------- what a valid tree is, without the ghost fields ----------

    /** The nodes below `c` from left to right. */
    ghost function InOrder(c: Node): seq<Node>
      reads this, nodes, sentinel
      requires Links() && (c in nodes || c == sentinel)
      decreases if c in nodes then c.hi - c.lo else 0
    {
      if c == sentinel then []
      else
        assert LinkAt(c);
        assert c.left != sentinel ==> LinkAt(c.left);
        assert c.right != sentinel ==> LinkAt(c.right);
        InOrder(c.left) + [c] + InOrder(c.right)
    }

    lemma {:induction false} InOrderIsSlice(c: Node)
      requires Links() && c in nodes
      ensures 0 <= c.lo <= c.hi <= |order| && InOrder(c) == order[c.lo..c.hi]
      decreases c.hi - c.lo
    {
      assert order[c.ix] == c;
      hide Indexed;
      assert LinkAt(c);
      if c.left != sentinel { assert LinkAt(c.left); InOrderIsSlice(c.left); }
      if c.right != sentinel { assert LinkAt(c.right); InOrderIsSlice(c.right); }
      SliceSplit(order, c.lo, c.ix, c.hi);
    }

    /** The ghost sequence is what a walk over the left and right links visits. */
    lemma InOrderIsOrder()
      requires Links()
      ensures InOrder(root) == order
    {
      if root != sentinel { InOrderIsSlice(root); }
    }

    /** `path` (true for left) leads from `c` down to the sentinel. */
    ghost predicate Leads(c: Node, path: seq<bool>)
      reads this, nodes, sentinel
      requires Links() && (c in nodes || c == sentinel)
      decreases path
    {
      if c == sentinel then path == []
      else path != [] && (assert LinkAt(c); Leads(if path[0] then c.left else c.right, path[1..]))
    }

    /** The black nodes on the way, both ends included. */
    ghost function BlacksOn(c: Node, path: seq<bool>): int
      reads this, nodes, sentinel
      requires Links() && (c in nodes || c == sentinel) && Leads(c, path)
      decreases path
    {
      (if c.color == Black then 1 else 0)
      + if c == sentinel then 0 else (assert LinkAt(c); BlacksOn(if path[0] then c.left else c.right, path[1..]))
    }

    /** Every path from a node to the sentinel meets the same number of black nodes. */
    lemma {:induction false} PathsAgree(c: Node, path: seq<bool>)
      requires Valid() && (c in nodes || c == sentinel) && Leads(c, path)
      ensures BlacksOn(c, path) == Blacks(c)
      decreases path
    {
      if c != sentinel {
        assert LinkAt(c) && BhAt(c);
        PathsAgree(if path[0] then c.left else c.right, path[1..]);
      }
    }

    /** The nodes on the longest path from `c` down. */
    ghost function Height(c: Node): nat
      reads this, nodes, sentinel
      requires Links() && (c in nodes || c == sentinel)
      decreases if c in nodes then c.hi - c.lo else 0
    {
      if c == sentinel then 0
      else
        assert LinkAt(c);
        assert c.left != sentinel ==> LinkAt(c.left);
        assert c.right != sentinel ==> LinkAt(c.right);
        1 + Max(Height(c.left), Height(c.right))
    }

    /** A subtree has at least the nodes of a complete tree of its black height. */
    lemma {:induction false} SizeAtLeast(c: Node)
      requires Valid() && c in nodes
      ensures Pow2(c.bh) <= c.hi - c.lo + 1
      decreases c.hi - c.lo
    {
      hide Indexed, Sorted, HangsAt, RedAt;
      assert LinkAt(c) && BhAt(c);
      Pow2Grows(c.bh);
      if c.left != sentinel {
        assert LinkAt(c.left) && BhAt(c.left);
        SizeAtLeast(c.left);
        Pow2Grows(c.left.bh + 1);
      }
      if c.right != sentinel {
        assert LinkAt(c.right) && BhAt(c.right);
        SizeAtLeast(c.right);
        Pow2Grows(c.right.bh + 1);
      }
    }

    /** At least every other node on a way down is black. */
    lemma {:induction false} HeightAtMost(c: Node)
      requires Valid() && c in nodes
      ensures Height(c) <= 2 * c.bh - (if c.color == Red then 1 else 0)
      decreases c.hi - c.lo
    {
      hide Indexed, Sorted, HangsAt;
      assert LinkAt(c) && BhAt(c) && RedAt(c, null);
      if c.left != sentinel {
        assert LinkAt(c.left) && BhAt(c.left);
        HeightAtMost(c.left);
      }
      if c.right != sentinel {
        assert LinkAt(c.right) && BhAt(c.right);
        HeightAtMost(c.right);
      }
    }

    /** The height is at most twice the binary logarithm of one more than the node count. */
    lemma HeightBound()
      requires Valid() && root != sentinel
      ensures Pow2(Height(root)) <= (|order| + 1) * (|order| + 1)
    {
      SizeAtLeast(root);
      HeightAtMost(root);
      assert BhAt(root);
      Pow2Monotone(Height(root), root.bh + root.bh);
      Pow2Sum(root.bh, root.bh);
      MulMonotone(Pow2(root.bh), |order| + 1);
    }
  }

  lemma SliceSplit<T>(s: seq<T>, a: int, k: int, b: int)
    requires 0 <= a <= k < b <= |s|
    ensures s[a..b] == s[a..k] + [s[k]] + s[k + 1..b]
  {
  }

  function Max(a: int, b: int): (m: int)
  {
    if a < b then b else a
  }

  function Pow2(n: int): (r: int)
    ensures r >= 1
    decreases n
  {
    if n <= 0 then 1 else 2 * Pow2(n - 1)
  }

  lemma Pow2Grows(n: int)
    requires n >= 1
    ensures Pow2(n) == 2 * Pow2(n - 1)
  {
  }

  lemma {:induction false} Pow2Monotone(a: int, b: int)
    requires a <= b
    ensures Pow2(a) <= Pow2(b)
    decreases b - a
  {
    if a < b { Pow2Monotone(a, b - 1); }
  }

  lemma {:induction false} Pow2Sum(a: int, b: int)
    requires a >= 0 && b >= 0
    ensures Pow2(a + b) == Pow2(a) * Pow2(b)
    decreases a
  {
    if a > 0 {
      Pow2Sum(a - 1, b);
      assert Pow2(a + b) == 2 * Pow2(a + b - 1);
    }
  }

  lemma MulMonotone(a: int, b: int)
    requires 0 <= a <= b
    ensures a * a <= b * b
  {
    assert a * a <= a * b;
  }
}
