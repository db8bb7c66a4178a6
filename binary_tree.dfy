/**
 * The plain binary search tree container (`BinaryTree`): a root and linked
 * nodes, no sentinel and no rebalancing.
 *
 * The Java objects live in the arena `nodes`; index `NIL` is Java's `null`
 * and its slot is never written. The ghost field `T` follows the shape the
 * statements build. `Valid` says that the arena stores `T` and that `T` is a
 * search tree. transplant and removeNode are modelled as evidently intended
 * (module BstArena gives them as written, with the inputs they fail on).
 */
module BinaryTrees {
  import opened Shapes
  import opened ShapeFacts
  import opened Splice
  import opened Bst
  import opened BstArena

  class BinaryTree<V(0)> {
    /** The Java `Node` objects, by arena index; `nodes[NIL]` stands for `null`. */
    var nodes: seq<Slot<(), V>>
    var root: nat
    /** The tree shape the arena stores. */
    ghost var T: Bin<V>

    /** The arena stores `T` below `root`. */
    ghost predicate Linked()
      reads this
    {
      Stored(nodes, root, T)
    }

    /** The invariant between public calls: the stored tree is a search tree. */
    ghost predicate Valid()
      reads this
    {
      Linked() && SearchTree(T)
    }

    /** The key-value pairs the tree holds. */
    ghost function Contents(): map<int, V>
      reads this
    {
      Content(T)
    }

    constructor ()
      ensures Valid() && Contents() == map[]
    {
      var none: V := *;
      nodes := [Slot(0, none, (), NIL, NIL, NIL)];
      root := NIL;
      T := Leaf;
    }

    /**
     * searchNode: the slot holding `key`, or `null` when no node holds it.
     * The ghost results give the position the search stopped at.
     */
    method SearchNode(key: int) returns (x: nat, ghost path: seq<Frame<(), V>>, ghost s: Bin<V>)
      requires Valid()
      ensures T == Plug(path, s) && x == IdOf(s)
      ensures x != NIL <==> key in Contents()
      ensures x != NIL ==> s.Node? && s.key == key && x < |nodes| && nodes[x].key == key && nodes[x].value == Contents()[key]
      ensures x == NIL ==> s.Leaf?
      ensures (path, s) == Locate([], T, key)
    {
      x := root;
      path := [];
      s := T;
      while x != NIL
        invariant T == Plug(path, s) && x == IdOf(s)
        invariant Between(Before(path), key, After(path))
        invariant Locate(path, s, key) == Locate([], T, key)
        decreases s
      {
        CursorSlot(nodes, path, s);
        if key == nodes[x].key {
          CursorValue(path, s);
          return;
        } else if key > nodes[x].key {
          Descend(path, s, key, R);
          path := [FrameOf(s, R)] + path;
          s := s.right;
          x := nodes[x].right;
        } else {
          Descend(path, s, key, L);
          path := [FrameOf(s, L)] + path;
          s := s.left;
          x := nodes[x].left;
        }
      }
      LeafAtNil(path, s);
      NotBetween(path, key);
      KeysContent(T);
    }

    /**
     * nodeWithMinimumKey: the leftmost node of the subtree at `x0`, or
     * `null` when that subtree is empty. The ghost results give the left
     * spine down to it; in a search tree its key is the subtree's least.
     */
    method NodeWithMinimumKey(x0: nat, ghost path: seq<Frame<(), V>>, ghost t: Bin<V>)
      returns (y: nat, ghost py: seq<Frame<(), V>>, ghost n: Bin<V>)
      requires Linked() && T == Plug(path, t) && x0 == IdOf(t)
      ensures y == NIL <==> t.Leaf?
      ensures y != NIL ==> t == Plug(py, n) && AllLeft(py) && n.Node? && n.left.Leaf? && y == n.id
      ensures y != NIL ==> y < |nodes| && nodes[y].key == n.key && nodes[y].value == n.value
      ensures y != NIL && SearchTree(t) ==> n.key in Content(t) && NoneBelow(t, n.key)
    {
      var x := x0;
      y := NIL;
      py, n := [], t;
      ghost var q: seq<Frame<(), V>> := [];
      ghost var c := t;
      assert q + path == path;
      while x != NIL
        invariant t == Plug(q, c) && AllLeft(q) && x == IdOf(c) && T == Plug(q + path, c)
        invariant q == [] ==> y == NIL && c == t
        invariant q != [] ==> y == q[0].id && y != NIL
        decreases c
      {
        LeafAtNil(q + path, c);
        CursorSlot(nodes, q + path, c);
        y := x;
        x := nodes[x].left;
        assert Attach(FrameOf(c, L), c.left) == c;
        assert ([FrameOf(c, L)] + q)[1..] == q && ([FrameOf(c, L)] + (q + path))[1..] == q + path;
        assert [FrameOf(c, L)] + q + path == [FrameOf(c, L)] + (q + path);
        q, c := [FrameOf(c, L)] + q, c.left;
      }
      LeafAtNil(q + path, c);
      if q != [] {
        py, n := q[1..], Attach(q[0], Leaf);
        assert q[0].side == L;
        ParentSlot(nodes, q + path, c);
        assert (q + path)[0] == q[0];
        if SearchTree(t) {
          MinKey(py, n);
        }
      }
    }

    /** nodeWithMaximumKey: the mirror image of NodeWithMinimumKey. */
    method NodeWithMaximumKey(x0: nat, ghost path: seq<Frame<(), V>>, ghost t: Bin<V>)
      returns (y: nat, ghost py: seq<Frame<(), V>>, ghost n: Bin<V>)
      requires Linked() && T == Plug(path, t) && x0 == IdOf(t)
      ensures y == NIL <==> t.Leaf?
      ensures y != NIL ==> t == Plug(py, n) && AllRight(py) && n.Node? && n.right.Leaf? && y == n.id
      ensures y != NIL ==> y < |nodes| && nodes[y].key == n.key && nodes[y].value == n.value
      ensures y != NIL && SearchTree(t) ==> n.key in Content(t) && NoneAbove(t, n.key)
    {
      var x := x0;
      y := NIL;
      py, n := [], t;
      ghost var q: seq<Frame<(), V>> := [];
      ghost var c := t;
      assert q + path == path;
      while x != NIL
        invariant t == Plug(q, c) && AllRight(q) && x == IdOf(c) && T == Plug(q + path, c)
        invariant q == [] ==> y == NIL && c == t
        invariant q != [] ==> y == q[0].id && y != NIL
        decreases c
      {
        LeafAtNil(q + path, c);
        CursorSlot(nodes, q + path, c);
        y := x;
        x := nodes[x].right;
        assert Attach(FrameOf(c, R), c.right) == c;
        assert ([FrameOf(c, R)] + q)[1..] == q && ([FrameOf(c, R)] + (q + path))[1..] == q + path;
        assert [FrameOf(c, R)] + q + path == [FrameOf(c, R)] + (q + path);
        q, c := [FrameOf(c, R)] + q, c.right;
      }
      LeafAtNil(q + path, c);
      if q != [] {
        py, n := q[1..], Attach(q[0], Leaf);
        assert q[0].side == R;
        ParentSlot(nodes, q + path, c);
        assert (q + path)[0] == q[0];
        if SearchTree(t) {
          MaxKey(py, n);
        }
      }
    }

    /**
     * successorNode: the node holding the least key greater than x's, or
     * `null` when x is `null` or holds the greatest key. With a right
     * subtree it is that subtree's leftmost node; otherwise the first
     * ancestor reached from a left child.
     */
    method SuccessorNode(x0: nat, ghost path: seq<Frame<(), V>>, ghost s: Bin<V>) returns (y: nat)
      requires Valid() && T == Plug(path, s) && x0 == IdOf(s)
      ensures s.Leaf? ==> y == NIL
      ensures s.Node? ==> (y == NIL <==> NoneAbove(T, s.key))
      ensures s.Node? && y != NIL ==>
                y < |nodes| && NextKey(T, s.key, nodes[y].key) && nodes[y].value == Contents()[nodes[y].key]
    {
      LeafAtNil(path, s);
      if x0 == NIL {
        return NIL;
      }
      CursorSlot(nodes, path, s);
      NextKeys(path, s);
      assert Plug([FrameOf(s, R)] + path, s.right) == Plug(path, Attach(FrameOf(s, R), s.right));
      LeafAtNil([FrameOf(s, R)] + path, s.right);
      if nodes[x0].right != NIL {
        ghost var py, n;
        y, py, n := NodeWithMinimumKey(nodes[x0].right, [FrameOf(s, R)] + path, s.right);
        assert s.right == Plug(py, n);
        RemoveMinKeys(py, n);
        assert Keys(s.right) == [n.key] + Keys(Plug(py, n.right));
        PlugAppend(py, [FrameOf(s, R)] + path, n);
        CursorValue(py + ([FrameOf(s, R)] + path), n);
        return;
      }
      assert Keys(s.right) == [];
      var x := x0;
      y := nodes[x].parent;
      ghost var q := path;
      ghost var c := s;
      while y != NIL && x == nodes[y].right
        invariant T == Plug(q, c) && c.Node? && x == c.id && y == ParentId(q) && y < |nodes| && After(q) == After(path)
        decreases |q|
      {
        CursorSlot(nodes, q, c);
        assert q[0].side == R;
        x := y;
        y := nodes[y].parent;
        q, c := q[1..], Attach(q[0], c);
        CursorSlot(nodes, q, c);
      }
      WfPlug(q, c);
      if y == NIL {
        assert q == [];
      } else {
        CursorSlot(nodes, q, c);
        assert q[0].side == L && After(path)[0] == q[0].key;
        CursorValue(q[1..], Attach(q[0], c));
      }
    }

    /**
     * predecessorNode: the node holding the greatest key less than x's, or
     * `null` when x is `null` or holds the least key. The mirror image of
     * SuccessorNode.
     */
    method PredecessorNode(x0: nat, ghost path: seq<Frame<(), V>>, ghost s: Bin<V>) returns (y: nat)
      requires Valid() && T == Plug(path, s) && x0 == IdOf(s)
      ensures s.Leaf? ==> y == NIL
      ensures s.Node? ==> (y == NIL <==> NoneBelow(T, s.key))
      ensures s.Node? && y != NIL ==>
                y < |nodes| && PrevKey(T, s.key, nodes[y].key) && nodes[y].value == Contents()[nodes[y].key]
    {
      LeafAtNil(path, s);
      if x0 == NIL {
        return NIL;
      }
      CursorSlot(nodes, path, s);
      PrevKeys(path, s);
      assert Plug([FrameOf(s, L)] + path, s.left) == Plug(path, Attach(FrameOf(s, L), s.left));
      LeafAtNil([FrameOf(s, L)] + path, s.left);
      if nodes[x0].left != NIL {
        ghost var py, n;
        y, py, n := NodeWithMaximumKey(nodes[x0].left, [FrameOf(s, L)] + path, s.left);
        assert s.left == Plug(py, n);
        MaxKey(py, n);
        var b := Before(path) + Keys(s.left);
        assert Keys(s.left) == Before(py) + Keys(n.left) + [n.key];
        assert b[|b| - 1] == n.key;
        PlugAppend(py, [FrameOf(s, L)] + path, n);
        CursorValue(py + ([FrameOf(s, L)] + path), n);
        return;
      }
      assert Keys(s.left) == [];
      var x := x0;
      y := nodes[x].parent;
      ghost var q := path;
      ghost var c := s;
      while y != NIL && x == nodes[y].left
        invariant T == Plug(q, c) && c.Node? && x == c.id && y == ParentId(q) && y < |nodes| && Before(q) == Before(path)
        decreases |q|
      {
        CursorSlot(nodes, q, c);
        assert q[0].side == L;
        x := y;
        y := nodes[y].parent;
        q, c := q[1..], Attach(q[0], c);
        CursorSlot(nodes, q, c);
      }
      WfPlug(q, c);
      if y == NIL {
        assert q == [];
      } else {
        CursorSlot(nodes, q, c);
        assert q[0].side == R;
        var b := Before(path);
        assert b == Before(q[1..]) + Keys(q[0].sib) + [q[0].key];
        assert b[|b| - 1] == q[0].key;
        assert Before(path) + Keys(s.left) == b;
        CursorValue(q[1..], Attach(q[0], c));
      }
    }

    /**
     * insertNode: overwrite the value of the node holding `key` if there is
     * one; otherwise create a node, make it the root of an empty tree, or
     * walk down from the root and hang it below the last node visited.
     */
    method InsertNode(key: int, value: V)
      requires Valid()
      modifies this
      ensures Valid() && Contents() == old(Contents())[key := value]
      ensures T == InsertShape(old(T), key, value, |old(nodes)|)
    {
      InsertShapeSpec(T, key, value, |nodes|);
      var y, path, s := SearchNode(key);
      if y != NIL {
        assert InsertShape(T, key, value, |nodes|) == Plug(path, s.(value := value));
        RewriteRepr(nodes, path, s, s.key, value, s.aux);
        ContentRevalue(path, s, value);
        if path != [] {
          PlugRoot(path, s, s.(value := value));
        }
        nodes := nodes[y := nodes[y].(value := value)];
        T := Plug(path, s.(value := value));
        return;
      }
      ghost var n0, root0 := nodes, root;
      assert Plug([], T) == T;
      LocateFound([], T, key);
      var z := |nodes|;
      var a := nodes + [Slot(key, value, (), NIL, NIL, NIL)];
      if root == NIL {
        LeafAtNil([], T);
        root := z;
        nodes := a;
        LeafStep(n0, a, root0, root, path, key, value);
        T := Plug(path, Fresh(z, key, value));
        return;
      }
      HangFresh(key, value, path);
    }

    /**
     * The rest of insertNode when the tree is not empty and holds no `key`:
     * walk down from the root as the search did, and hang the new node below
     * the last node visited, on the side the comparison chose.
     */
    method HangFresh(key: int, value: V, ghost path: seq<Frame<(), V>>)
      requires Valid() && root != NIL && Locate([], T, key) == (path, Leaf)
      requires Between(Before(path), key, After(path))
      modifies this
      ensures Valid() && T == Plug(path, Fresh(|old(nodes)|, key, value))
      ensures Contents() == old(Contents())[key := value]
    {
      ghost var n0, root0 := nodes, root;
      var z := |nodes|;
      var a := nodes + [Slot(key, value, (), NIL, NIL, NIL)];
      var w := root;
      var p := NIL;
      ghost var q: seq<Frame<(), V>> := [];
      ghost var c := T;
      assert Plug([], T) == T;
      LeafAtNil([], T);
      while w != NIL
        invariant T == Plug(q, c) && w == IdOf(c) && p == ParentId(q)
        invariant c.Leaf? ==> q != []
        invariant Between(Before(q), key, After(q))
        invariant Locate(q, c, key) == (path, Leaf)
        invariant nodes == n0 && root == root0
        decreases c
      {
        CursorSlot(nodes, q, c);
        p := w;
        if key > nodes[w].key {
          Descend(q, c, key, R);
          q, c := [FrameOf(c, R)] + q, c.right;
          w := nodes[w].right;
        } else {
          Descend(q, c, key, L);
          q, c := [FrameOf(c, L)] + q, c.left;
          w := nodes[w].left;
        }
      }
      LeafAtNil(q, c);
      assert q == path;
      LeafParent(nodes, path, key);
      if key > a[p].key {
        a := a[p := a[p].(right := z)];
        a := a[z := a[z].(parent := p)];
      } else {
        a := a[p := a[p].(left := z)];
        a := a[z := a[z].(parent := p)];
      }
      nodes := a;
      LeafStep(n0, a, root0, root, path, key, value);
      T := Plug(path, Fresh(z, key, value));
    }

    /**
     * transplant as evidently intended: `v` takes `u`'s place under `u`'s
     * parent, or as the root, and v's parent link is set in both cases.
     */
    method Transplant(u: nat, v: nat)
      requires u < |nodes| && v < |nodes| && nodes[u].parent < |nodes|
      modifies this
      ensures nodes == Hang(old(nodes), u, v) && T == old(T)
      ensures root == if old(nodes[u].parent) == NIL then v else old(root)
    {
      var p := nodes[u].parent;
      var a := nodes;
      if p == NIL {
        root := v;
      } else if a[p].left == u {
        a := a[p := a[p].(left := v)];
      } else {
        a := a[p := a[p].(right := v)];
      }
      if v != NIL {
        a := a[v := a[v].(parent := p)];
      }
      nodes := a;
    }

    /**
     * removeNode as evidently intended: find the node holding `key` and do
     * nothing if there is none; splice out a node with an empty child;
     * otherwise move the node's successor into its place.
     */
    method RemoveNode(key: int)
      requires Valid()
      modifies this
      ensures Valid() && Contents() == old(Contents()) - {key}
      ensures T == RemoveShape(old(T), key)
      ensures key !in old(Contents()) ==> nodes == old(nodes) && root == old(root)
    {
      RemoveShapeSpec(T, key);
      var y, path, s := SearchNode(key);
      if y == NIL {
        return;
      }
      CutSlots(nodes, root, path, s);
      if nodes[y].left == NIL {
        CutOneStep(nodes, root, path, s, s.right);
        Transplant(y, nodes[y].right);
        T := Plug(path, s.right);
      } else if nodes[y].right == NIL {
        CutOneStep(nodes, root, path, s, s.left);
        Transplant(y, nodes[y].left);
        T := Plug(path, s.left);
      } else {
        RemoveWithSuccessor(y, path, s);
      }
    }

    /** The two-child branch of removeNode: the successor x of y takes y's place and subtrees. */
    method RemoveWithSuccessor(y: nat, ghost path: seq<Frame<(), V>>, ghost s: Bin<V>)
      requires Valid() && T == Plug(path, s) && s.Node? && y == s.id && s.left.Node? && s.right.Node?
      modifies this
      ensures Valid() && T == Plug(path, Spliced(s))
    {
      CutSlots(nodes, root, path, s);
      assert Plug([FrameOf(s, R)] + path, s.right) == Plug(path, Attach(FrameOf(s, R), s.right));
      var x, py, m := NodeWithMinimumKey(nodes[y].right, [FrameOf(s, R)] + path, s.right);
      SpineUnique(py, m, s.right);
      SuccessorSlots(nodes, root, path, s, py, m);
      if nodes[x].parent != y {
        SpliceSuccessor(y, x, path, s, py, m);
      } else {
        assert py == [] && s.right == m;
        SpliceAdjacent(y, x, path, s);
      }
    }

    /** The successor x is y's right child: transplant(y, x), x.left = y.left, x.left.parent = x. */
    method SpliceAdjacent(y: nat, x: nat, ghost path: seq<Frame<(), V>>, ghost s: Bin<V>)
      requires Valid() && T == Plug(path, s) && s.Node? && y == s.id && s.left.Node? && s.right.Node? && s.right.left.Leaf?
      requires x == s.right.id
      modifies this
      ensures Valid() && T == Plug(path, Spliced(s))
    {
      ghost var n0, root0 := nodes, root;
      SuccessorSlots(n0, root0, path, s, [], s.right);
      Transplant(y, x);
      var a := nodes;
      ghost var a3 := a;
      a := a[x := a[x].(left := a[y].left)];
      ghost var a4 := a;
      a := a[a[x].left := a[a[x].left].(parent := x)];
      nodes := a;
      CutAdjacentStep(n0, a3, a4, a, root0, path, s);
      T := Plug(path, Spliced(s));
    }

    /**
     * The successor x is deeper in y's right subtree: transplant(x, x.right),
     * x.right = y.right, x.right.parent = x, then as in SpliceAdjacent.
     */
    method SpliceSuccessor(y: nat, x: nat, ghost path: seq<Frame<(), V>>, ghost s: Bin<V>,
                           ghost py: seq<Frame<(), V>>, ghost m: Bin<V>)
      requires Valid() && T == Plug(path, s) && s.Node? && y == s.id && s.left.Node?
      requires s.right == Plug(py, m) && py != [] && AllLeft(py) && m.Node? && m.left.Leaf? && x == m.id
      modifies this
      ensures Valid() && T == Plug(path, Spliced(s))
    {
      ghost var n0, root0 := nodes, root;
      SuccessorSlots(n0, root0, path, s, py, m);
      Transplant(x, nodes[x].right);
      assert nodes[y] == n0[y];
      var a := nodes;
      ghost var n2 := a;
      a := a[x := a[x].(right := a[y].right)];
      ghost var n3 := a;
      a := a[a[x].right := a[a[x].right].(parent := x)];
      ghost var n4 := a;
      nodes := a;
      Transplant(y, x);
      a := nodes;
      ghost var n6 := a;
      a := a[x := a[x].(left := a[y].left)];
      ghost var n7 := a;
      a := a[a[x].left := a[a[x].left].(parent := x)];
      nodes := a;
      CutSuccessorStep(n0, n2, n3, n4, n6, n7, a, root0, path, s, py, m);
      T := Plug(path, Spliced(s));
    }
  }
}
