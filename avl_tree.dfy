/**
 * The AVL tree container (`AVLTree`): a sentinel node `nil`, a root, and a
 * balance factor in every node, kept up to date by bookkeeping alone.
 *
 * As for the red-black tree, the Java objects live in the arena `nodes`,
 * index `NIL` being the sentinel, and the ghost field `T` follows the shape
 * the statements build. `Valid` says that the arena stores `T` and that `T`
 * is a search tree; `Bounded(T)` (module Avl) says that every stored factor
 * is -1, 0 or 1, which is what isBalanced checks.
 */
module AvlTrees {
  import opened Shapes
  import opened ShapeFacts
  import opened Splice
  import opened Avl
  import opened AvlArena

  datatype Option<T> = None | Some(value: T)

  class AVLTree<V(0)> {
    /** The Java `Node` objects, by arena index; `nodes[NIL]` is the sentinel `nil`. */
    var nodes: seq<Slot<int, V>>
    var root: nat
    /** The tree shape the arena stores; the `aux` of every node is its balance factor. */
    ghost var T: Tree<int, V>

    /** The arena stores `T` below `root`; `nil` has factor 0 and no left child. */
    ghost predicate Linked()
      reads this
    {
      Holds(nodes, root, T)
    }

    /** The invariant between public calls: the stored tree is a search tree. */
    ghost predicate Valid()
      reads this
    {
      Linked() && SearchTree(T)
    }

    /** The key-value pairs the tree holds. */
    ghost function Contents(): map<int, V>
      reads this
    {
      Content(T)
    }

    constructor ()
      ensures Valid() && Bounded(T) && Contents() == map[]
    {
      var none: V := *;
      nodes := [Slot(0, none, 0, NIL, NIL, NIL)];
      root := NIL;
      T := Leaf;
    }

    /** leftRotate at `x`, whose subtree is at the position `path`; no factor changes. */
    method LeftRotate(x: nat, ghost path: seq<Frame<int, V>>, ghost s: Tree<int, V>)
      requires Linked() && T == Plug(path, s) && s.Node? && s.id == x && s.right.Node?
      modifies this
      ensures Linked() && T == Plug(path, RotateLeft(s))
      ensures Keys(T) == old(Keys(T)) && Contents() == old(Contents())
    {
      ghost var n0 := nodes;
      RotateSlots(nodes, path, s, L);
      var a := nodes;
      var y := a[x].right;
      var b := a[y].left;
      var p := a[x].parent;
      a := a[x := a[x].(right := b)];
      ghost var n1 := a;
      if b != NIL {
        a := a[b := a[b].(parent := x)];
      }
      ghost var n2 := a;
      a := a[y := a[y].(parent := p)];
      ghost var n3 := a;
      if p == NIL {
        root := y;
      } else if x == a[p].left {
        a := a[p := a[p].(left := y)];
      } else {
        a := a[p := a[p].(right := y)];
      }
      ghost var n4 := a;
      a := a[y := a[y].(left := x)];
      ghost var n5 := a;
      a := a[x := a[x].(parent := y)];
      nodes := a;
      LeftRotateStep(n0, n1, n2, n3, n4, n5, a, path, s, x, y, b, p);
      T := Plug(path, RotateLeft(s));
    }

    /** rightRotate at `x`: the mirror image of LeftRotate. */
    method RightRotate(x: nat, ghost path: seq<Frame<int, V>>, ghost s: Tree<int, V>)
      requires Linked() && T == Plug(path, s) && s.Node? && s.id == x && s.left.Node?
      modifies this
      ensures Linked() && T == Plug(path, RotateRight(s))
      ensures Keys(T) == old(Keys(T)) && Contents() == old(Contents())
    {
      ghost var n0 := nodes;
      RotateSlots(nodes, path, s, R);
      var a := nodes;
      var y := a[x].left;
      var b := a[y].right;
      var p := a[x].parent;
      a := a[x := a[x].(left := b)];
      ghost var n1 := a;
      if b != NIL {
        a := a[b := a[b].(parent := x)];
      }
      ghost var n2 := a;
      a := a[y := a[y].(parent := p)];
      ghost var n3 := a;
      if p == NIL {
        root := y;
      } else if x == a[p].right {
        a := a[p := a[p].(right := y)];
      } else {
        a := a[p := a[p].(left := y)];
      }
      ghost var n4 := a;
      a := a[y := a[y].(right := x)];
      ghost var n5 := a;
      a := a[x := a[x].(parent := y)];
      nodes := a;
      RightRotateStep(n0, n1, n2, n3, n4, n5, a, path, s, x, y, b, p);
      T := Plug(path, RotateRight(s));
    }

    /** One `balanceFactor` assignment, at the node whose subtree is at the position `path`. */
    method SetFactor(x: nat, ghost path: seq<Frame<int, V>>, ghost s: Tree<int, V>, f: int)
      requires Linked() && T == Plug(path, s) && s.Node? && x == s.id
      modifies this
      ensures Linked() && T == Plug(path, s.(aux := f)) && root == old(root)
      ensures x < |old(nodes)| && nodes == old(nodes)[x := old(nodes)[x].(aux := f)]
      ensures Keys(T) == old(Keys(T)) && Contents() == old(Contents())
    {
      FactorStep(nodes, root, path, s, f);
      nodes := nodes[x := nodes[x].(aux := f)];
      T := Plug(path, s.(aux := f));
    }

    /**
     * getNodeByKey: the slot holding `key`, or the sentinel when no node
     * holds it. The ghost results give the position the search stopped at.
     */
    method GetNodeByKey(key: int) returns (x: nat, ghost path: seq<Frame<int, V>>, ghost s: Tree<int, V>)
      requires Valid()
      ensures T == Plug(path, s) && x == IdOf(s)
      ensures x != NIL <==> key in Contents()
      ensures x != NIL ==> s.Node? && s.key == key && x < |nodes| && nodes[x].key == key && nodes[x].value == Contents()[key]
      ensures x == NIL ==> s.Leaf?
      ensures (path, s) == Locate([], T, key)
    {
      x := root;
      path := [];
      s := T;
      while x != NIL
        invariant T == Plug(path, s) && x == IdOf(s)
        invariant Between(Before(path), key, After(path))
        invariant Locate(path, s, key) == Locate([], T, key)
        decreases s
      {
        CursorSlot(nodes, path, s);
        if key == nodes[x].key {
          CursorValue(path, s);
          return;
        } else if key > nodes[x].key {
          Descend(path, s, key, R);
          path := [FrameOf(s, R)] + path;
          s := s.right;
          x := nodes[x].right;
        } else {
          Descend(path, s, key, L);
          path := [FrameOf(s, L)] + path;
          s := s.left;
          x := nodes[x].left;
        }
      }
      LeafAtNil(path, s);
      NotBetween(path, key);
      KeysContent(T);
    }

    /**
     * getNodeWithMinimumKey: the leftmost node of the subtree at `r`, or no
     * node (Java's `null`) when that subtree is empty. The ghost results
     * give the left spine down to it.
     */
    method GetNodeWithMinimumKey(r: nat, ghost path: seq<Frame<int, V>>, ghost t: Tree<int, V>)
      returns (o: Option<nat>, ghost py: seq<Frame<int, V>>, ghost n: Tree<int, V>)
      requires Linked() && T == Plug(path, t) && r == IdOf(t)
      ensures o.None? <==> t.Leaf?
      ensures o.Some? ==> t == Plug(py, n) && AllLeft(py) && n.Node? && n.left.Leaf? && o.value == n.id
      ensures o.Some? && SearchTree(t) ==> n.key in Content(t) && forall k :: k in Content(t) ==> n.key <= k
    {
      LeafAtNil(path, t);
      py, n := [], t;
      if r == NIL {
        return None, py, n;
      }
      var x := r;
      assert py + path == path;
      CursorSlot(nodes, path, t);
      while nodes[x].left != NIL
        invariant n.Node? && x == n.id && x < |nodes| && t == Plug(py, n) && AllLeft(py) && T == Plug(py + path, n)
        decreases n
      {
        CursorSlot(nodes, py + path, n);
        assert Plug([FrameOf(n, L)] + (py + path), n.left) == Plug(py + path, n);
        LeafAtNil([FrameOf(n, L)] + (py + path), n.left);
        assert [FrameOf(n, L)] + py + path == [FrameOf(n, L)] + (py + path);
        py, n := [FrameOf(n, L)] + py, n.left;
        x := nodes[x].left;
        CursorSlot(nodes, py + path, n);
      }
      CursorSlot(nodes, py + path, n);
      assert Plug([FrameOf(n, L)] + (py + path), n.left) == Plug(py + path, n);
      LeafAtNil([FrameOf(n, L)] + (py + path), n.left);
      o := Some(x);
      if SearchTree(t) {
        MinKey(py, n);
      }
    }

    /**
     * insertNodeInAVLTree: overwrite the value of `key` if a node holds it,
     * otherwise hang a new node with factor 0 where the search ended and run
     * balanceForInsertingNode from it. Always answers true.
     */
    method InsertNodeInAVLTree(key: int, value: V) returns (b: bool)
      requires Valid() && Bounded(T)
      modifies this
      ensures Valid() && Bounded(T) && Contents() == old(Contents())[key := value] && b
      ensures T == InsertShape(old(T), key, value, |old(nodes)|)
    {
      ghost var t0 := T;
      InsertShapeSpec(t0, key, value, |nodes|);
      var x := root;
      var y := NIL;
      ghost var path: seq<Frame<int, V>> := [];
      ghost var s := T;
      while x != NIL
        invariant unchanged(this)
        invariant T == Plug(path, s) && x == IdOf(s) && y == ParentId(path)
        invariant Between(Before(path), key, After(path))
        invariant Locate(path, s, key) == Locate([], t0, key)
        decreases s
      {
        y := x;
        CursorSlot(nodes, path, s);
        if key == nodes[x].key {
          OverwriteStep(nodes, root, path, s, value);
          nodes := nodes[x := nodes[x].(value := value)];
          T := Plug(path, s.(value := value));
          return true;
        } else if key > nodes[x].key {
          Descend(path, s, key, R);
          path := [FrameOf(s, R)] + path;
          s := s.right;
          x := nodes[x].right;
        } else {
          Descend(path, s, key, L);
          path := [FrameOf(s, L)] + path;
          s := s.left;
          x := nodes[x].left;
        }
      }
      LeafAtNil(path, s);
      LeafParent(nodes, path, key);
      // The new node's links are `nil` before the walk starts, as in the Java code.
      var z := |nodes|;
      ghost var n0, root0 := nodes, root;
      var a := nodes + [Slot(key, value, 0, NIL, NIL, y)];
      if y == NIL {
        root := z;
      } else if key > a[y].key {
        a := a[y := a[y].(right := z)];
      } else {
        a := a[y := a[y].(left := z)];
      }
      nodes := a;
      LeafStep(n0, a, root0, root, path, key, value);
      ghost var n := NewNode(z, key, value);
      T := Plug(path, n);
      BoundedPlug(path, Leaf);
      BoundedNode(n);
      b := BalanceForInsertingNode(z, path, n);
    }

    /**
     * balanceForInsertingNode from the cursor z: add one to the parent's
     * factor when z is its right child (z's key is the greater), subtract
     * one otherwise; stop at 0; on a magnitude above 1 run `rotating` and
     * stop if z's factor is then 0; otherwise move up. Always answers true.
     */
    method BalanceForInsertingNode(z0: nat, ghost path0: seq<Frame<int, V>>, ghost s0: Tree<int, V>) returns (b: bool)
      requires Linked() && SearchTree(T) && T == Plug(path0, s0) && s0.Node? && z0 == s0.id
      requires PathBounded(path0) && Bounded(s0) && Leans(s0)
      modifies this
      ensures Linked() && SearchTree(T) && T == Climb(path0, s0) && b
    {
      ghost var goal := Climb(path0, s0);
      ghost var keys := Keys(T);
      RootIsCursor(path0, s0);
      if z0 == root {
        return true;
      }
      var z := z0;
      ghost var path, s := path0, s0;
      while z != root
        invariant Linked() && T == Plug(path, s) && s.Node? && z == s.id && Keys(T) == keys
        invariant PathBounded(path) && Bounded(s) && Leans(s) && Climb(path, s) == goal
        decreases |path|
      {
        RootIsCursor(path, s);
        ClimbStep(path, s);
        var y, f := BumpParent(z, path, s);
        ghost var yt := Attach(path[0].(aux := f), s);
        if f == 0 {
          return true;
        }
        if f < -1 || 1 < f {
          Rotating(z, path[1..], yt);
          if nodes[z].aux == 0 {
            return true;
          }
          path, s := path[1..], Avl.Rotating(yt);
        } else {
          z := y;
          path, s := path[1..], yt;
        }
      }
      RootIsCursor(path, s);
      b := true;
    }

    /**
     * The factor update of one round of balanceForInsertingNode: z's parent
     * gains one when z's key is the greater (z is its right child) and
     * loses one otherwise.
     */
    method BumpParent(z: nat, ghost path: seq<Frame<int, V>>, ghost s: Tree<int, V>) returns (y: nat, f: int)
      requires Linked() && SearchTree(T) && T == Plug(path, s) && s.Node? && z == s.id && path != []
      modifies this
      ensures f == Bumped(path[0]) && Linked() && T == Plug(path[1..], Attach(path[0].(aux := f), s))
      ensures Keys(T) == old(Keys(T)) && Contents() == old(Contents()) && root == old(root)
      ensures y == path[0].id
    {
      CursorSlot(nodes, path, s);
      ChildSide(path, s);
      y := nodes[z].parent;
      f := if nodes[z].key > nodes[y].key then nodes[y].aux + 1 else nodes[y].aux - 1;
      assert Plug(path, s) == Plug(path[1..], Attach(path[0], s));
      assert Attach(path[0], s).(aux := f) == Attach(path[0].(aux := f), s);
      SetFactor(y, path[1..], Attach(path[0], s), f);
    }

    /**
     * rotating(z) at z's parent y, whose factor is 2 or -2: z becomes y's
     * child on the side y leans to; the tables write the factors of y and
     * z, then y is rotated (after z, for a double rotation).
     */
    method Rotating(z0: nat, ghost py: seq<Frame<int, V>>, ghost ys: Tree<int, V>)
      requires Linked() && T == Plug(py, ys) && RotateReady(ys)
      requires z0 == (if ys.aux > 0 then ys.right.id else ys.left.id)
      modifies this
      ensures Linked() && T == Plug(py, Avl.Rotating(ys))
      ensures Keys(T) == old(Keys(T)) && Contents() == old(Contents())
      ensures z0 < |nodes| && (nodes[z0].aux == 0 <==> !(SingleTurn(ys) && Avl.Rotating(ys).aux != 0))
      ensures SingleTurn(ys) ==> Avl.Rotating(ys).id == z0
    {
      ghost var d := if ys.aux > 0 then R else L;
      ghost var zs := Child(ys, d);
      assert Plug([FrameOf(ys, d)] + py, zs) == T;
      CursorSlot(nodes, [FrameOf(ys, d)] + py, zs);
      CursorSlot(nodes, py, ys);
      var y := nodes[z0].parent;
      var z: nat;
      if nodes[y].aux > 0 {
        z := nodes[y].right;
      } else {
        z := nodes[y].left;
      }
      if nodes[y].aux > 0 {
        if nodes[z].aux > -1 {
          SingleLeft(y, z, py, ys);
        } else {
          DoubleLeft(y, z, py, ys);
        }
      } else {
        if nodes[z].aux < 1 {
          SingleRight(y, z, py, ys);
        } else {
          DoubleRight(y, z, py, ys);
        }
      }
    }

    /** The rows of `rotating` for a positive factor of y whose right child z does not lean left: rotate y left. */
    method SingleLeft(y: nat, z: nat, ghost py: seq<Frame<int, V>>, ghost ys: Tree<int, V>)
      requires Linked() && T == Plug(py, ys) && RotateReady(ys) && ys.aux > 0 && ys.right.aux > -1
      requires y == ys.id && z == ys.right.id
      modifies this
      ensures Linked() && T == Plug(py, Avl.Rotating(ys))
      ensures Keys(T) == old(Keys(T)) && Contents() == old(Contents())
      ensures z < |nodes| && nodes[z].aux == Avl.Rotating(ys).aux && Avl.Rotating(ys).id == z
    {
      CursorSlot(nodes, py, ys);
      assert Plug([FrameOf(ys, R)] + py, ys.right) == T;
      CursorSlot(nodes, [FrameOf(ys, R)] + py, ys.right);
      var yf, zf := 1, -1;
      if nodes[z].aux == 1 {
        yf, zf := 0, 0;
      }
      SetFactor(y, py, ys, yf);
      ghost var y1 := ys.(aux := yf);
      assert Plug([FrameOf(y1, R)] + py, y1.right) == T;
      SetFactor(z, [FrameOf(y1, R)] + py, y1.right, zf);
      ghost var y2 := y1.(right := ys.right.(aux := zf));
      assert Plug([FrameOf(y1, R)] + py, ys.right.(aux := zf)) == Plug(py, y2);
      LeftRotate(y, py, y2);
      CursorSlot(nodes, py, RotateLeft(y2));
    }

    /** The mirror image of SingleLeft: y leans left and its left child z does not lean right; rotate y right. */
    method SingleRight(y: nat, z: nat, ghost py: seq<Frame<int, V>>, ghost ys: Tree<int, V>)
      requires Linked() && T == Plug(py, ys) && RotateReady(ys) && ys.aux <= 0 && ys.left.aux < 1
      requires y == ys.id && z == ys.left.id
      modifies this
      ensures Linked() && T == Plug(py, Avl.Rotating(ys))
      ensures Keys(T) == old(Keys(T)) && Contents() == old(Contents())
      ensures z < |nodes| && nodes[z].aux == Avl.Rotating(ys).aux && Avl.Rotating(ys).id == z
    {
      CursorSlot(nodes, py, ys);
      assert Plug([FrameOf(ys, L)] + py, ys.left) == T;
      CursorSlot(nodes, [FrameOf(ys, L)] + py, ys.left);
      var yf, zf := -1, 1;
      if nodes[z].aux == -1 {
        yf, zf := 0, 0;
      }
      SetFactor(y, py, ys, yf);
      ghost var y1 := ys.(aux := yf);
      assert Plug([FrameOf(y1, L)] + py, y1.left) == T;
      SetFactor(z, [FrameOf(y1, L)] + py, y1.left, zf);
      ghost var y2 := y1.(left := ys.left.(aux := zf));
      assert Plug([FrameOf(y1, L)] + py, ys.left.(aux := zf)) == Plug(py, y2);
      RightRotate(y, py, y2);
      CursorSlot(nodes, py, RotateRight(y2));
    }

    /**
     * The rows of `rotating` for a positive factor of y whose right child z
     * leans left: the factors from the row of z's left child w (z's factor
     * written twice), then z rotated right and y rotated left.
     */
    method DoubleLeft(y: nat, z: nat, ghost py: seq<Frame<int, V>>, ghost ys: Tree<int, V>)
      requires Linked() && T == Plug(py, ys) && RotateReady(ys) && ys.aux > 0 && ys.right.aux <= -1
      requires y == ys.id && z == ys.right.id
      modifies this
      ensures Linked() && T == Plug(py, Avl.Rotating(ys))
      ensures Keys(T) == old(Keys(T)) && Contents() == old(Contents())
      ensures z < |nodes| && nodes[z].aux == 0
    {
      ghost var y0 := FrameOf(ys, R);
      CursorSlot(nodes, [y0] + py, ys.right);
      assert Plug([FrameOf(ys.right, L), y0] + py, ys.right.left) == T;
      CursorSlot(nodes, [FrameOf(ys.right, L), y0] + py, ys.right.left);
      var w := nodes[z].left;
      var yf, zf := 0, 0;
      if nodes[w].aux == -1 {
        yf, zf := 0, 1;
      } else if nodes[w].aux == 1 {
        yf, zf := -1, 0;
      }
      SetFactor(y, py, ys, yf);
      ghost var y1 := ys.(aux := yf);
      assert Plug([FrameOf(y1, R)] + py, y1.right) == T;
      SetFactor(z, [FrameOf(y1, R)] + py, y1.right, zf);
      SetFactor(z, [FrameOf(y1, R)] + py, y1.right.(aux := zf), 0);
      assert y1.right.(aux := zf).(aux := 0) == ys.right.(aux := 0);
      assert Plug([FrameOf(y1, R)] + py, ys.right.(aux := 0)) == Plug(py, y1.(right := ys.right.(aux := 0)));
      LiftLeft(y, z, py, y1.(right := ys.right.(aux := 0)));
    }

    /** The two rotations of a double rotation to the left: z = y.right rotated right, then y rotated left. */
    method LiftLeft(y: nat, z: nat, ghost py: seq<Frame<int, V>>, ghost y1: Tree<int, V>)
      requires Linked() && T == Plug(py, y1) && y1.Node? && y1.right.Node? && y1.right.left.Node?
      requires y == y1.id && z == y1.right.id
      modifies this
      ensures Linked() && T == Plug(py, RotateLeft(y1.(right := RotateRight(y1.right))))
      ensures Keys(T) == old(Keys(T)) && Contents() == old(Contents())
      ensures z < |nodes| && nodes[z].aux == y1.right.aux
    {
      assert Plug([FrameOf(y1, R)] + py, y1.right) == T;
      RightRotate(z, [FrameOf(y1, R)] + py, y1.right);
      ghost var y2 := y1.(right := RotateRight(y1.right));
      assert Plug([FrameOf(y1, R)] + py, RotateRight(y1.right)) == Plug(py, y2);
      LeftRotate(y, py, y2);
      ghost var r := RotateLeft(y2);
      assert Plug([FrameOf(r, R)] + py, r.right) == T;
      CursorSlot(nodes, [FrameOf(r, R)] + py, r.right);
    }

    /** The mirror image of DoubleLeft: z rotated left, then y rotated right. */
    method DoubleRight(y: nat, z: nat, ghost py: seq<Frame<int, V>>, ghost ys: Tree<int, V>)
      requires Linked() && T == Plug(py, ys) && RotateReady(ys) && ys.aux <= 0 && ys.left.aux >= 1
      requires y == ys.id && z == ys.left.id
      modifies this
      ensures Linked() && T == Plug(py, Avl.Rotating(ys))
      ensures Keys(T) == old(Keys(T)) && Contents() == old(Contents())
      ensures z < |nodes| && nodes[z].aux == 0
    {
      ghost var y0 := FrameOf(ys, L);
      CursorSlot(nodes, [y0] + py, ys.left);
      assert Plug([FrameOf(ys.left, R), y0] + py, ys.left.right) == T;
      CursorSlot(nodes, [FrameOf(ys.left, R), y0] + py, ys.left.right);
      var w := nodes[z].right;
      var yf, zf := 0, 0;
      if nodes[w].aux == 1 {
        yf, zf := 0, -1;
      } else if nodes[w].aux == -1 {
        yf, zf := 1, 0;
      }
      SetFactor(y, py, ys, yf);
      ghost var y1 := ys.(aux := yf);
      assert Plug([FrameOf(y1, L)] + py, y1.left) == T;
      SetFactor(z, [FrameOf(y1, L)] + py, y1.left, zf);
      SetFactor(z, [FrameOf(y1, L)] + py, y1.left.(aux := zf), 0);
      assert y1.left.(aux := zf).(aux := 0) == ys.left.(aux := 0);
      assert Plug([FrameOf(y1, L)] + py, ys.left.(aux := 0)) == Plug(py, y1.(left := ys.left.(aux := 0)));
      LiftRight(y, z, py, y1.(left := ys.left.(aux := 0)));
    }

    /** The mirror image of LiftLeft: z = y.left rotated left, then y rotated right. */
    method LiftRight(y: nat, z: nat, ghost py: seq<Frame<int, V>>, ghost y1: Tree<int, V>)
      requires Linked() && T == Plug(py, y1) && y1.Node? && y1.left.Node? && y1.left.right.Node?
      requires y == y1.id && z == y1.left.id
      modifies this
      ensures Linked() && T == Plug(py, RotateRight(y1.(left := RotateLeft(y1.left))))
      ensures Keys(T) == old(Keys(T)) && Contents() == old(Contents())
      ensures z < |nodes| && nodes[z].aux == y1.left.aux
    {
      assert Plug([FrameOf(y1, L)] + py, y1.left) == T;
      LeftRotate(z, [FrameOf(y1, L)] + py, y1.left);
      ghost var y2 := y1.(left := RotateLeft(y1.left));
      assert Plug([FrameOf(y1, L)] + py, RotateLeft(y1.left)) == Plug(py, y2);
      RightRotate(y, py, y2);
      ghost var r := RotateRight(y2);
      assert Plug([FrameOf(r, L)] + py, r.left) == T;
      CursorSlot(nodes, [FrameOf(r, L)] + py, r.left);
    }
      /**
     * transplant: `v` takes `u`'s place under `u`'s parent (or as the root).
     * `v.parent` is written even when `v` is `nil`.
     */
    method Transplant(u: nat, v: nat)
      requires u < |nodes| && v < |nodes| && nodes[u].parent < |nodes|
      modifies this
      ensures nodes == Splice.Transplant(old(nodes), u, v) && T == old(T)
      ensures root == if old(nodes[u].parent) == NIL then v else old(root)
    {
      var p := nodes[u].parent;
      if p == NIL {
        root := v;
      }
      var a := nodes;
      if a[p].left == u {
        a := a[p := a[p].(left := v)];
      } else {
        a := a[p := a[p].(right := v)];
      }
      a := a[v := a[v].(parent := p)];
      nodes := a;
    }

    /**
     * deleteNodeFromAVLTree: find the node holding `key`; answer false if
     * there is none. Otherwise cut it out (splicing out a node with an empty
     * child, or moving up its successor, which keeps its own factor) and
     * run balanceForDeletingNode from the subtree x that took the vacated
     * place. The entry is gone whatever the walk then does.
     */
    method DeleteNodeFromAVLTree(key: int) returns (o: Deletion)
      requires Valid()
      modifies this
      ensures Linked() && (T, o) == DeleteShape(old(T), key)
      ensures Valid() && Contents() == old(Contents()) - {key}
      ensures o == Returned(false) <==> key !in old(Contents())
      ensures o == Returned(false) ==> nodes == old(nodes) && root == old(root)
    {
      ghost var t0 := T;
      DeleteShapeSpec(t0, key);
      var z, path, s := GetNodeByKey(key);
      if z == NIL {
        return Returned(false);
      }
      ghost var content := Contents() - {key};
      CutSlots(nodes, root, path, s);
      var x: nat;
      ghost var xpath: seq<Frame<int, V>>, xs: Tree<int, V>;
      if nodes[z].left == NIL {
        x := nodes[z].right;
        CutOneStep(nodes, root, path, s, s.right);
        Transplant(z, x);
        xpath, xs := path, s.right;
      } else if nodes[z].right == NIL {
        x := nodes[z].left;
        CutOneStep(nodes, root, path, s, s.left);
        Transplant(z, x);
        xpath, xs := path, s.left;
      } else {
        x, xpath, xs := RemoveWithSuccessor(z, path, s);
      }
      T := Plug(xpath, xs);
      o := BalanceForDeletingNode(x, xpath, xs);
    }

    /**
     * The two-child branch of deleteNodeFromAVLTree: the successor y of z
     * takes z's place and subtrees, keeping its own factor; y's right child
     * x takes y's old place (directly when y is z's right child).
     */
    method RemoveWithSuccessor(z: nat, ghost path: seq<Frame<int, V>>, ghost s: Tree<int, V>)
      returns (x: nat, ghost xpath: seq<Frame<int, V>>, ghost xs: Tree<int, V>)
      requires Valid() && T == Plug(path, s) && s.Node? && z == s.id && s.left.Node? && s.right.Node?
      modifies this
      ensures T == old(T) && (xpath, xs) == Replacement(path, s)
      ensures Cut(nodes, root, Plug(xpath, xs), x, xpath, xs, old(Contents()) - {s.key})
    {
      CutSlots(nodes, root, path, s);
      assert Plug([FrameOf(s, R)] + path, s.right) == T;
      var o, py, m := GetNodeWithMinimumKey(nodes[z].right, [FrameOf(s, R)] + path, s.right);
      var y := o.value;
      SpineUnique(py, m, s.right);
      SuccessorSlots(nodes, root, path, s, py, m);
      x := nodes[y].right;
      if nodes[y].parent == z {
        assert py == [] && s.right == m;
        SpliceAdjacent(z, y, x, path, s);
        assert py + ([Frame(R, m.id, m.key, m.value, m.aux, s.left)] + path) == [Frame(R, m.id, m.key, m.value, m.aux, s.left)] + path;
      } else {
        SpliceSuccessor(z, y, x, path, s, py, m);
      }
      xpath, xs := py + ([Frame(R, m.id, m.key, m.value, m.aux, s.left)] + path), m.right;
    }

    /** The successor y is z's right child: x.parent = y, then y replaces z. */
    method SpliceAdjacent(z: nat, y: nat, x: nat, ghost path: seq<Frame<int, V>>, ghost s: Tree<int, V>)
      requires Valid() && T == Plug(path, s) && s.Node? && z == s.id && s.left.Node? && s.right.Node? && s.right.left.Leaf?
      requires y == s.right.id && x == IdOf(s.right.right)
      modifies this
      ensures var m := s.right;
        var xpath := [Frame(R, m.id, m.key, m.value, m.aux, s.left)] + path;
        T == old(T) && Cut(nodes, root, Plug(xpath, m.right), x, xpath, m.right, old(Contents()) - {s.key})
    {
      ghost var n0, root0 := nodes, root;
      ghost var py: seq<Frame<int, V>> := [];
      SuccessorSlots(n0, root0, path, s, py, s.right);
      var a := nodes[x := nodes[x].(parent := y)];
      ghost var a1 := a;
      nodes := a;
      Transplant(z, y);
      a := nodes;
      ghost var a3 := a;
      a := a[y := a[y].(left := a[z].left)];
      ghost var a4 := a;
      a := a[a[y].left := a[a[y].left].(parent := y)];
      nodes := a;
      CutAdjacentStep(n0, a1, a3, a4, a, root0, path, s);
    }

    /**
     * The successor y is deeper in z's right subtree: y's right child x
     * replaces y, y takes over z's right subtree, then y replaces z.
     */
    method SpliceSuccessor(z: nat, y: nat, x: nat, ghost path: seq<Frame<int, V>>, ghost s: Tree<int, V>,
                           ghost py: seq<Frame<int, V>>, ghost m: Tree<int, V>)
      requires Valid() && T == Plug(path, s) && s.Node? && z == s.id && s.left.Node?
      requires s.right == Plug(py, m) && py != [] && AllLeft(py) && m.Node? && m.left.Leaf? && y == m.id && x == IdOf(m.right)
      modifies this
      ensures var xpath := py + ([Frame(R, m.id, m.key, m.value, m.aux, s.left)] + path);
        T == old(T) && Cut(nodes, root, Plug(xpath, m.right), x, xpath, m.right, old(Contents()) - {s.key})
    {
      ghost var n0, root0 := nodes, root;
      SuccessorSlots(n0, root0, path, s, py, m);
      Transplant(y, x);
      assert nodes[z] == n0[z] && |nodes| == |n0| && n0[z].right < |n0|;
      var a := nodes;
      ghost var n2 := a;
      a := a[y := a[y].(right := a[z].right)];
      ghost var n3 := a;
      a := a[a[y].right := a[a[y].right].(parent := y)];
      ghost var n4 := a;
      nodes := a;
      Transplant(z, y);
      a := nodes;
      ghost var n6 := a;
      a := a[y := a[y].(left := a[z].left)];
      ghost var n7 := a;
      a := a[a[y].left := a[a[y].left].(parent := y)];
      nodes := a;
      CutSuccessorStep(n0, n2, n3, n4, n6, n7, a, root0, path, s, py, m);
    }

    /**
     * balanceForDeletingNode from the cursor z (the subtree that took the
     * removed node's place): while z is not the root, give z's parent y one
     * less towards z's side, answer true if z's own factor is 1 or -1, and
     * move up unless y's factor now has magnitude above 1, where the model
     * stops before `rotating`. A `nil` cursor below a non-empty tree has its
     * key read.
     */
    method BalanceForDeletingNode(x: nat, ghost xpath: seq<Frame<int, V>>, ghost xs: Tree<int, V>) returns (o: Deletion)
      requires Linked() && SearchTree(T) && T == Plug(xpath, xs) && x == IdOf(xs)
      modifies this
      ensures Linked() && (T, o) == DeletionWalk(xpath, xs)
    {
      ghost var goal := DeletionWalk(xpath, xs);
      ghost var keys := Keys(T);
      var z := x;
      ghost var path, s := xpath, xs;
      while z != root
        invariant Linked() && T == Plug(path, s) && z == IdOf(s) && Keys(T) == keys
        invariant DeletionWalk(path, s) == goal
        decreases |path|
      {
        RootIsCursor(path, s);
        if z == NIL {
          LeafAtNil(path, s);
          return NilKeyRead;
        }
        WfPlug(path, s);
        WfNonNil(s);
        var y, f := DropParent(z, path, s);
        ghost var yt := Attach(path[0].(aux := f), s);
        if nodes[z].aux == 1 || nodes[z].aux == -1 {
          return Returned(true);
        }
        if f < -1 || 1 < f {
          return RotationReached;
        }
        z := y;
        path, s := path[1..], yt;
      }
      RootIsCursor(path, s);
      o := Returned(true);
    }

    /**
     * The factor update of one round of balanceForDeletingNode: z's parent
     * loses one when z's key is the greater (z is its right child) and
     * gains one otherwise.
     */
    method DropParent(z: nat, ghost path: seq<Frame<int, V>>, ghost s: Tree<int, V>) returns (y: nat, f: int)
      requires Linked() && SearchTree(T) && T == Plug(path, s) && s.Node? && z == s.id && path != []
      modifies this
      ensures f == Dropped(path[0]) && Linked() && T == Plug(path[1..], Attach(path[0].(aux := f), s))
      ensures Keys(T) == old(Keys(T)) && Contents() == old(Contents()) && root == old(root)
      ensures y == path[0].id && z < |nodes| && nodes[z].aux == s.aux
    {
      CursorSlot(nodes, path, s);
      ChildSide(path, s);
      y := nodes[z].parent;
      f := if nodes[z].key > nodes[y].key then nodes[y].aux - 1 else nodes[y].aux + 1;
      assert Plug(path, s) == Plug(path[1..], Attach(path[0], s));
      assert Attach(path[0], s).(aux := f) == Attach(path[0].(aux := f), s);
      SetFactor(y, path[1..], Attach(path[0], s), f);
      ghost var q := [path[0].(aux := f)] + path[1..];
      assert Plug(q, s) == T;
      CursorSlot(nodes, q, s);
    }

    /**
     * isBalanced at `x`, the node whose subtree is at the position `path`:
     * every factor in that subtree is -1, 0 or 1. The factor is checked
     * before the comparison with `nil`, whose own factor is 0.
     */
    function IsBalanced(x: nat, ghost path: seq<Frame<int, V>>, ghost s: Tree<int, V>): (b: bool)
      reads this
      requires Linked() && T == Plug(path, s) && x == IdOf(s)
      ensures b <==> Bounded(s)
      decreases s
    {
      SlotFactor(nodes, root, path, s);
      if nodes[x].aux < -1 || 1 < nodes[x].aux then false
      else if x == NIL then true
      else IsBalanced(nodes[x].left, [FrameOf(s, L)] + path, s.left) && IsBalanced(nodes[x].right, [FrameOf(s, R)] + path, s.right)
    }
  }
}
