/**
 * The red-black tree container (`RBTree`): a sentinel node `nil` and a root,
 * with insertion, lookup and removal by key as in Cormen, Leiserson and
 * Rivest's Introduction to Algorithms.
 *
 * The Java objects live in the arena `nodes`; index `NIL` is the sentinel.
 * Every method runs the Java statements on the arena, and the ghost field
 * `T` follows the shape they build. The main invariant `Valid` says that the
 * arena stores `T`, that `T` is a search tree, and that `T` has the
 * red-black properties.
 */
module RBTrees {
  import opened Shapes
  import opened ShapeFacts
  import opened RedBlack
  import opened RBArena
  import opened Splice
  import opened RBRemoval
  import opened RBDelete

  datatype Option<T> = None | Some(value: T)

  class RBTree<V(0)> {
    /** The Java `Node` objects, by arena index; `nodes[NIL]` is the sentinel `nil`. */
    var nodes: seq<Slot<Color, V>>
    var root: nat
    /** The tree shape the arena stores. */
    ghost var T: Tree<Color, V>

    /** The arena stores `T` below `root`; `nil` is black and has no left child. */
    ghost predicate Linked()
      reads this
    {
      Stores(nodes, root, T)
    }

    /** The invariant between public calls: a search tree with the red-black properties. */
    ghost predicate Valid()
      reads this
    {
      Linked() && SearchTree(T) && IsRedBlack(T)
    }

    /** The key-value pairs the tree holds. */
    ghost function Contents(): map<int, V>
      reads this
    {
      Content(T)
    }

    constructor ()
      ensures Valid() && Contents() == map[]
    {
      var none: V := *;
      nodes := [Slot(0, none, Black, NIL, NIL, NIL)];
      root := NIL;
      T := Leaf;
    }

    /** LEFT-ROTATE at `x`, whose subtree is at the position `path`. */
    method LeftRotate(x: nat, ghost path: seq<Frame<Color, V>>, ghost s: Tree<Color, V>)
      requires Linked() && T == Plug(path, s) && s.Node? && s.id == x && s.right.Node?
      modifies this
      ensures Linked() && T == Plug(path, RotateLeft(s))
      ensures Keys(T) == old(Keys(T)) && Contents() == old(Contents())
      ensures |nodes| == |old(nodes)| && nodes[NIL] == old(nodes[NIL])
    {
      ghost var n0 := nodes;
      RotateSlots(nodes, path, s, L);
      var a := nodes;
      var y := a[x].right;
      var b := a[y].left;
      var p := a[x].parent;
      a := a[x := a[x].(right := b)];
      ghost var n1 := a;
      if b != NIL {
        a := a[b := a[b].(parent := x)];
      }
      ghost var n2 := a;
      a := a[y := a[y].(parent := p)];
      ghost var n3 := a;
      if p == NIL {
        root := y;
      } else if x == a[p].left {
        a := a[p := a[p].(left := y)];
      } else {
        a := a[p := a[p].(right := y)];
      }
      ghost var n4 := a;
      a := a[y := a[y].(left := x)];
      ghost var n5 := a;
      a := a[x := a[x].(parent := y)];
      nodes := a;
      LeftRotateStep(n0, n1, n2, n3, n4, n5, a, path, s, x, y, b, p);
      T := Plug(path, RotateLeft(s));
    }

    /** RIGHT-ROTATE at `x`: the mirror image of LeftRotate. */
    method RightRotate(x: nat, ghost path: seq<Frame<Color, V>>, ghost s: Tree<Color, V>)
      requires Linked() && T == Plug(path, s) && s.Node? && s.id == x && s.left.Node?
      modifies this
      ensures Linked() && T == Plug(path, RotateRight(s))
      ensures Keys(T) == old(Keys(T)) && Contents() == old(Contents())
      ensures |nodes| == |old(nodes)| && nodes[NIL] == old(nodes[NIL])
    {
      ghost var n0 := nodes;
      RotateSlots(nodes, path, s, R);
      var a := nodes;
      var y := a[x].left;
      var b := a[y].right;
      var p := a[x].parent;
      a := a[x := a[x].(left := b)];
      ghost var n1 := a;
      if b != NIL {
        a := a[b := a[b].(parent := x)];
      }
      ghost var n2 := a;
      a := a[y := a[y].(parent := p)];
      ghost var n3 := a;
      if p == NIL {
        root := y;
      } else if x == a[p].right {
        a := a[p := a[p].(right := y)];
      } else {
        a := a[p := a[p].(left := y)];
      }
      ghost var n4 := a;
      a := a[y := a[y].(right := x)];
      ghost var n5 := a;
      a := a[x := a[x].(parent := y)];
      nodes := a;
      RightRotateStep(n0, n1, n2, n3, n4, n5, a, path, s, x, y, b, p);
      T := Plug(path, RotateRight(s));
    }

    /**
     * getNodeByKey: the slot holding `key`, or the sentinel when no node
     * holds it. The ghost results give the position the search stopped at.
     */
    method GetNodeByKey(key: int) returns (x: nat, ghost path: seq<Frame<Color, V>>, ghost s: Tree<Color, V>)
      requires Valid()
      ensures T == Plug(path, s) && x == IdOf(s)
      ensures x != NIL <==> key in Contents()
      ensures x != NIL ==> s.Node? && s.key == key && x < |nodes| && nodes[x].key == key && nodes[x].value == Contents()[key]
      ensures x == NIL ==> s.Leaf?
    {
      x := root;
      path := [];
      s := T;
      while x != NIL
        invariant T == Plug(path, s) && x == IdOf(s)
        invariant Between(Before(path), key, After(path))
        decreases s
      {
        CursorSlot(nodes, path, s);
        if key == nodes[x].key {
          CursorValue(path, s);
          return;
        } else if key > nodes[x].key {
          Descend(path, s, key, R);
          path := [FrameOf(s, R)] + path;
          s := s.right;
          x := nodes[x].right;
        } else {
          Descend(path, s, key, L);
          path := [FrameOf(s, L)] + path;
          s := s.left;
          x := nodes[x].left;
        }
      }
      LeafAtNil(path, s);
      NotBetween(path, key);
      KeysContent(T);
    }

    /**
     * insertNodeInRBTree: overwrite the value of `key` if a node holds it,
     * otherwise hang a new red node where the search ended and restore the
     * red-black properties.
     */
    method InsertNodeInRBTree(key: int, value: V)
      requires Valid()
      modifies this
      ensures Valid() && Contents() == old(Contents())[key := value]
      ensures key in old(Contents()) ==>
                exists path, s :: old(T) == Plug(path, s) && s.Node? && s.key == key && T == Plug(path, s.(value := value))
    {
      var x := root;
      var y := NIL;
      ghost var path: seq<Frame<Color, V>> := [];
      ghost var s := T;
      while x != NIL
        invariant unchanged(this)
        invariant T == Plug(path, s) && x == IdOf(s) && y == ParentId(path)
        invariant Between(Before(path), key, After(path))
        decreases s
      {
        y := x;
        CursorSlot(nodes, path, s);
        if key == nodes[x].key {
          InsertOverwriteStep(nodes, root, path, s, value);
          nodes := nodes[x := nodes[x].(value := value)];
          T := Plug(path, s.(value := value));
          assert old(T) == Plug(path, s);
          return;
        } else if key > nodes[x].key {
          Descend(path, s, key, R);
          path := [FrameOf(s, R)] + path;
          s := s.right;
          x := nodes[x].right;
        } else {
          Descend(path, s, key, L);
          path := [FrameOf(s, L)] + path;
          s := s.left;
          x := nodes[x].left;
        }
      }
      LeafAtNil(path, s);
      LeafParent(nodes, path, key);
      NotBetween(path, key);
      KeysContent(T);
      assert key !in old(Contents());
      // The new node's links are `nil` from the start, as the Java code sets them before the fix-up.
      var z := |nodes|;
      ghost var n0, root0 := nodes, root;
      var a := nodes + [Slot(key, value, Red, NIL, NIL, y)];
      if y == NIL {
        root := z;
      } else if key > a[y].key {
        a := a[y := a[y].(right := z)];
      } else {
        a := a[y := a[y].(left := z)];
      }
      nodes := a;
      InsertLeafStep(n0, a, root0, root, path, key, value);
      ghost var n := Node(Leaf, z, key, value, Red, Leaf);
      T := Plug(path, n);
      InsertRBFixUp(z, path, n);
    }

    /**
     * One round of insertRBfixUp when the cursor's parent is a left child:
     * recolour under a red uncle (case 1), otherwise turn an inner grandchild
     * outward (case 2) and rotate the grandparent right (case 3).
     */
    method InsertFixUpLeft(z: nat, ghost path: seq<Frame<Color, V>>, ghost s: Tree<Color, V>,
                           ghost keys: seq<int>, ghost content: map<int, V>)
      returns (z': nat, ghost path': seq<Frame<Color, V>>, ghost s': Tree<Color, V>)
      requires InsertState(nodes, root, T, z, path, s, keys, content)
      requires |path| >= 2 && path[0].aux == Red && path[1].side == L
      modifies this
      ensures InsertState(nodes, root, T, z', path', s', keys, content) && |path'| < |path|
    {
      InsertGrandparent(path, s);
      FamilySlots(nodes, path, s);
      var p := nodes[z].parent;
      var g := nodes[p].parent;
      var y := nodes[g].right;
      if nodes[y].aux == Red {
        ghost var n0 := nodes;
        var a := nodes[p := nodes[p].(aux := Black)];
        ghost var n1 := a;
        a := a[y := a[y].(aux := Black)];
        ghost var n2 := a;
        a := a[g := a[g].(aux := Red)];
        nodes := a;
        InsertRecolorStep(n0, n1, n2, a, root, z, path, s, keys, content);
        z' := g;
        path', s' := path[2..], Attach(path[1].(aux := Red, sib := path[1].sib.(aux := Black)), Attach(path[0].(aux := Black), s));
        T := Plug(path', s');
      } else {
        z' := z;
        path', s' := path, s;
        if z == nodes[p].right {
          z' := p;
          LeftRotate(z', path[1..], Attach(path[0], s));
          InsertRotateParentStep(nodes, root, T, path, s, keys, content);
          path', s' := [FrameOf(s, L)] + path[1..], Attach(path[0], s.left);
        }
        InsertCase3(z', path', s', keys, content);
        path' := [path'[0].(aux := Black, sib := Attach(path'[1].(aux := Red), path'[0].sib))] + path'[2..];
      }
    }

    /**
     * One round of insertRBfixUp when the cursor's parent is a right child:
     * recolour under a red uncle (case 1), otherwise turn an inner grandchild
     * outward (case 2) and rotate the grandparent left (case 3).
     */
    method InsertFixUpRight(z: nat, ghost path: seq<Frame<Color, V>>, ghost s: Tree<Color, V>,
                           ghost keys: seq<int>, ghost content: map<int, V>)
      returns (z': nat, ghost path': seq<Frame<Color, V>>, ghost s': Tree<Color, V>)
      requires InsertState(nodes, root, T, z, path, s, keys, content)
      requires |path| >= 2 && path[0].aux == Red && path[1].side == R
      modifies this
      ensures InsertState(nodes, root, T, z', path', s', keys, content) && |path'| < |path|
    {
      InsertGrandparent(path, s);
      FamilySlots(nodes, path, s);
      var p := nodes[z].parent;
      var g := nodes[p].parent;
      var y := nodes[g].left;
      if nodes[y].aux == Red {
        ghost var n0 := nodes;
        var a := nodes[p := nodes[p].(aux := Black)];
        ghost var n1 := a;
        a := a[y := a[y].(aux := Black)];
        ghost var n2 := a;
        a := a[g := a[g].(aux := Red)];
        nodes := a;
        InsertRecolorStep(n0, n1, n2, a, root, z, path, s, keys, content);
        z' := g;
        path', s' := path[2..], Attach(path[1].(aux := Red, sib := path[1].sib.(aux := Black)), Attach(path[0].(aux := Black), s));
        T := Plug(path', s');
      } else {
        z' := z;
        path', s' := path, s;
        if z == nodes[p].left {
          z' := p;
          RightRotate(z', path[1..], Attach(path[0], s));
          InsertRotateParentStep(nodes, root, T, path, s, keys, content);
          path', s' := [FrameOf(s, R)] + path[1..], Attach(path[0], s.right);
        }
        InsertCase3(z', path', s', keys, content);
        path' := [path'[0].(aux := Black, sib := Attach(path'[1].(aux := Red), path'[0].sib))] + path'[2..];
      }
    }

    /**
     * Case 3 of insertRBfixUp: the uncle is black and the cursor is an outer
     * grandchild; paint the parent black and the grandparent red and rotate
     * the grandparent away from the cursor's side.
     */
    method InsertCase3(z: nat, ghost path: seq<Frame<Color, V>>, ghost s: Tree<Color, V>,
                       ghost keys: seq<int>, ghost content: map<int, V>)
      requires InsertReady(nodes, root, T, z, path, s, keys, content)
      modifies this
      ensures InsertState(nodes, root, T, z, [path[0].(aux := Black, sib := Attach(path[1].(aux := Red), path[0].sib))] + path[2..], s, keys, content)
    {
      FamilySlots(nodes, path, s);
      var p := nodes[z].parent;
      var g := nodes[p].parent;
      ghost var n0 := nodes;
      var a := nodes[p := nodes[p].(aux := Black)];
      ghost var n1 := a;
      a := a[g := a[g].(aux := Red)];
      InsertPaintStep(n0, n1, a, root, z, path, s, keys, content);
      nodes := a;
      ghost var u := Attach(path[1].(aux := Red), Attach(path[0].(aux := Black), s));
      T := Plug(path[2..], u);
      if p == nodes[g].left {
        RightRotate(g, path[2..], u);
      } else {
        LeftRotate(g, path[2..], u);
      }
      InsertLiftStep(nodes, root, T, path, s, keys, content);
    }

    /**
     * insertRBfixUp from the new red node `z0`: walk up while the cursor's
     * parent is red, recolouring (case 1) or rotating (cases 2 and 3), then
     * paint the root black.
     */
    method InsertRBFixUp(z0: nat, ghost path0: seq<Frame<Color, V>>, ghost s0: Tree<Color, V>)
      requires Linked() && T == Plug(path0, s0) && InsertInv(path0, s0) && z0 == s0.id && SearchTree(T)
      modifies this
      ensures Valid() && Contents() == old(Contents())
    {
      var z := z0;
      ghost var path := path0;
      ghost var s := s0;
      ghost var keys, content := Keys(T), Contents();
      ParentColour(nodes, path, s);
      while nodes[nodes[z].parent].aux == Red
        invariant InsertState(nodes, root, T, z, path, s, keys, content)
        decreases |path|
      {
        InsertGrandparent(path, s);
        FamilySlots(nodes, path, s);
        var p := nodes[z].parent;
        var g := nodes[p].parent;
        if p == nodes[g].left {
          z, path, s := InsertFixUpLeft(z, path, s, keys, content);
        } else {
          z, path, s := InsertFixUpRight(z, path, s, keys, content);
        }
      }
      InsertDone(path, s);
      if path != [] {
        PlugRoot(path, s, s);
      }
      PaintRepr(nodes, [], T, Black);
      BlackenRoot(T);
      nodes := nodes[root := nodes[root].(aux := Black)];
      T := T.(aux := Black);
    }

    /**
     * transplantRBTree: `v` takes `u`'s place under `u`'s parent (or as the
     * root). `v.parent` is written even when `v` is `nil`.
     */
    method TransplantRBTree(u: nat, v: nat)
      requires u < |nodes| && v < |nodes| && nodes[u].parent < |nodes|
      modifies this
      ensures nodes == Transplant(old(nodes), u, v) && T == old(T)
      ensures root == if old(nodes[u].parent) == NIL then v else old(root)
    {
      var p := nodes[u].parent;
      if p == NIL {
        root := v;
      }
      var a := nodes;
      if a[p].left == u {
        a := a[p := a[p].(left := v)];
      } else {
        a := a[p := a[p].(right := v)];
      }
      a := a[v := a[v].(parent := p)];
      nodes := a;
    }

    /**
     * getNodeWithMinimumKey: the leftmost node of the subtree at `r`, or no
     * node (Java's `null`) when that subtree is empty. The ghost results
     * give the left spine down to it.
     */
    method GetNodeWithMinimumKey(r: nat, ghost path: seq<Frame<Color, V>>, ghost t: Tree<Color, V>)
      returns (o: Option<nat>, ghost py: seq<Frame<Color, V>>, ghost n: Tree<Color, V>)
      requires Linked() && T == Plug(path, t) && r == IdOf(t)
      ensures o.None? <==> t.Leaf?
      ensures o.Some? ==> t == Plug(py, n) && AllLeft(py) && n.Node? && n.left.Leaf? && o.value == n.id
      ensures o.Some? && SearchTree(t) ==> n.key in Content(t) && forall k :: k in Content(t) ==> n.key <= k
    {
      LeafAtNil(path, t);
      py, n := [], t;
      if r == NIL {
        return None, py, n;
      }
      var x := r;
      assert py + path == path;
      CursorSlot(nodes, path, t);
      while nodes[x].left != NIL
        invariant n.Node? && x == n.id && x < |nodes| && t == Plug(py, n) && AllLeft(py) && T == Plug(py + path, n)
        decreases n
      {
        CursorSlot(nodes, py + path, n);
        assert Plug([FrameOf(n, L)] + (py + path), n.left) == Plug(py + path, n);
        LeafAtNil([FrameOf(n, L)] + (py + path), n.left);
        assert [FrameOf(n, L)] + py + path == [FrameOf(n, L)] + (py + path);
        py, n := [FrameOf(n, L)] + py, n.left;
        x := nodes[x].left;
        CursorSlot(nodes, py + path, n);
      }
      CursorSlot(nodes, py + path, n);
      assert Plug([FrameOf(n, L)] + (py + path), n.left) == Plug(py + path, n);
      LeafAtNil([FrameOf(n, L)] + (py + path), n.left);
      o := Some(x);
      if SearchTree(t) {
        MinKey(py, n);
      }
    }

    /**
     * removeNodeFromRBTree: cut out the node holding `key` (splicing out a
     * node with an empty child, or moving up its successor), then run the
     * fix-up when a black node left its position. Answers whether a node
     * held `key`.
     */
    method RemoveNodeFromRBTree(key: int) returns (b: bool)
      requires Valid()
      modifies this
      ensures Valid() && Contents() == old(Contents()) - {key}
      ensures b <==> key in old(Contents())
      ensures !b ==> nodes == old(nodes) && root == old(root) && T == old(T)
    {
      var z, path, s := GetNodeByKey(key);
      if z == NIL {
        assert Contents() - {key} == Contents();
        return false;
      }
      ghost var content := Contents() - {key};
      CutSlots(nodes, root, path, s);
      var x: nat;
      var yOriginalColor := nodes[z].aux;
      ghost var xpath: seq<Frame<Color, V>>, xs: Tree<Color, V>;
      if nodes[z].left == NIL {
        x := nodes[z].right;
        RemoveOneStep(nodes, root, path, s, s.right);
        TransplantRBTree(z, x);
        xpath, xs := path, s.right;
      } else if nodes[z].right == NIL {
        x := nodes[z].left;
        RemoveOneStep(nodes, root, path, s, s.left);
        TransplantRBTree(z, x);
        xpath, xs := path, s.left;
      } else {
        x, yOriginalColor, xpath, xs := RemoveWithSuccessor(z, path, s);
      }
      T := Plug(xpath, xs);
      if yOriginalColor == Black {
        b := DeleteRBFixUp(x, xpath, xs, content);
      } else {
        b := true;
      }
    }

    /**
     * The two-child branch of removeNodeFromRBTree: the successor y of z
     * takes z's place, subtrees and colour; y's right child x takes y's old
     * place (directly when y is z's right child). Answers x, y's colour
     * before the move, and the position of x.
     */
    method RemoveWithSuccessor(z: nat, ghost path: seq<Frame<Color, V>>, ghost s: Tree<Color, V>)
      returns (x: nat, yOriginalColor: Color, ghost xpath: seq<Frame<Color, V>>, ghost xs: Tree<Color, V>)
      requires Valid() && T == Plug(path, s) && s.Node? && z == s.id && s.left.Node? && s.right.Node?
      modifies this
      ensures T == old(T) && Removed(nodes, root, Plug(xpath, xs), x, xpath, xs, yOriginalColor, old(Contents()) - {s.key})
      ensures var p := Spine(s.right);
        xpath == p.0 + ([Frame(R, p.1.id, p.1.key, p.1.value, s.aux, s.left)] + path) && xs == p.1.right
        && yOriginalColor == p.1.aux
    {
      CutSlots(nodes, root, path, s);
      assert Plug([FrameOf(s, R)] + path, s.right) == T;
      var o, py, m := GetNodeWithMinimumKey(nodes[z].right, [FrameOf(s, R)] + path, s.right);
      SpineUnique(py, m, s.right);
      var y := o.value;
      SuccessorSlots(nodes, root, path, s, py, m);
      yOriginalColor := nodes[y].aux;
      x := nodes[y].right;
      if nodes[y].parent == z {
        assert py == [] && s.right == m;
        SpliceAdjacent(z, y, x, path, s);
        assert py + ([Frame(R, m.id, m.key, m.value, s.aux, s.left)] + path) == [Frame(R, m.id, m.key, m.value, s.aux, s.left)] + path;
      } else {
        SpliceSuccessor(z, y, x, path, s, py, m);
      }
      xpath, xs := py + ([Frame(R, m.id, m.key, m.value, s.aux, s.left)] + path), m.right;
    }

    /** The successor y is z's right child: x.parent = y, then y replaces z. */
    method SpliceAdjacent(z: nat, y: nat, x: nat, ghost path: seq<Frame<Color, V>>, ghost s: Tree<Color, V>)
      requires Valid() && T == Plug(path, s) && s.Node? && z == s.id && s.left.Node? && s.right.Node? && s.right.left.Leaf?
      requires y == s.right.id && x == IdOf(s.right.right)
      modifies this
      ensures var m := s.right;
        var xpath := [Frame(R, m.id, m.key, m.value, s.aux, s.left)] + path;
        T == old(T) && Removed(nodes, root, Plug(xpath, m.right), x, xpath, m.right, m.aux, old(Contents()) - {s.key})
    {
      ghost var n0, root0 := nodes, root;
      ghost var py: seq<Frame<Color, V>> := [];
      SuccessorSlots(n0, root0, path, s, py, s.right);
      var a := nodes[x := nodes[x].(parent := y)];
      ghost var a1 := a;
      nodes := a;
      TransplantRBTree(z, y);
      a := nodes;
      ghost var a3 := a;
      a := a[y := a[y].(left := a[z].left)];
      ghost var a4 := a;
      a := a[a[y].left := a[a[y].left].(parent := y)];
      ghost var a5 := a;
      a := a[y := a[y].(aux := a[z].aux)];
      nodes := a;
      RemoveAdjacentStep(n0, a1, a3, a4, a5, a, root0, path, s);
    }

    /**
     * The successor y is deeper in z's right subtree: y's right child x
     * replaces y, y takes over z's right subtree, then y replaces z.
     */
    method SpliceSuccessor(z: nat, y: nat, x: nat, ghost path: seq<Frame<Color, V>>, ghost s: Tree<Color, V>,
                           ghost py: seq<Frame<Color, V>>, ghost m: Tree<Color, V>)
      requires Valid() && T == Plug(path, s) && s.Node? && z == s.id && s.left.Node?
      requires s.right == Plug(py, m) && py != [] && AllLeft(py) && m.Node? && m.left.Leaf? && y == m.id && x == IdOf(m.right)
      modifies this
      ensures var xpath := py + ([Frame(R, m.id, m.key, m.value, s.aux, s.left)] + path);
        T == old(T) && Removed(nodes, root, Plug(xpath, m.right), x, xpath, m.right, m.aux, old(Contents()) - {s.key})
    {
      ghost var n0, root0 := nodes, root;
      SuccessorSlots(n0, root0, path, s, py, m);
      TransplantRBTree(y, x);
      assert nodes[z] == n0[z] && |nodes| == |n0| && n0[z].right < |n0|;
      var a := nodes;
      ghost var n2 := a;
      a := a[y := a[y].(right := a[z].right)];
      ghost var n3 := a;
      a := a[a[y].right := a[a[y].right].(parent := y)];
      ghost var n4 := a;
      nodes := a;
      TransplantRBTree(z, y);
      a := nodes;
      ghost var n6 := a;
      a := a[y := a[y].(left := a[z].left)];
      ghost var n7 := a;
      a := a[a[y].left := a[a[y].left].(parent := y)];
      ghost var n8 := a;
      a := a[y := a[y].(aux := a[z].aux)];
      nodes := a;
      RemoveSuccessorStep(n0, n2, n3, n4, n6, n7, n8, a, root0, path, s, py, m);
    }

    /**
     * deleteRBfixUp from the cursor x, which carries an extra black: walk up
     * while x is a black non-root node, recolouring (case 2) or rotating
     * (cases 1, 3 and 4), then paint x black. Always answers true.
     */
    method DeleteRBFixUp(x0: nat, ghost path0: seq<Frame<Color, V>>, ghost s0: Tree<Color, V>, ghost content: map<int, V>)
      returns (b: bool)
      requires Removed(nodes, root, T, x0, path0, s0, Black, content)
      modifies this
      ensures Valid() && Contents() == content && b
    {
      var x := x0;
      ghost var path, s := path0, s0;
      DeleteGuard(nodes, root, T, x, path, s, content);
      while x != root && nodes[x].aux == Black
        invariant Removed(nodes, root, T, x, path, s, Black, content)
        decreases 2 * |path| + Weight(ColorOf(s))
      {
        DeleteGuard(nodes, root, T, x, path, s, content);
        DeleteFamily(nodes, root, T, x, path, s, content);
        if x == nodes[nodes[x].parent].left {
          x, path, s := DeleteFixUpLeft(x, path, s, content);
        } else {
          x, path, s := DeleteFixUpRight(x, path, s, content);
        }
        DeleteGuard(nodes, root, T, x, path, s, content);
      }
      DeleteGuard(nodes, root, T, x, path, s, content);
      DeleteDone(path, s);
      if s.Node? {
        PaintStores(nodes, root, path, s, Black);
      } else {
        assert nodes[x := nodes[x].(aux := Black)] == nodes;
      }
      nodes := nodes[x := nodes[x].(aux := Black)];
      T := Plug(path, Blacken(s));
      b := true;
    }

    /**
     * One round of deleteRBfixUp when x is a left child: a red sibling is
     * rotated away first (case 1); then either the black sibling turns red
     * and x moves up (case 2), or rotations at the sibling (case 3) and the
     * parent (case 4) absorb the extra black and x becomes the root.
     */
    method DeleteFixUpLeft(x: nat, ghost path: seq<Frame<Color, V>>, ghost s: Tree<Color, V>, ghost content: map<int, V>)
      returns (x': nat, ghost path': seq<Frame<Color, V>>, ghost s': Tree<Color, V>)
      requires Removed(nodes, root, T, x, path, s, Black, content) && path != [] && ColorOf(s) == Black && path[0].side == L
      modifies this
      ensures Removed(nodes, root, T, x', path', s', Black, content)
      ensures 2 * |path'| + Weight(ColorOf(s')) < 2 * |path| + 1
    {
      DeleteFamily(nodes, root, T, x, path, s, content);
      var p := nodes[x].parent;
      var w := nodes[p].right;
      path' := path;
      if nodes[w].aux == Red {
        path' := DeleteCase1(L, x, p, w, path, s, content);
        DeleteFamily(nodes, root, T, x, path', s, content);
        w := nodes[p].right;
      }
      if nodes[nodes[w].left].aux == Black && nodes[nodes[w].right].aux == Black {
        var a := nodes[w := nodes[w].(aux := Red)];
        RecolorStep(nodes, a, root, path', s, content);
        nodes := a;
        x' := p;
        path', s' := path'[1..], Attach(path'[0].(sib := path'[0].sib.(aux := Red)), s);
        T := Plug(path', s');
      } else {
        if nodes[nodes[w].right].aux == Black {
          path' := DeleteCase3(L, x, w, path', s, content);
          DeleteFamily(nodes, root, T, x, path', s, content);
          w := nodes[p].right;
        }
        DeleteCase4(L, x, p, w, path', s, content);
        x' := root;
        path', s' := [], T;
      }
    }

    /** One round of deleteRBfixUp when x is a right child: the mirror image of DeleteFixUpLeft. */
    method DeleteFixUpRight(x: nat, ghost path: seq<Frame<Color, V>>, ghost s: Tree<Color, V>, ghost content: map<int, V>)
      returns (x': nat, ghost path': seq<Frame<Color, V>>, ghost s': Tree<Color, V>)
      requires Removed(nodes, root, T, x, path, s, Black, content) && path != [] && ColorOf(s) == Black && path[0].side == R
      modifies this
      ensures Removed(nodes, root, T, x', path', s', Black, content)
      ensures 2 * |path'| + Weight(ColorOf(s')) < 2 * |path| + 1
    {
      DeleteFamily(nodes, root, T, x, path, s, content);
      var p := nodes[x].parent;
      var w := nodes[p].left;
      path' := path;
      if nodes[w].aux == Red {
        path' := DeleteCase1(R, x, p, w, path, s, content);
        DeleteFamily(nodes, root, T, x, path', s, content);
        w := nodes[p].left;
      }
      if nodes[nodes[w].right].aux == Black && nodes[nodes[w].left].aux == Black {
        var a := nodes[w := nodes[w].(aux := Red)];
        RecolorStep(nodes, a, root, path', s, content);
        nodes := a;
        x' := p;
        path', s' := path'[1..], Attach(path'[0].(sib := path'[0].sib.(aux := Red)), s);
        T := Plug(path', s');
      } else {
        if nodes[nodes[w].left].aux == Black {
          path' := DeleteCase3(R, x, w, path', s, content);
          DeleteFamily(nodes, root, T, x, path', s, content);
          w := nodes[p].left;
        }
        DeleteCase4(R, x, p, w, path', s, content);
        x' := root;
        path', s' := [], T;
      }
    }

    /**
     * Case 1 of deleteRBfixUp: the red sibling w turns black, the parent p
     * red, and p is rotated towards x. x keeps its parent, now red, and gets
     * a black sibling.
     */
    method DeleteCase1(d: Side, x: nat, p: nat, w: nat, ghost path: seq<Frame<Color, V>>, ghost s: Tree<Color, V>, ghost content: map<int, V>)
      returns (ghost path': seq<Frame<Color, V>>)
      requires Removed(nodes, root, T, x, path, s, Black, content) && path != [] && ColorOf(s) == Black && d == path[0].side
      requires path[0].sib.Node? && path[0].sib.aux == Red && p == path[0].id && w == path[0].sib.id
      modifies this
      ensures Removed(nodes, root, T, x, path', s, Black, content) && |path'| == |path| + 1
      ensures path'[0].side == path[0].side && path'[0].id == p && path'[0].aux == Red
    {
      DeleteFamily(nodes, root, T, x, path, s, content);
      ghost var n0 := nodes;
      var a := nodes[w := nodes[w].(aux := Black)];
      ghost var n1 := a;
      a := a[p := a[p].(aux := Red)];
      RedSiblingPaint(n0, n1, a, root, path, s, content);
      nodes := a;
      ghost var q0 := path[0].(aux := Red, sib := path[0].sib.(aux := Black));
      ghost var u := Attach(q0, s);
      T := Plug(path[1..], u);
      if d == L {
        LeftRotate(p, path[1..], u);
      } else {
        RightRotate(p, path[1..], u);
      }
      RedSiblingStep(nodes, root, path, s, content);
      path' := [q0.(sib := Child(q0.sib, d)), FrameOf(q0.sib, d)] + path[1..];
      T := Plug(path', s);
    }

    /**
     * Case 3 of deleteRBfixUp: w's red near child turns black, w red, and w
     * is rotated away from x; x's new sibling is black with a red far child.
     */
    method DeleteCase3(d: Side, x: nat, w: nat, ghost path: seq<Frame<Color, V>>, ghost s: Tree<Color, V>, ghost content: map<int, V>)
      returns (ghost path': seq<Frame<Color, V>>)
      requires Removed(nodes, root, T, x, path, s, Black, content) && path != [] && ColorOf(s) == Black && d == path[0].side
      requires path[0].sib.Node? && path[0].sib.aux == Black && w == path[0].sib.id
      requires ColorOf(Child(path[0].sib, Opp(path[0].side))) == Black && ColorOf(Child(path[0].sib, path[0].side)) == Red
      modifies this
      ensures Removed(nodes, root, T, x, path', s, Black, content) && |path'| == |path|
      ensures path'[0].side == path[0].side && path'[0].id == path[0].id && path'[0].sib.Node? && path'[0].sib.aux == Black
      ensures ColorOf(Child(path'[0].sib, Opp(path[0].side))) == Red
    {
      ghost var sib := path[0].sib;
      DeleteFamily(nodes, root, T, x, path, s, content);
      ghost var n0 := nodes;
      var near := if d == L then nodes[w].left else nodes[w].right;
      var a := nodes[near := nodes[near].(aux := Black)];
      ghost var n1 := a;
      a := a[w := a[w].(aux := Red)];
      NearPaint(n0, n1, a, root, path, s, content);
      nodes := a;
      ghost var w1 := WithChild(sib, d, Child(sib, d).(aux := Black)).(aux := Red);
      ghost var up := [Flip(path[0], s)] + path[1..];
      T := Plug(up, w1);
      if d == L {
        RightRotate(w, up, w1);
      } else {
        LeftRotate(w, up, w1);
      }
      RotateSiblingStep(nodes, root, path, s, content);
      path' := [path[0].(sib := Rotate(w1, Opp(d)))] + path[1..];
      T := Plug(path', s);
    }

    /**
     * Case 4 of deleteRBfixUp: w takes the parent's colour, the parent and
     * w's far child turn black, and the parent is rotated towards x. The
     * extra black is absorbed and x becomes the root.
     */
    method DeleteCase4(d: Side, x: nat, p: nat, w: nat, ghost path: seq<Frame<Color, V>>, ghost s: Tree<Color, V>, ghost content: map<int, V>)
      requires Removed(nodes, root, T, x, path, s, Black, content) && path != [] && ColorOf(s) == Black && d == path[0].side
      requires path[0].sib.Node? && path[0].sib.aux == Black && p == path[0].id && w == path[0].sib.id
      requires ColorOf(Child(path[0].sib, Opp(path[0].side))) == Red
      modifies this
      ensures Removed(nodes, root, T, root, [], T, Black, content)
    {
      ghost var sib := path[0].sib;
      DeleteFamily(nodes, root, T, x, path, s, content);
      ghost var n0 := nodes;
      var a := nodes[w := nodes[w].(aux := nodes[p].aux)];
      ghost var n1 := a;
      a := a[p := a[p].(aux := Black)];
      ghost var n2 := a;
      var far := if d == L then a[w].right else a[w].left;
      a := a[far := a[far].(aux := Black)];
      FarPaint(n0, n1, n2, a, root, path, s, content);
      nodes := a;
      ghost var w1 := WithChild(sib.(aux := path[0].aux), Opp(d), Child(sib, Opp(d)).(aux := Black));
      ghost var u := Attach(path[0].(aux := Black, sib := w1), s);
      T := Plug(path[1..], u);
      if d == L {
        LeftRotate(p, path[1..], u);
      } else {
        RightRotate(p, path[1..], u);
      }
      RotateParentStep(nodes, root, path, s, content);
    }
  }
}
