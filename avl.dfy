/**
 * The balance factors of the AVL tree container (`AVLTree`).
 *
 * Every node stores an `int` balance factor. It is meant to be the height
 * of the right subtree minus the height of the left one. The container
 * keeps it up to date by bookkeeping alone and never recomputes heights.
 * This module states, on tree shapes, what insertNodeInAVLTree does:
 * - the search for the key;
 * - the walk of balanceForInsertingNode, which adjusts the factors upward;
 * - the single or double rotation that `rotating` picks from its fixed
 *   tables of factors.
 * The factors it writes always stay within -1..1, and the keys and entries
 * are never disturbed. The tables do not always give the true height
 * differences; `DriftExample` shows a case.
 */
module Avl {
  import opened Shapes
  import opened ShapeFacts
  import opened Splice

  /** The stored balance factors, in in-order. */
  function Factors<V>(t: Tree<int, V>): seq<int>
  {
    match t
    case Leaf => []
    case Node(l, _, _, _, a, r) => Factors(l) + [a] + Factors(r)
  }

  /** Every stored factor is -1, 0 or 1. */
  ghost predicate Bounded<V>(t: Tree<int, V>)
  {
    forall i :: 0 <= i < |Factors(t)| ==> -1 <= Factors(t)[i] <= 1
  }

  /** Every frame of a path stores a factor in -1..1, and so does every node of its sibling subtrees. */
  ghost predicate PathBounded<V>(path: seq<Frame<int, V>>)
  {
    forall i :: 0 <= i < |path| ==> -1 <= path[i].aux <= 1 && Bounded(path[i].sib)
  }

  function Height<V>(t: Tree<int, V>): nat
  {
    match t
    case Leaf => 0
    case Node(l, _, _, _, _, r) => 1 + if Height(l) < Height(r) then Height(r) else Height(l)
  }

  /** Every stored factor is the true height difference of its node's subtrees. */
  ghost predicate Exact<V>(t: Tree<int, V>)
  {
    match t
    case Leaf => true
    case Node(l, _, _, _, a, r) => a == Height(r) - Height(l) && Exact(l) && Exact(r)
  }

  lemma BoundedNode<V>(t: Tree<int, V>)
    requires t.Node?
    ensures Bounded(t) <==> Bounded(t.left) && -1 <= t.aux <= 1 && Bounded(t.right)
  {
    var a, b := Factors(t.left), Factors(t.right);
    assert Factors(t) == a + [t.aux] + b;
    if Bounded(t) {
      forall i | 0 <= i < |a| ensures -1 <= a[i] <= 1 {
        assert Factors(t)[i] == a[i];
      }
      forall i | 0 <= i < |b| ensures -1 <= b[i] <= 1 {
        assert Factors(t)[|a| + 1 + i] == b[i];
      }
      assert Factors(t)[|a|] == t.aux;
    }
    if Bounded(t.left) && -1 <= t.aux <= 1 && Bounded(t.right) {
      forall i | 0 <= i < |Factors(t)| ensures -1 <= Factors(t)[i] <= 1 {
        if i < |a| {
          assert Factors(t)[i] == a[i];
        } else if |a| < i {
          assert Factors(t)[i] == b[i - |a| - 1];
        }
      }
    }
  }

  lemma {:induction false} BoundedPlug<V>(path: seq<Frame<int, V>>, s: Tree<int, V>)
    ensures Bounded(Plug(path, s)) <==> PathBounded(path) && Bounded(s)
    decreases |path|
  {
    if path != [] {
      BoundedPlug(path[1..], Attach(path[0], s));
      BoundedNode(Attach(path[0], s));
      if PathBounded(path[1..]) && -1 <= path[0].aux <= 1 && Bounded(path[0].sib) {
        forall i | 0 <= i < |path| ensures -1 <= path[i].aux <= 1 && Bounded(path[i].sib) {
          if i > 0 {
            assert path[i] == path[1..][i - 1];
          }
        }
      }
      if PathBounded(path) {
        forall i | 0 <= i < |path[1..]| ensures -1 <= path[1..][i].aux <= 1 && Bounded(path[1..][i].sib) {
          assert path[1..][i] == path[i + 1];
        }
      }
    }
  }

  // ------------------------------------------------------------ rotating

  /**
   * A node whose factor leans, if at all, towards a real child: the state of
   * the insertion walk's cursor.
   */
  ghost predicate Leans<V>(s: Tree<int, V>)
  {
    s.Node? && -1 <= s.aux <= 1 && (s.aux == 1 ==> s.right.Node?) && (s.aux == -1 ==> s.left.Node?)
  }

  /**
   * What `rotating` follows at node y: the child z on the side y's factor
   * leans to (the right child when positive, the left one otherwise), and,
   * when z leans the other way, the grandchild a double rotation lifts.
   */
  ghost predicate RotateReady<V>(y: Tree<int, V>)
  {
    y.Node?
    && (y.aux > 0 ==> y.right.Node? && (y.right.aux <= -1 ==> y.right.left.Node?))
    && (y.aux <= 0 ==> y.left.Node? && (y.left.aux >= 1 ==> y.left.right.Node?))
  }

  /** Whether `rotating` at y does a single rotation (z does not lean away from y's heavy side). */
  predicate SingleTurn<V>(y: Tree<int, V>)
    requires y.Node? && (y.aux > 0 ==> y.right.Node?) && (y.aux <= 0 ==> y.left.Node?)
  {
    if y.aux > 0 then y.right.aux > -1 else y.left.aux < 1
  }

  /**
   * rotating at node y: write the factors of y and its child z from the
   * tables, then rotate y away from its heavy side, first rotating z when
   * z leans the other way. The double-rotation rows write z's factor twice,
   * and only the second write (0) matters. They never write the factor of
   * the grandchild that ends up on top.
   */
  function Rotating<V>(y: Tree<int, V>): (r: Tree<int, V>)
    requires RotateReady(y)
    ensures r.Node? && Keys(r) == Keys(y) && Content(r) == Content(y)
  {
    if y.aux > 0 then
      var z := y.right;
      if z.aux > -1 then
        var y' := if z.aux == 1 then y.(aux := 0, right := z.(aux := 0)) else y.(aux := 1, right := z.(aux := -1));
        RotateLeftShape(y');
        RotateLeft(y')
      else
        var z' := z.(aux := 0);
        var y' := if z.left.aux == -1 then y.(aux := 0, right := RotateRight(z'))
                  else if z.left.aux == 1 then y.(aux := -1, right := RotateRight(z'))
                  else y.(aux := 0, right := RotateRight(z'));
        RotateRightShape(z');
        RotateLeftShape(y');
        RotateLeft(y')
    else
      var z := y.left;
      if z.aux < 1 then
        var y' := if z.aux == -1 then y.(aux := 0, left := z.(aux := 0)) else y.(aux := -1, left := z.(aux := 1));
        RotateRightShape(y');
        RotateRight(y')
      else
        var z' := z.(aux := 0);
        var y' := if z.right.aux == 1 then y.(aux := 0, left := RotateLeft(z'))
                  else if z.right.aux == -1 then y.(aux := 1, left := RotateLeft(z'))
                  else y.(aux := 0, left := RotateLeft(z'));
        RotateLeftShape(z');
        RotateRightShape(y');
        RotateRight(y')
  }

  lemma {:induction false} FactorsRotateLeft<V>(t: Tree<int, V>)
    requires t.Node? && t.right.Node?
    ensures Factors(RotateLeft(t)) == Factors(t)
  {
    var a, y, b, c := t.left, t.right, t.right.left, t.right.right;
    assert Factors(t) == Factors(a) + [t.aux] + (Factors(b) + [y.aux] + Factors(c));
    assert Factors(RotateLeft(t)) == (Factors(a) + [t.aux] + Factors(b)) + [y.aux] + Factors(c);
  }

  lemma {:induction false} FactorsRotateRight<V>(t: Tree<int, V>)
    requires t.Node? && t.left.Node?
    ensures Factors(RotateRight(t)) == Factors(t)
  {
    var y, a, b, c := t.left, t.left.left, t.left.right, t.right;
    assert Factors(t) == (Factors(a) + [y.aux] + Factors(b)) + [t.aux] + Factors(c);
    assert Factors(RotateRight(t)) == Factors(a) + [y.aux] + (Factors(b) + [t.aux] + Factors(c));
  }

  /**
   * The factors `rotating` leaves are all in -1..1 when those below y were.
   * After a single rotation whose child factor is not 0, the child, now on
   * top, leans towards y below it.
   */
  lemma RotatingBounded<V>(y: Tree<int, V>)
    requires RotateReady(y) && Bounded(y.left) && Bounded(y.right)
    ensures Bounded(Rotating(y))
    ensures SingleTurn(y) && Rotating(y).aux != 0 ==> Leans(Rotating(y))
  {
    if y.aux > 0 {
      var z := y.right;
      BoundedNode(z);
      if z.aux > -1 {
        var y' := if z.aux == 1 then y.(aux := 0, right := z.(aux := 0)) else y.(aux := 1, right := z.(aux := -1));
        BoundedNode(y'.right);
        BoundedNode(y');
        FactorsRotateLeft(y');
      } else {
        var z' := z.(aux := 0);
        BoundedNode(z');
        FactorsRotateRight(z');
        var y' := if z.left.aux == 1 then y.(aux := -1, right := RotateRight(z')) else y.(aux := 0, right := RotateRight(z'));
        BoundedNode(y');
        FactorsRotateLeft(y');
      }
    } else {
      var z := y.left;
      BoundedNode(z);
      if z.aux < 1 {
        var y' := if z.aux == -1 then y.(aux := 0, left := z.(aux := 0)) else y.(aux := -1, left := z.(aux := 1));
        BoundedNode(y'.left);
        BoundedNode(y');
        FactorsRotateRight(y');
      } else {
        var z' := z.(aux := 0);
        BoundedNode(z');
        FactorsRotateLeft(z');
        var y' := if z.right.aux == -1 then y.(aux := 1, left := RotateLeft(z')) else y.(aux := 0, left := RotateLeft(z'));
        BoundedNode(y');
        FactorsRotateRight(y');
      }
    }
  }

  /**
   * Where `rotating` leaves y's heavy child z: on top after a single
   * rotation, with factor 0 when z leaned the same way as y; below the
   * lifted grandchild, with factor 0, after a double rotation.
   */
  lemma RotatingChild<V>(y: Tree<int, V>)
    requires RotateReady(y) && -1 <= Child(y, if y.aux > 0 then R else L).aux <= 1
    ensures var d := if y.aux > 0 then R else L;
      var z := Child(y, d);
      var r := Rotating(y);
      (SingleTurn(y) ==> r.id == z.id && (z.aux != 0 ==> r.aux == 0))
      && (!SingleTurn(y) ==> Child(r, d).Node? && Child(r, d).id == z.id && Child(r, d).aux == 0)
  {
  }

  // ------------------------------------------------------ the insertion walk

  /** The factor balanceForInsertingNode gives the cursor's parent: one more towards the cursor's side. */
  function Bumped<V>(f: Frame<int, V>): int
  {
    if f.side == R then f.aux + 1 else f.aux - 1
  }

  /**
   * One round of balanceForInsertingNode, from a cursor whose parent is
   * path[0]: the parent's new factor, and what the round leaves for the rest
   * of the walk.
   */
  lemma ClimbStep<V>(path: seq<Frame<int, V>>, s: Tree<int, V>)
    requires PathBounded(path) && Bounded(s) && Leans(s) && path != []
    ensures var b := Bumped(path[0]); var y := Attach(path[0].(aux := b), s);
      PathBounded(path[1..]) && -2 <= b <= 2
      && Keys(Plug(path[1..], y)) == Keys(Plug(path, s)) && Content(Plug(path[1..], y)) == Content(Plug(path, s))
      && (-1 <= b <= 1 ==> Bounded(y) && Leans(y) && Bounded(Plug(path[1..], y)))
      && (b == 2 || b == -2 ==>
            RotateReady(y) && Bounded(Rotating(y)) && Bounded(Plug(path[1..], Rotating(y)))
            && (SingleTurn(y) && Rotating(y).aux != 0 ==> Leans(Rotating(y)))
            && Keys(Plug(path[1..], Rotating(y))) == Keys(Plug(path, s))
            && Content(Plug(path[1..], Rotating(y))) == Content(Plug(path, s)))
  {
    var f := path[0];
    var b := Bumped(f);
    var y := Attach(f.(aux := b), s);
    assert path[0] == path[0] && -1 <= f.aux <= 1 && Bounded(f.sib);
    assert PathBounded(path[1..]) by {
      forall i | 0 <= i < |path[1..]| ensures -1 <= path[1..][i].aux <= 1 && Bounded(path[1..][i].sib) {
        assert path[1..][i] == path[i + 1];
      }
    }
    assert Plug(path, s) == Plug(path[1..], Attach(f, s));
    PlugSameContent(path[1..], Attach(f, s), y);
    BoundedNode(y);
    BoundedNode(s);
    if -1 <= b <= 1 {
      BoundedPlug(path[1..], y);
    } else {
      RotatingBounded(y);
      BoundedPlug(path[1..], Rotating(y));
      PlugSameContent(path[1..], y, Rotating(y));
    }
  }

  /**
   * The tree balanceForInsertingNode leaves, from a cursor (the new node, or
   * a node whose factor it has just set) at the position `path`. At each
   * parent it adds one to the factor when the cursor is the right child,
   * and subtracts one otherwise. It stops when the factor becomes 0. When
   * the factor's magnitude exceeds 1 it runs `rotating`, and it stops if
   * the cursor's factor is then 0. Otherwise it moves up to the parent, or
   * stays at the cursor after a rotation, which lifted the cursor one
   * level. The keys and entries do not change and every factor stays in
   * -1..1.
   */
  ghost function Climb<V>(path: seq<Frame<int, V>>, s: Tree<int, V>): (r: Tree<int, V>)
    requires PathBounded(path) && Bounded(s) && Leans(s)
    ensures Keys(r) == Keys(Plug(path, s)) && Content(r) == Content(Plug(path, s)) && Bounded(r)
    decreases |path|
  {
    if path == [] then
      BoundedPlug(path, s);
      s
    else
      var b := Bumped(path[0]);
      var y := Attach(path[0].(aux := b), s);
      ClimbStep(path, s);
      if b == 0 then Plug(path[1..], y)
      else if -1 <= b <= 1 then Climb(path[1..], y)
      else
        var r := Rotating(y);
        if SingleTurn(y) && r.aux != 0 then Climb(path[1..], r) else Plug(path[1..], r)
  }

  /**
   * Once the walk has moved up from the new node, the cursor's factor is 1
   * or -1, so a rotation at its parent ends the walk: the cursor's factor
   * is 0 afterwards whichever table row applies.
   */
  lemma ClimbRotationStops<V>(path: seq<Frame<int, V>>, s: Tree<int, V>)
    requires PathBounded(path) && Bounded(s) && Leans(s) && path != [] && s.aux != 0
    requires Bumped(path[0]) == 2 || Bumped(path[0]) == -2
    ensures var y := Attach(path[0].(aux := Bumped(path[0])), s);
      RotateReady(y) && Climb(path, s) == Plug(path[1..], Rotating(y))
  {
    var y := Attach(path[0].(aux := Bumped(path[0])), s);
    ClimbStep(path, s);
    RotatingChild(y);
  }

  /** The new node insertNodeInAVLTree creates: factor 0 and `nil` children. */
  function NewNode<V>(id: nat, key: int, value: V): Tree<int, V>
  {
    Node(Leaf, id, key, value, 0, Leaf)
  }

  /**
   * insertNodeInAVLTree on shapes: overwrite the value where the search for
   * `key` finds it, otherwise hang a new node (arena index `id`) where the
   * search stops and run the insertion walk from it.
   */
  ghost function InsertShape<V>(t: Tree<int, V>, key: int, value: V, id: nat): (r: Tree<int, V>)
    requires Bounded(t)
    ensures Bounded(r)
  {
    var loc := Locate([], t, key);
    assert Plug([], t) == t;
    BoundedPlug(loc.0, loc.1);
    if loc.1.Node? then
      BoundedNode(loc.1);
      BoundedNode(loc.1.(value := value));
      BoundedPlug(loc.0, loc.1.(value := value));
      Plug(loc.0, loc.1.(value := value))
    else
      BoundedNode(NewNode(id, key, value));
      Climb(loc.0, NewNode(id, key, value))
  }

  /**
   * Inserting into a search tree whose factors are in -1..1 gives a search
   * tree whose factors are in -1..1, holding the old entries with `key`
   * mapped to `value`.
   */
  lemma InsertShapeSpec<V>(t: Tree<int, V>, key: int, value: V, id: nat)
    requires Bounded(t) && SearchTree(t)
    ensures var r := InsertShape(t, key, value, id);
      SearchTree(r) && Bounded(r) && Content(r) == Content(t)[key := value]
  {
    var loc := Locate([], t, key);
    assert Plug([], t) == t;
    LocateFound([], t, key);
    BoundedPlug(loc.0, loc.1);
    if loc.1.Node? {
      ContentRevalue(loc.0, loc.1, value);
      BoundedNode(loc.1);
      BoundedNode(loc.1.(value := value));
      BoundedPlug(loc.0, loc.1.(value := value));
    } else {
      var n := NewNode(id, key, value);
      ContentInsert(loc.0, n);
    }
  }

  // -------------------------------------------------------------- deletion

  /** How deleteNodeFromAVLTree ends in this model. */
  datatype Deletion =
    | Returned(found: bool)  // the Java method returns `found`
    | NilKeyRead             // balanceForDeletingNode reads the key of `nil`: a null dereference in Java
    | RotationReached        // balanceForDeletingNode is about to call `rotating`, where the model stops

  /**
   * The position deleteNodeFromAVLTree hands to balanceForDeletingNode when
   * it removes the node at the cursor s, and the subtree x found there. With
   * an empty child, the other child takes s's place. Otherwise the successor
   * m (the leftmost node on the right) takes s's place, its subtrees and
   * keeps its own factor, and x is m's old right child at m's old place.
   */
  function Replacement<V>(path: seq<Frame<int, V>>, s: Tree<int, V>): (r: (seq<Frame<int, V>>, Tree<int, V>))
    requires s.Node?
  {
    if s.left.Leaf? then (path, s.right)
    else if s.right.Leaf? then (path, s.left)
    else
      var p := Spine(s.right);
      var m := p.1;
      (p.0 + ([Frame(R, m.id, m.key, m.value, m.aux, s.left)] + path), m.right)
  }

  /** The factor balanceForDeletingNode gives the cursor's parent: one less towards the cursor's side. */
  function Dropped<V>(f: Frame<int, V>): int
  {
    if f.side == R then f.aux - 1 else f.aux + 1
  }

  /**
   * The walk of balanceForDeletingNode from a node cursor. At each parent
   * it subtracts one from the factor when the cursor is the right child
   * (its key is the greater) and adds one otherwise. Then it stops when the
   * cursor's own factor is 1 or -1, stops before `rotating` when the
   * parent's factor has magnitude above 1, and otherwise moves up. Answers
   * the tree and whether the walk stopped before a rotation.
   */
  ghost function Shrink<V>(path: seq<Frame<int, V>>, s: Tree<int, V>): (r: (Tree<int, V>, bool))
    requires s.Node?
    ensures Keys(r.0) == Keys(Plug(path, s)) && Content(r.0) == Content(Plug(path, s))
    ensures r.1 ==> path != []
    decreases |path|
  {
    if path == [] then (s, false)
    else
      var b := Dropped(path[0]);
      var y := Attach(path[0].(aux := b), s);
      assert Plug(path, s) == Plug(path[1..], Attach(path[0], s));
      PlugSameContent(path[1..], Attach(path[0], s), y);
      if s.aux == 1 || s.aux == -1 then (Plug(path[1..], y), false)
      else if b < -1 || 1 < b then (Plug(path[1..], y), true)
      else Shrink(path[1..], y)
  }

  /**
   * balanceForDeletingNode from the subtree x at the position `path`: with
   * x `nil`, the loop runs only when the tree is not empty, and then reads
   * the key of `nil`.
   */
  ghost function DeletionWalk<V>(path: seq<Frame<int, V>>, x: Tree<int, V>): (r: (Tree<int, V>, Deletion))
    ensures Keys(r.0) == Keys(Plug(path, x)) && Content(r.0) == Content(Plug(path, x))
  {
    if x.Leaf? then (Plug(path, x), if path == [] then Returned(true) else NilKeyRead)
    else
      var w := Shrink(path, x);
      (w.0, if w.1 then RotationReached else Returned(true))
  }

  /**
   * deleteNodeFromAVLTree on shapes: search for `key`; if no node holds it,
   * nothing changes; otherwise cut the node out and run the deletion walk
   * from the subtree that took its place (or its successor's).
   */
  ghost function DeleteShape<V>(t: Tree<int, V>, key: int): (r: (Tree<int, V>, Deletion))
  {
    var loc := Locate([], t, key);
    if loc.1.Leaf? then (t, Returned(false))
    else
      var x := Replacement(loc.0, loc.1);
      DeletionWalk(x.0, x.1)
  }

  /**
   * Deleting from a search tree leaves a search tree holding the old
   * entries without `key`. The answer is `false` exactly when no entry had
   * `key`, and then the tree is unchanged.
   */
  lemma DeleteShapeSpec<V>(t: Tree<int, V>, key: int)
    requires SearchTree(t)
    ensures var r := DeleteShape(t, key);
      SearchTree(r.0) && Content(r.0) == Content(t) - {key}
      && (r.1 == Returned(false) <==> key !in Content(t))
      && (r.1 == Returned(false) ==> r.0 == t)
  {
    var loc := Locate([], t, key);
    assert Plug([], t) == t;
    LocateFound([], t, key);
    if loc.1.Leaf? {
      assert Content(t) - {key} == Content(t);
    } else {
      var path, s := loc.0, loc.1;
      var x := Replacement(path, s);
      if s.left.Leaf? {
        ContentRemove(path, s, s.right);
      } else if s.right.Leaf? {
        ContentRemove(path, s, s.left);
      } else {
        var p := Spine(s.right);
        SuccessorContent(path, s, p.0, p.1, p.1.aux);
      }
      assert SearchTree(Plug(x.0, x.1)) && Content(Plug(x.0, x.1)) == Content(t) - {key};
      var r := DeletionWalk(x.0, x.1);
      assert SearchTree(r.0);
    }
  }

  // ------------------------------------------------------------- examples

  /** Inserting 10, 20 and 30 rotates left once: 20 on top, 10 and 30 below, every factor 0. */
  lemma AscendingExample<V>(v: V)
    ensures InsertShape(InsertShape(InsertShape(Leaf, 10, v, 1), 20, v, 2), 30, v, 3)
         == Node(NewNode(1, 10, v), 2, 20, v, 0, NewNode(3, 30, v))
  {
    var n1, n2, n3 := NewNode(1, 10, v), NewNode(2, 20, v), NewNode(3, 30, v);
    assert Locate<int, V>([], Leaf, 10) == ([], Leaf);
    assert InsertShape(Leaf, 10, v, 1) == n1;
    var f1 := Frame(R, 1, 10, v, 0, Leaf);
    assert Locate([f1], Leaf, 20) == ([f1], Leaf);
    assert FrameOf(n1, R) == f1 && [f1] + [] == [f1];
    assert Locate([], n1, 20) == ([f1], Leaf);
    assert Climb([], Node(Leaf, 1, 10, v, 1, n2)) == Node(Leaf, 1, 10, v, 1, n2);
    var t2 := Node(Leaf, 1, 10, v, 1, n2);
    assert InsertShape(n1, 20, v, 2) == t2;
    var g1, g2 := Frame(R, 1, 10, v, 1, Leaf), Frame(R, 2, 20, v, 0, Leaf);
    assert Locate([g2, g1], Leaf, 30) == ([g2, g1], Leaf);
    assert FrameOf(n2, R) == g2 && [g2] + [g1] == [g2, g1];
    assert Locate([g1], n2, 30) == ([g2, g1], Leaf);
    assert FrameOf(t2, R) == g1 && [g1] + [] == [g1];
    assert Locate([], t2, 30) == ([g2, g1], Leaf);
    var y := Node(Leaf, 1, 10, v, 2, Node(Leaf, 2, 20, v, 1, n3));
    assert Rotating(y) == Node(n1, 2, 20, v, 0, n3);
    assert Climb([g1], Node(Leaf, 2, 20, v, 1, n3)) == Node(n1, 2, 20, v, 0, n3);
    assert [g2, g1][1..] == [g1];
    assert Climb([g2, g1], n3) == Node(n1, 2, 20, v, 0, n3);
  }

  /**
   * The double-rotation rows do not keep the factors exact. Inserting 25
   * below 20, 10, 40, 30 and 50 reaches `rotating` at 20, whose true height
   * difference is 2 and whose subtrees are exact. Afterwards 40 keeps 0
   * though its only child is on the right, and 30, on top, keeps -1 though
   * its two subtrees are equally high.
   */
  lemma DriftExample<V>(v: V)
    ensures var y := Node(NewNode(1, 10, v), 0, 20, v, 2,
                          Node(Node(NewNode(5, 25, v), 3, 30, v, -1, Leaf), 2, 40, v, -1, NewNode(4, 50, v)));
      Exact(y.left) && Exact(y.right) && y.aux == Height(y.right) - Height(y.left)
      && RotateReady(y) && Bounded(Rotating(y)) && !Exact(Rotating(y))
  {
    var n1, n4, n5 := NewNode(1, 10, v), NewNode(4, 50, v), NewNode(5, 25, v);
    var w := Node(n5, 3, 30, v, -1, Leaf);
    var y := Node(n1, 0, 20, v, 2, Node(w, 2, 40, v, -1, n4));
    assert Height(w) == 2 && Height(y.right) == 3;
    var r := Node(Node(n1, 0, 20, v, 0, n5), 3, 30, v, -1, Node(Leaf, 2, 40, v, 0, n4));
    assert Rotating(y) == r;
    assert Factors(n1) == Factors(n4) == Factors(n5) == [0];
    assert Factors(r.left) == [0, 0, 0] && Factors(r.right) == [0, 0];
    assert Factors(r) == [0, 0, 0] + [-1] + [0, 0];
    assert Height(r.left) == Height(r.right) == 2;
  }
}
