/**
 * The red-black properties of a tree shape whose nodes carry a colour, and
 * how each step of the insertion and deletion fix-ups preserves them.
 *
 * The properties are those of a red-black tree: every node is red or black,
 * the root is black, the empty leaves (`nil`) are black, a red node has two
 * black children, and every path from a node down to an empty leaf crosses
 * the same number of black nodes.
 *
 * Each fix-up loop is described by an invariant on its cursor (`InsertInv`,
 * `DeleteInv`), stated in terms of the cursor's subtree and the zipper path
 * above it. Each case of the loop body is one lemma: it takes the invariant
 * and the case's colour conditions, and gives the invariant for the position
 * the loop moves to. The lemmas are stated for a cursor on either side of its
 * parent, so one lemma covers a case and its mirror image.
 */
module RedBlack {
  import opened Shapes
  import opened ShapeFacts

  datatype Color = Red | Black

  /** The colour of a subtree's root; the empty leaf `nil` is black. */
  function ColorOf<V>(t: Tree<Color, V>): Color
  {
    if t.Leaf? then Black else t.aux
  }

  function Weight(c: Color): nat
  {
    if c == Black then 1 else 0
  }

  /** Black height, counted down the left spine: the count on every path once `Balanced` holds. */
  function BH<V>(t: Tree<Color, V>): nat
  {
    match t
    case Leaf => 0
    case Node(l, _, _, _, c, _) => BH(l) + Weight(c)
  }

  /** Every path from a node down to an empty leaf crosses the same number of black nodes. */
  ghost predicate Balanced<V>(t: Tree<Color, V>)
  {
    match t
    case Leaf => true
    case Node(l, _, _, _, _, r) => BH(l) == BH(r) && Balanced(l) && Balanced(r)
  }

  /** A red node has two black children. */
  ghost predicate NoRedRed<V>(t: Tree<Color, V>)
  {
    match t
    case Leaf => true
    case Node(l, _, _, _, c, r) =>
      (c == Red ==> ColorOf(l) == Black && ColorOf(r) == Black) && NoRedRed(l) && NoRedRed(r)
  }

  /** The red-black properties of a whole tree. */
  ghost predicate IsRedBlack<V>(t: Tree<Color, V>)
  {
    ColorOf(t) == Black && NoRedRed(t) && Balanced(t)
  }

  /** The tree with its root painted black. */
  function Blacken<V>(t: Tree<Color, V>): Tree<Color, V>
  {
    if t.Leaf? then t else t.(aux := Black)
  }

  // ------------------------------------------------------------ on paths

  /** The colour of the tree's root when the cursor's subtree has colour `c`. */
  function TopColor<V>(path: seq<Frame<Color, V>>, c: Color): Color
    decreases |path|
  {
    if path == [] then c else TopColor(path[1..], path[0].aux)
  }

  /** Each sibling on the path is balanced and of the black height of the subtree it stands beside, when the cursor's subtree has black height `h`. */
  ghost predicate PathBalanced<V>(path: seq<Frame<Color, V>>, h: nat)
    decreases |path|
  {
    path == [] ||
    (Balanced(path[0].sib) && BH(path[0].sib) == h && PathBalanced(path[1..], h + Weight(path[0].aux)))
  }

  /** No red node on the path has a red child, when the cursor's subtree has colour `c`. */
  ghost predicate PathNoRedRed<V>(path: seq<Frame<Color, V>>, c: Color)
    decreases |path|
  {
    path == [] ||
    (NoRedRed(path[0].sib) && (path[0].aux == Red ==> c == Black && ColorOf(path[0].sib) == Black)
     && PathNoRedRed(path[1..], path[0].aux))
  }

  /** PathNoRedRed, except between the cursor and its parent. */
  ghost predicate PathNoRedRedAbove<V>(path: seq<Frame<Color, V>>)
  {
    path == [] ||
    (NoRedRed(path[0].sib) && (path[0].aux == Red ==> ColorOf(path[0].sib) == Black)
     && PathNoRedRed(path[1..], path[0].aux))
  }

  lemma {:induction false} PlugBalanced<V>(path: seq<Frame<Color, V>>, s: Tree<Color, V>)
    ensures Balanced(Plug(path, s)) <==> Balanced(s) && PathBalanced(path, BH(s))
    decreases |path|
  {
    if path != [] {
      var f := path[0];
      var a := Attach(f, s);
      PlugBalanced(path[1..], a);
      assert Balanced(a) <==> Balanced(s) && Balanced(f.sib) && BH(f.sib) == BH(s);
      assert Balanced(a) ==> BH(a) == BH(s) + Weight(f.aux);
    }
  }

  lemma {:induction false} PlugNoRedRed<V>(path: seq<Frame<Color, V>>, s: Tree<Color, V>)
    ensures NoRedRed(Plug(path, s)) <==> NoRedRed(s) && PathNoRedRed(path, ColorOf(s))
    decreases |path|
  {
    if path != [] {
      var f := path[0];
      var a := Attach(f, s);
      PlugNoRedRed(path[1..], a);
      assert NoRedRed(a) <==> (f.aux == Red ==> ColorOf(s) == Black && ColorOf(f.sib) == Black) && NoRedRed(s) && NoRedRed(f.sib);
    }
  }

  lemma {:induction false} PlugColor<V>(path: seq<Frame<Color, V>>, s: Tree<Color, V>)
    ensures ColorOf(Plug(path, s)) == TopColor(path, ColorOf(s))
    decreases |path|
  {
    if path != [] {
      PlugColor(path[1..], Attach(path[0], s));
    }
  }

  /** Below a non-empty path the root's colour does not depend on the cursor. */
  lemma {:induction false} TopColorAbove<V>(path: seq<Frame<Color, V>>, c: Color, c': Color)
    requires path != []
    ensures TopColor(path, c) == TopColor(path, c')
  {
  }

  lemma PathNoRedRedRelax<V>(path: seq<Frame<Color, V>>, c: Color)
    ensures PathNoRedRed(path, c) ==> PathNoRedRedAbove(path)
    ensures PathNoRedRedAbove(path) && (c == Black || path == [] || path[0].aux == Black) ==> PathNoRedRed(path, c)
  {
  }

  /** A whole tree is red-black exactly when the parts around any cursor are. */
  lemma PlugRedBlack<V>(path: seq<Frame<Color, V>>, s: Tree<Color, V>)
    ensures IsRedBlack(Plug(path, s)) <==>
      Balanced(s) && PathBalanced(path, BH(s)) && NoRedRed(s) && PathNoRedRed(path, ColorOf(s))
      && TopColor(path, ColorOf(s)) == Black
  {
    PlugBalanced(path, s);
    PlugNoRedRed(path, s);
    PlugColor(path, s);
  }

  /** The colours alone decide the red-black properties: a new value at the cursor changes nothing. */
  lemma RevalueRedBlack<V>(path: seq<Frame<Color, V>>, s: Tree<Color, V>, v: V)
    requires s.Node?
    ensures IsRedBlack(Plug(path, s.(value := v))) <==> IsRedBlack(Plug(path, s))
  {
    PlugRedBlack(path, s);
    PlugRedBlack(path, s.(value := v));
  }

  /** Painting the root black keeps the tree balanced and makes it red-black. */
  lemma BlackenRoot<V>(t: Tree<Color, V>)
    requires NoRedRed(t) && Balanced(t)
    ensures IsRedBlack(Blacken(t))
    ensures Keys(Blacken(t)) == Keys(t) && Content(Blacken(t)) == Content(t)
  {
  }

  // ------------------------------------------------------------ insertion

  /**
   * The insertion fix-up's invariant at cursor z: z is red, its subtree is
   * a red-black tree apart from the colour of its root, the rest of the tree
   * is correct around it, and the only red-red pair allowed is z and its
   * parent. The root of the whole tree is black unless z is the root.
   */
  ghost predicate InsertInv<V>(path: seq<Frame<Color, V>>, s: Tree<Color, V>)
  {
    s.Node? && s.aux == Red && NoRedRed(s) && Balanced(s)
    && PathBalanced(path, BH(s)) && PathNoRedRedAbove(path) && TopColor(path, Black) == Black
  }

  /** A red node hung at the empty position of a red-black tree starts the fix-up. */
  lemma InsertStart<V>(path: seq<Frame<Color, V>>, n: Tree<Color, V>)
    requires IsRedBlack(Plug(path, Leaf))
    requires n.Node? && n.left.Leaf? && n.right.Leaf? && n.aux == Red
    ensures InsertInv(path, n)
  {
    PlugRedBlack(path, Leaf);
    PathNoRedRedRelax(path, Black);
  }

  /** When z's parent is black (or z is the root), only the root's colour can be wrong. */
  lemma InsertDone<V>(path: seq<Frame<Color, V>>, s: Tree<Color, V>)
    requires InsertInv(path, s) && (path == [] || path[0].aux == Black)
    ensures NoRedRed(Plug(path, s)) && Balanced(Plug(path, s))
  {
    PathNoRedRedRelax(path, Red);
    PlugBalanced(path, s);
    PlugNoRedRed(path, s);
  }

  /** A red parent is not the root, and the grandparent is black. */
  lemma InsertGrandparent<V>(path: seq<Frame<Color, V>>, s: Tree<Color, V>)
    requires InsertInv(path, s) && path != [] && path[0].aux == Red
    ensures |path| >= 2 && path[1].aux == Black
  {
    assert TopColor(path[1..], Red) == Black;
    assert PathNoRedRed(path[1..], Red);
  }

  /**
   * Case 1, red uncle: the parent and the uncle turn black, the grandparent
   * red, and the cursor moves up to the grandparent.
   */
  lemma InsertRecolor<V>(path: seq<Frame<Color, V>>, s: Tree<Color, V>)
    requires InsertInv(path, s) && |path| >= 2 && path[0].aux == Red
    requires path[1].sib.Node? && path[1].sib.aux == Red
    ensures var p := path[0].(aux := Black);
      var g := path[1].(aux := Red, sib := path[1].sib.(aux := Black));
      InsertInv(path[2..], Attach(g, Attach(p, s)))
  {
    InsertGrandparent(path, s);
    var p := path[0].(aux := Black);
    var g := path[1].(aux := Red, sib := path[1].sib.(aux := Black));
    var s' := Attach(g, Attach(p, s));
    assert path[1..][1..] == path[2..];
    assert PathBalanced(path[1..], BH(s));
    assert BH(path[1].sib) == BH(s) && Balanced(path[1].sib);
    assert PathBalanced(path[2..], BH(s) + 1);
    assert PathNoRedRed(path[1..], Red);
    assert PathNoRedRed(path[2..], Black);
    PathNoRedRedRelax(path[2..], Black);
    assert BH(Attach(p, s)) == BH(s) + 1 && Balanced(Attach(p, s)) && NoRedRed(Attach(p, s));
    assert BH(g.sib) == BH(s) + 1 && Balanced(g.sib) && NoRedRed(g.sib);
    assert BH(s') == BH(s) + 1 && Balanced(s') && NoRedRed(s');
    assert TopColor(path, Black) == TopColor(path[1..], path[0].aux) == TopColor(path[2..], path[1].aux);
    if path[2..] != [] {
      TopColorAbove(path[2..], Black, path[1].aux);
    }
  }

  /**
   * Case 2, black uncle and z an inner grandchild: rotating at the parent
   * makes the parent an outer grandchild, and it becomes the cursor.
   */
  lemma InsertRotateParent<V>(path: seq<Frame<Color, V>>, s: Tree<Color, V>)
    requires InsertInv(path, s) && |path| >= 2 && path[0].aux == Red
    requires ColorOf(path[1].sib) == Black && path[0].side != path[1].side
    ensures var d := Opp(path[0].side);
      var path' := [FrameOf(s, d)] + path[1..];
      InsertInv(path', Attach(path[0], Child(s, d)))
      && path'[0].aux == Red && path'[0].side == path[1].side && path'[1..] == path[1..]
  {
    var d := Opp(path[0].side);
    var path' := [FrameOf(s, d)] + path[1..];
    assert path'[1..] == path[1..];
    assert BH(Child(s, d)) == BH(s) && BH(Child(s, Opp(d))) == BH(s);
  }

  /**
   * Case 3, black uncle and z an outer grandchild: the parent turns black,
   * the grandparent red, and rotating at the grandparent lifts the parent
   * into its place. The cursor's parent is now black.
   */
  lemma InsertRotateGrandparent<V>(path: seq<Frame<Color, V>>, s: Tree<Color, V>)
    requires InsertInv(path, s) && |path| >= 2 && path[0].aux == Red
    requires ColorOf(path[1].sib) == Black && path[0].side == path[1].side
    ensures var q0 := path[0].(aux := Black);
      var q1 := path[1].(aux := Red);
      var path' := [q0.(sib := Attach(q1, q0.sib))] + path[2..];
      InsertInv(path', s) && path'[0].aux == Black
  {
    InsertGrandparent(path, s);
    var q0 := path[0].(aux := Black);
    var q1 := path[1].(aux := Red);
    var path' := [q0.(sib := Attach(q1, q0.sib))] + path[2..];
    assert path'[1..] == path[2..];
    assert path[1..][1..] == path[2..];
    assert PathBalanced(path[1..], BH(s));
    assert BH(path[1].sib) == BH(s) && Balanced(path[1].sib);
    assert PathBalanced(path[2..], BH(s) + 1);
    assert PathNoRedRed(path[1..], Red);
    assert PathNoRedRed(path[2..], Black);
    var u := Attach(q1, q0.sib);
    assert BH(u) == BH(s) && Balanced(u) && NoRedRed(u) && u.aux == Red;
    assert PathBalanced(path', BH(s));
    assert PathNoRedRed(path'[1..], Black);
    assert TopColor(path, Black) == TopColor(path[1..], path[0].aux) == TopColor(path[2..], path[1].aux);
    if path[2..] != [] {
      TopColorAbove(path[2..], Black, path[1].aux);
    }
  }

  // ------------------------------------------------------------- deletion

  /** The children of the subtree's root are free of red-red pairs (the root itself may clash with one). */
  ghost predicate NoRedRedBelow<V>(t: Tree<Color, V>)
  {
    t.Leaf? || (NoRedRed(t.left) && NoRedRed(t.right))
  }

  /**
   * The deletion fix-up's invariant at cursor x: x carries an extra black,
   * so the paths through x are one black short of the rest of the tree; its
   * subtree is otherwise a red-black tree whose root may be red, and the only
   * red-red pair allowed is x and its parent.
   */
  ghost predicate DeleteInv<V>(path: seq<Frame<Color, V>>, s: Tree<Color, V>)
  {
    NoRedRedBelow(s) && Balanced(s)
    && PathBalanced(path, BH(s) + 1) && PathNoRedRedAbove(path) && TopColor(path, Black) == Black
  }

  /** When x is red or is the root, painting it black finishes the fix-up. */
  lemma DeleteDone<V>(path: seq<Frame<Color, V>>, s: Tree<Color, V>)
    requires DeleteInv(path, s) && (path == [] || ColorOf(s) == Red)
    ensures IsRedBlack(Plug(path, Blacken(s)))
  {
    var b := Blacken(s);
    PathNoRedRedRelax(path, Black);
    PlugRedBlack(path, b);
    if path != [] {
      assert s.Node? && BH(b) == BH(s) + 1;
      TopColorAbove(path, Black, Black);
    }
  }

  /** A black x that is not the root has a real sibling: its black height is at least one. */
  lemma DeleteSibling<V>(path: seq<Frame<Color, V>>, s: Tree<Color, V>)
    requires DeleteInv(path, s) && path != []
    ensures path[0].sib.Node?
  {
    assert BH(path[0].sib) == BH(s) + 1;
  }

  /**
   * Case 1, red sibling w: w turns black, the parent red, and rotating at the
   * parent towards x gives x a black sibling (w's near child) without moving
   * x's subtree.
   */
  lemma DeleteRedSibling<V>(path: seq<Frame<Color, V>>, s: Tree<Color, V>)
    requires DeleteInv(path, s) && path != [] && ColorOf(s) == Black
    requires path[0].sib.Node? && path[0].sib.aux == Red
    ensures var d := path[0].side;
      var q0 := path[0].(aux := Red, sib := path[0].sib.(aux := Black));
      var path' := [q0.(sib := Child(q0.sib, d)), FrameOf(q0.sib, d)] + path[1..];
      DeleteInv(path', s) && path'[0].aux == Red && path'[0].sib.Node? && path'[0].sib.aux == Black
  {
    var d := path[0].side;
    var w := path[0].sib;
    var q0 := path[0].(aux := Red, sib := w.(aux := Black));
    var path' := [q0.(sib := Child(q0.sib, d)), FrameOf(q0.sib, d)] + path[1..];
    assert path'[1..] == [FrameOf(q0.sib, d)] + path[1..];
    assert path'[1..][1..] == path[1..];
    assert path[0].aux == Black;
    assert BH(w) == BH(s) + 1;
    assert BH(Child(w, d)) == BH(s) + 1 && BH(Child(w, Opp(d))) == BH(s) + 1;
    assert Child(w, d).Node? && Child(w, d).aux == Black;
    assert PathBalanced(path[1..], BH(s) + 2);
    assert PathBalanced(path'[1..], BH(s) + 1);
    assert PathNoRedRed(path[1..], Black);
    assert PathNoRedRed(path'[1..], Red);
    assert TopColor(path', Black) == TopColor(path'[1..], Red) == TopColor(path[1..], Black);
    assert TopColor(path, Black) == TopColor(path[1..], Black);
  }

  /**
   * Case 2, black sibling w with two black children: w turns red, and the
   * extra black moves up to the parent, which becomes x.
   */
  lemma DeleteRecolor<V>(path: seq<Frame<Color, V>>, s: Tree<Color, V>)
    requires DeleteInv(path, s) && path != [] && ColorOf(s) == Black
    requires path[0].sib.Node? && path[0].sib.aux == Black
    requires ColorOf(path[0].sib.left) == Black && ColorOf(path[0].sib.right) == Black
    ensures DeleteInv(path[1..], Attach(path[0].(sib := path[0].sib.(aux := Red)), s))
  {
    var f := path[0].(sib := path[0].sib.(aux := Red));
    var s' := Attach(f, s);
    assert BH(f.sib) == BH(s);
    assert BH(s') == BH(s) + Weight(path[0].aux);
    PathNoRedRedRelax(path[1..], path[0].aux);
    if path[1..] != [] {
      TopColorAbove(path[1..], Black, path[0].aux);
    }
  }

  /**
   * Case 3, black sibling w whose far child is black and near child red: the
   * near child turns black, w red, and rotating at w away from x makes the
   * near child x's sibling, now with a red far child.
   */
  lemma DeleteRotateSibling<V>(path: seq<Frame<Color, V>>, s: Tree<Color, V>)
    requires DeleteInv(path, s) && path != [] && ColorOf(s) == Black
    requires path[0].sib.Node? && path[0].sib.aux == Black
    requires ColorOf(Child(path[0].sib, Opp(path[0].side))) == Black
    requires ColorOf(Child(path[0].sib, path[0].side)) == Red
    ensures var d := path[0].side;
      var w := path[0].sib;
      var w1 := WithChild(w, d, Child(w, d).(aux := Black)).(aux := Red);
      Child(w1, d).Node? &&
      var w2 := Rotate(w1, Opp(d));
      DeleteInv([path[0].(sib := w2)] + path[1..], s)
      && w2.Node? && w2.aux == Black && ColorOf(Child(w2, Opp(d))) == Red
  {
    var d := path[0].side;
    var w := path[0].sib;
    var n := Child(w, d);
    assert n.Node? && Balanced(w) && NoRedRed(w);
    assert NoRedRed(n) && Balanced(n);
    var w0 := WithChild(w, d, n.(aux := Black));
    assert w0.Node?;
    var w1 := w0.(aux := Red);
    assert Child(w1, d) == n.(aux := Black);
    var w2 := Rotate(w1, Opp(d));
    var path' := [path[0].(sib := w2)] + path[1..];
    assert path'[1..] == path[1..];
    assert BH(w) == BH(s) + 1;
    assert BH(n) == BH(s) && BH(Child(w, Opp(d))) == BH(s);
    assert BH(n.left) == BH(s) && BH(n.right) == BH(s);
    assert Balanced(n.left) && Balanced(n.right) && NoRedRed(n.left) && NoRedRed(n.right);
    assert ColorOf(n.left) == Black && ColorOf(n.right) == Black;
    if d == L {
      assert w2 == Node(n.left, n.id, n.key, n.value, Black, Node(n.right, w.id, w.key, w.value, Red, w.right));
    } else {
      assert w2 == Node(Node(w.left, w.id, w.key, w.value, Red, n.left), n.id, n.key, n.value, Black, n.right);
    }
    assert BH(w2) == BH(s) + 1 && Balanced(w2) && NoRedRed(w2);
  }

  /**
   * Case 4, black sibling w with a red far child: w takes the parent's
   * colour, the parent and the far child turn black, and rotating at the
   * parent towards x absorbs the extra black. The whole tree is then
   * balanced and free of red-red pairs.
   */
  lemma DeleteRotateParent<V>(path: seq<Frame<Color, V>>, s: Tree<Color, V>)
    requires DeleteInv(path, s) && path != [] && ColorOf(s) == Black
    requires path[0].sib.Node? && path[0].sib.aux == Black
    requires ColorOf(Child(path[0].sib, Opp(path[0].side))) == Red
    ensures var d := path[0].side;
      var w := path[0].sib;
      var w1 := WithChild(w.(aux := path[0].aux), Opp(d), Child(w, Opp(d)).(aux := Black));
      var t := Rotate(Attach(path[0].(aux := Black, sib := w1), s), d);
      DeleteInv([], Plug(path[1..], t))
  {
    var d := path[0].side;
    var w := path[0].sib;
    var far := Child(w, Opp(d));
    var w1 := WithChild(w.(aux := path[0].aux), Opp(d), far.(aux := Black));
    var a := Attach(path[0].(aux := Black, sib := w1), s);
    var t := Rotate(a, d);
    var near := Child(w, d);
    assert BH(w) == BH(s) + 1;
    assert BH(near) == BH(s) && BH(far) == BH(s);
    assert far.Node? && Balanced(w) && NoRedRed(w);
    assert Balanced(far) && NoRedRed(far) && Balanced(near) && NoRedRed(near);
    assert BH(far.left) == BH(s) && Balanced(far.left) && Balanced(far.right);
    assert Balanced(far.(aux := Black)) && NoRedRed(far.(aux := Black)) && BH(far.(aux := Black)) == BH(s) + 1;
    var low := Attach(path[0].(aux := Black, sib := near), s);
    assert BH(low) == BH(s) + 1 && Balanced(low) && NoRedRed(low);
    if d == L {
      assert t == Node(low, w.id, w.key, w.value, path[0].aux, far.(aux := Black));
    } else {
      assert t == Node(far.(aux := Black), w.id, w.key, w.value, path[0].aux, low);
    }
    assert BH(t) == BH(s) + 1 + Weight(path[0].aux) && Balanced(t) && NoRedRed(t);
    assert PathBalanced(path[1..], BH(t));
    PlugRedBlack(path[1..], t);
    assert PathNoRedRed(path[1..], path[0].aux);
    var T := Plug(path[1..], t);
    assert Balanced(T) && NoRedRed(T);
  }

  /**
   * Cutting out a node with an empty child: removing a red node leaves a
   * red-black tree; removing a black one leaves the deletion fix-up's
   * invariant at the remaining child.
   */
  lemma DeleteSplice<V>(path: seq<Frame<Color, V>>, n: Tree<Color, V>, c: Tree<Color, V>)
    requires IsRedBlack(Plug(path, n)) && n.Node?
    requires (n.left.Leaf? && c == n.right) || (n.right.Leaf? && c == n.left)
    ensures n.aux == Red ==> IsRedBlack(Plug(path, c))
    ensures n.aux == Black ==> DeleteInv(path, c)
  {
    PlugRedBlack(path, n);
    PlugRedBlack(path, c);
    assert BH(c) == 0;
    PathNoRedRedRelax(path, n.aux);
    if n.aux == Red {
      assert c.Node? ==> BH(c) >= 1;
      assert c == Leaf;
      PathNoRedRedRelax(path, Black);
      assert path != [];
      TopColorAbove(path, Red, Black);
    } else {
      if path != [] {
        TopColorAbove(path, Black, Black);
      }
    }
  }

  /** Two paths whose frames agree in colour and sibling, in order. */
  ghost predicate SameColours<V>(p: seq<Frame<Color, V>>, q: seq<Frame<Color, V>>)
  {
    |p| == |q| && forall i :: 0 <= i < |p| ==> p[i].aux == q[i].aux && p[i].sib == q[i].sib
  }

  /** The red-black properties do not look at a frame's key, value or index. */
  lemma {:induction false} SameColoursPath<V>(p: seq<Frame<Color, V>>, q: seq<Frame<Color, V>>, h: nat, c: Color)
    requires SameColours(p, q)
    ensures PathBalanced(p, h) <==> PathBalanced(q, h)
    ensures PathNoRedRed(p, c) <==> PathNoRedRed(q, c)
    ensures PathNoRedRedAbove(p) <==> PathNoRedRedAbove(q)
    ensures TopColor(p, c) == TopColor(q, c)
    decreases |p|
  {
    if p != [] {
      assert SameColours(p[1..], q[1..]);
      SameColoursPath(p[1..], q[1..], h + Weight(p[0].aux), p[0].aux);
      SameColoursPath(p[1..], q[1..], h + Weight(p[0].aux), c);
    }
  }

  lemma SameColoursDelete<V>(p: seq<Frame<Color, V>>, q: seq<Frame<Color, V>>, c: Tree<Color, V>)
    requires SameColours(p, q)
    ensures IsRedBlack(Plug(p, c)) <==> IsRedBlack(Plug(q, c))
    ensures DeleteInv(p, c) <==> DeleteInv(q, c)
  {
    PlugRedBlack(p, c);
    PlugRedBlack(q, c);
    SameColoursPath(p, q, BH(c), ColorOf(c));
    SameColoursPath(p, q, BH(c) + 1, Black);
  }
}
