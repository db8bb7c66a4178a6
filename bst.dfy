/**
 * The plain binary search tree (`BinaryTree`) on shapes. Its nodes carry no
 * colour and no balance factor, so their `aux` field is `()`.
 *
 * The order queries (nodeWithMinimumKey, nodeWithMaximumKey, successorNode,
 * predecessorNode) are specified by what they find among the stored keys;
 * insertNode and removeNode by the shape they build. removeNode is given
 * twice: `RemoveShape` takes the successor of a node with two children,
 * which keeps the order and the entries, and `RemoveAsWritten` takes the
 * greatest node of the right subtree, as BinaryTree.java:138 does, which
 * loses entries or breaks the order (LostKeyExample, DisorderExample).
 */
module Bst {
  import opened Shapes
  import opened ShapeFacts
  import opened Splice

  /** A plain search tree: no colour, no balance factor. */
  type Bin<V> = Tree<(), V>

  // ----------------------------------------------------------- order queries

  /** `n` is the least key of `t` greater than `k`: what successorNode finds. */
  ghost predicate NextKey<A, V>(t: Tree<A, V>, k: int, n: int)
  {
    n in Content(t) && k < n && forall j :: j in Content(t) && k < j ==> n <= j
  }

  /** `n` is the greatest key of `t` less than `k`: what predecessorNode finds. */
  ghost predicate PrevKey<A, V>(t: Tree<A, V>, k: int, n: int)
  {
    n in Content(t) && n < k && forall j :: j in Content(t) && j < k ==> j <= n
  }

  /** No key of `t` is greater than `k`. */
  ghost predicate NoneAbove<A, V>(t: Tree<A, V>, k: int)
  {
    forall j :: j in Content(t) ==> j <= k
  }

  /** No key of `t` is less than `k`. */
  ghost predicate NoneBelow<A, V>(t: Tree<A, V>, k: int)
  {
    forall j :: j in Content(t) ==> k <= j
  }

  /** In an increasing sequence s == p + [k] + a, the elements above k are those of a, the least of them first. */
  lemma KeysAbove(s: seq<int>, p: seq<int>, k: int, a: seq<int>)
    requires s == p + [k] + a && Increasing(s)
    ensures a == [] ==> forall j :: j in s ==> j <= k
    ensures a != [] ==> k < a[0] && forall j :: j in s && k < j ==> a[0] <= j
  {
    assert s[|p|] == k;
    if a != [] {
      assert s[|p| + 1] == a[0];
    }
    forall j | j in s ensures (a == [] ==> j <= k) && (a != [] && k < j ==> a[0] <= j) {
      var i :| 0 <= i < |s| && s[i] == j;
      if i < |p| {
        assert s[i] < s[|p|];
      } else if i > |p| {
        assert s[|p| + 1] <= s[i];
      }
    }
  }

  /** In an increasing sequence s == b + [k] + a, the elements below k are those of b, the greatest of them last. */
  lemma KeysBelow(s: seq<int>, b: seq<int>, k: int, a: seq<int>)
    requires s == b + [k] + a && Increasing(s)
    ensures b == [] ==> forall j :: j in s ==> k <= j
    ensures b != [] ==> b[|b| - 1] < k && forall j :: j in s && j < k ==> j <= b[|b| - 1]
  {
    assert s[|b|] == k;
    if b != [] {
      assert s[|b| - 1] == b[|b| - 1];
    }
    forall j | j in s ensures (b == [] ==> k <= j) && (b != [] && j < k ==> j <= b[|b| - 1]) {
      var i :| 0 <= i < |s| && s[i] == j;
      if i > |b| {
        assert s[|b|] < s[i];
      } else if i < |b| {
        assert s[i] <= s[|b| - 1];
      }
    }
  }

  /**
   * The keys above the cursor's are those of its right subtree followed by
   * those after it on the path: the first of them is the cursor's successor
   * in the whole tree, and without any no key is greater.
   */
  lemma NextKeys<A, V>(path: seq<Frame<A, V>>, s: Tree<A, V>)
    requires SearchTree(Plug(path, s)) && s.Node?
    ensures var a := Keys(s.right) + After(path);
      (a == [] ==> NoneAbove(Plug(path, s), s.key))
      && (a != [] ==> NextKey(Plug(path, s), s.key, a[0]))
  {
    var t := Plug(path, s);
    KeysAround(path, s);
    KeysContent(t);
    KeysAbove(Keys(t), Before(path) + Keys(s.left), s.key, Keys(s.right) + After(path));
  }

  /**
   * The keys below the cursor's are those before it on the path followed by
   * those of its left subtree: the last of them is the cursor's predecessor
   * in the whole tree, and without any no key is less.
   */
  lemma PrevKeys<A, V>(path: seq<Frame<A, V>>, s: Tree<A, V>)
    requires SearchTree(Plug(path, s)) && s.Node?
    ensures var b := Before(path) + Keys(s.left);
      (b == [] ==> NoneBelow(Plug(path, s), s.key))
      && (b != [] ==> PrevKey(Plug(path, s), s.key, b[|b| - 1]))
  {
    var t := Plug(path, s);
    KeysAround(path, s);
    KeysContent(t);
    KeysBelow(Keys(t), Before(path) + Keys(s.left), s.key, Keys(s.right) + After(path));
  }

  /** Every frame of the path is a right turn: the cursor is the rightmost position below the root. */
  ghost predicate AllRight<A, V>(path: seq<Frame<A, V>>)
  {
    forall i :: 0 <= i < |path| ==> path[i].side == R
  }

  /** Below a rightmost cursor nothing comes after it. */
  lemma {:induction false} AllRightAfter<A, V>(path: seq<Frame<A, V>>)
    requires AllRight(path)
    ensures After(path) == []
    decreases |path|
  {
    if path != [] {
      AllRightAfter(path[1..]);
    }
  }

  /**
   * The rightmost node m of a subtree, seen through its right spine: its
   * key is the last of the subtree's keys, and so, in a search tree, the
   * greatest.
   */
  lemma MaxKey<A, V>(py: seq<Frame<A, V>>, m: Tree<A, V>)
    requires AllRight(py) && m.Node? && m.right.Leaf?
    ensures Keys(Plug(py, m)) == Before(py) + Keys(m.left) + [m.key]
    ensures SearchTree(Plug(py, m)) ==> m.key in Content(Plug(py, m)) && NoneAbove(Plug(py, m), m.key)
  {
    AllRightAfter(py);
    KeysPlug(py, m);
    if SearchTree(Plug(py, m)) {
      NextKeys(py, m);
      CursorValue(py, m);
    }
  }

  /**
   * The right spine of a non-empty subtree down to its rightmost node:
   * the subtree is that node seen through the spine, every frame of which
   * is a right turn.
   */
  function RightSpine<A, V>(t: Tree<A, V>): (r: (seq<Frame<A, V>>, Tree<A, V>))
    requires t.Node?
    ensures Plug(r.0, r.1) == t && AllRight(r.0) && r.1.Node? && r.1.right.Leaf?
    decreases t
  {
    if t.right.Leaf? then ([], t)
    else
      var p := RightSpine(t.right);
      PlugAppend(p.0, [FrameOf(t, R)], p.1);
      assert forall i :: 0 <= i < |p.0| ==> (p.0 + [FrameOf(t, R)])[i] == p.0[i];
      (p.0 + [FrameOf(t, R)], p.1)
  }

  // --------------------------------------------------------------- insertion

  /** A fresh node (arena index `id`) as insertNode creates it: no children. */
  function Fresh<V>(id: nat, key: int, value: V): Bin<V>
  {
    Node(Leaf, id, key, value, (), Leaf)
  }

  /**
   * insertNode on shapes: overwrite the value where the search for `key`
   * finds it, otherwise hang a fresh node (arena index `id`) at the empty
   * position where the search stops.
   */
  ghost function InsertShape<V>(t: Bin<V>, key: int, value: V, id: nat): Bin<V>
  {
    var loc := Locate([], t, key);
    if loc.1.Node? then Plug(loc.0, loc.1.(value := value))
    else Plug(loc.0, Fresh(id, key, value))
  }

  /**
   * Inserting into a search tree gives a search tree holding the old
   * entries with `key` mapped to `value`; the arena indices stay those of
   * the old tree when the key was there, and gain `id` otherwise.
   */
  lemma InsertShapeSpec<V>(t: Bin<V>, key: int, value: V, id: nat)
    requires SearchTree(t)
    ensures var r := InsertShape(t, key, value, id);
      SearchTree(r) && Content(r) == Content(t)[key := value]
      && Ids(r) == if key in Content(t) then Ids(t) else Ids(t) + {id}
  {
    var loc := Locate([], t, key);
    assert Plug([], t) == t;
    LocateFound([], t, key);
    IdsPlug(loc.0, loc.1);
    if loc.1.Node? {
      ContentRevalue(loc.0, loc.1, value);
      IdsPlug(loc.0, loc.1.(value := value));
    } else {
      var n := Fresh(id, key, value);
      ContentInsert(loc.0, n);
      IdsPlug(loc.0, n);
    }
  }

  // ----------------------------------------------------------------- removal

  /**
   * The subtree that takes the place of a removed node, as evidently
   * intended: with an empty child, the other child; otherwise the
   * successor m (the leftmost node of the right subtree) with both
   * subtrees, m's right subtree having taken m's old place.
   */
  function Spliced<V>(s: Bin<V>): Bin<V>
    requires s.Node?
  {
    if s.left.Leaf? then s.right
    else if s.right.Leaf? then s.left
    else
      var p := Spine(s.right);
      var m := p.1;
      Node(s.left, m.id, m.key, m.value, m.aux, Plug(p.0, m.right))
  }

  /** removeNode on shapes, as evidently intended: the node holding `key`, if any, is replaced by `Spliced`. */
  ghost function RemoveShape<V>(t: Bin<V>, key: int): Bin<V>
  {
    var loc := Locate([], t, key);
    if loc.1.Leaf? then t else Plug(loc.0, Spliced(loc.1))
  }

  /** Removing from a search tree gives a search tree holding every old entry but `key`'s; an absent key changes nothing. */
  lemma RemoveShapeSpec<V>(t: Bin<V>, key: int)
    requires SearchTree(t)
    ensures var r := RemoveShape(t, key);
      SearchTree(r) && Content(r) == Content(t) - {key} && (key !in Content(t) ==> r == t)
  {
    var loc := Locate([], t, key);
    var path, s := loc.0, loc.1;
    assert Plug([], t) == t;
    LocateFound([], t, key);
    if s.Node? {
      if s.left.Leaf? || s.right.Leaf? {
        var c := Spliced(s);
        assert Keys(c) == Keys(s.left) + Keys(s.right) && Content(c) == Content(s.left) + Content(s.right);
        ContentRemove(path, s, c);
      } else {
        var p := Spine(s.right);
        SuccessorContent(path, s, p.0, p.1, p.1.aux);
      }
    } else {
      assert Content(t) - {key} == Content(t);
    }
  }

  /**
   * The subtree that takes the place of a removed node in removeNode as
   * written: with two children, the greatest node x of the right subtree
   * is cut out of its place (it has no right child) and gets the node's
   * left subtree in place of its own left subtree, which is dropped, and
   * the right subtree as it is after the cut.
   *
   * With two children, the key moved into the node's place is the last key
   * of the right subtree in in-order, and the keys of x's old left subtree
   * are missing from what remains.
   */
  function SplicedAsWritten<V>(s: Bin<V>): (r: Bin<V>)
    requires s.Node?
    ensures s.left.Leaf? || s.right.Leaf? ==> r == Spliced(s)
    ensures s.left.Node? && s.right.Node? ==>
              r.Node? && r.left == s.left
              && Keys(s.right) == Keys(r.right) + Keys(RightSpine(s.right).1.left) + [r.key]
  {
    if s.left.Leaf? then s.right
    else if s.right.Leaf? then s.left
    else
      var p := RightSpine(s.right);
      var x := p.1;
      MaxKey(p.0, x);
      KeysPlug(p.0, Leaf);
      AllRightAfter(p.0);
      Node(s.left, x.id, x.key, x.value, x.aux, Plug(p.0, Leaf))
  }

  /**
   * removeNode on shapes as written. It differs from the intended removal
   * only where the node holding `key` has two children.
   */
  ghost function RemoveAsWritten<V>(t: Bin<V>, key: int): (r: Bin<V>)
    ensures var s := Locate([], t, key).1;
      s.Leaf? || s.left.Leaf? || s.right.Leaf? ==> r == RemoveShape(t, key)
  {
    var loc := Locate([], t, key);
    if loc.1.Leaf? then t else Plug(loc.0, SplicedAsWritten(loc.1))
  }

  /**
   * The tree that inserting 2, 1, 4 and 3 builds (arena indices 1 to 4).
   * Removing 2 as written puts 4 in its place with 1 on its left, and 3,
   * 4's left child, is gone; the intended removal keeps it.
   */
  lemma LostKeyExample<V>(v: V)
    ensures var t := Node(Fresh(2, 1, v), 1, 2, v, (), Node(Fresh(4, 3, v), 3, 4, v, (), Leaf));
      SearchTree(t) && Content(RemoveAsWritten(t, 2)) == map[1 := v, 4 := v]
      && Content(RemoveShape(t, 2)) == map[1 := v, 3 := v, 4 := v]
  {
    var n1, n3 := Fresh(2, 1, v), Fresh(4, 3, v);
    var r := Node(n3, 3, 4, v, (), Leaf);
    var t := Node(n1, 1, 2, v, (), r);
    assert Keys(n1) == [] + [1] + [];
    assert Keys(n3) == [] + [3] + [];
    assert Keys(r) == [3] + [4] + [];
    assert Keys(t) == [1] + [2] + [3, 4];
    assert Locate([], t, 2) == ([], t);
    assert RightSpine(r) == ([], r);
    assert RemoveAsWritten(t, 2) == Node(n1, 3, 4, v, (), Leaf);
    assert Spine(n3) == ([], n3);
    assert [] + [FrameOf(r, L)] == [FrameOf(r, L)];
    assert Spine(r) == ([FrameOf(r, L)], n3);
    assert Plug([FrameOf(r, L)], Leaf) == r.(left := Leaf);
    assert RemoveShape(t, 2) == Node(n1, 4, 3, v, (), r.(left := Leaf));
    assert map[1 := v] + map[4 := v] == map[1 := v, 4 := v];
    assert map[1 := v] + (map[3 := v] + map[4 := v]) == map[1 := v, 3 := v, 4 := v];
  }

  /**
   * The tree that inserting 2, 1, 4, 3 and 5 builds (arena indices 1 to 5).
   * Removing 2 as written puts 5 in its place with 4 and 3 below it on the
   * right: the keys are no longer in order.
   */
  lemma DisorderExample<V>(v: V)
    ensures var t := Node(Fresh(2, 1, v), 1, 2, v, (), Node(Fresh(4, 3, v), 3, 4, v, (), Fresh(5, 5, v)));
      SearchTree(t) && !SearchTree(RemoveAsWritten(t, 2)) && SearchTree(RemoveShape(t, 2))
  {
    var n1, n3, n5 := Fresh(2, 1, v), Fresh(4, 3, v), Fresh(5, 5, v);
    var r := Node(n3, 3, 4, v, (), n5);
    var t := Node(n1, 1, 2, v, (), r);
    assert Keys(n1) == [] + [1] + [];
    assert Keys(n3) == [] + [3] + [];
    assert Keys(n5) == [] + [5] + [];
    assert Keys(r) == [3] + [4] + [5];
    assert Keys(t) == [1] + [2] + [3, 4, 5];
    assert Locate([], t, 2) == ([], t);
    assert RightSpine(n5) == ([], n5);
    assert [] + [FrameOf(r, R)] == [FrameOf(r, R)];
    assert RightSpine(r) == ([FrameOf(r, R)], n5);
    assert Plug([FrameOf(r, R)], Leaf) == Node(n3, 3, 4, v, (), Leaf);
    var w := Node(n1, 5, 5, v, (), Node(n3, 3, 4, v, (), Leaf));
    assert RemoveAsWritten(t, 2) == w;
    assert Keys(Node(n3, 3, 4, v, (), Leaf)) == [3] + [4] + [];
    assert Keys(w) == [1] + [5] + [3, 4];
    assert Keys(w)[1] == 5 && Keys(w)[2] == 3;
    RemoveShapeSpec(t, 2);
  }
}
