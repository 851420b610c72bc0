/** RB_INSERT and RB_INSERT_COLOR. */
module RbInsert {
  import opened RbNodes
  import opened RbRules
  import opened RbProbe
  import opened RbRotate

  /** Everything keeps the rules, except that the red root of `t` may hang below a red parent. */
  ghost predicate Pending(k: Ctx, t: Tree) {
    t.T? && t.c.Red? && Sub(t) && Accepts(k, Black, BlackHeight(t))
  }

  ghost function Depth(k: Ctx): nat {
    if k.Top? then 0 else 1 + Depth(k.up)
  }

  lemma ChildrenApart(m: Mem, k: Ctx, t: Tree)
    requires At(m, k, t) && t.T?
    ensures Root(t.l) == null || Root(t.l) != Root(t.r)
  {
    RootInNodes(t.l);
    RootInNodes(t.r);
  }

  /** RB_SET_BLACKRED on a child and its parent. */
  method SetBlackRed(h: Head, black: Node, red: Node, ghost k: Ctx, ghost t: Tree) returns (ghost t': Tree)
    requires h.Sync() && At(h.mem, k, t) && t.T? && red == t.x && black in {Root(t.l), Root(t.r)}
    modifies h`mem, h.mem.cells.Keys
    ensures h.Sync() && h.mem.cells.Keys == old(h.mem.cells.Keys)
    ensures black == Root(t.l) ==> t' == T(Red, T(Black, t.l.l, t.l.x, t.l.r), t.x, t.r)
    ensures black == Root(t.r) ==> t' == T(Red, t.l, t.x, T(Black, t.r.l, t.r.x, t.r.r))
    ensures At(h.mem, k, t') && InOrder(t') == InOrder(t)
  {
    hide Plug, At;
    ChildrenApart(h.mem, k, t);
    if black == Root(t.l) {
      RepaintLeft(h.mem, k, t, Black);
      t' := T(t.c, T(Black, t.l.l, t.l.x, t.l.r), t.x, t.r);
    } else {
      RepaintRight(h.mem, k, t, Black);
      t' := T(t.c, t.l, t.x, T(Black, t.r.l, t.r.x, t.r.r));
    }
    assert InOrder(t') == InOrder(t);
    h.SetColor(black, Black);
    Repaint(h.mem, k, t', Red);
    h.SetColor(red, Red);
    t' := T(Red, t'.l, t'.x, t'.r);
  }

  /** The uncle is red: both children of the grandparent turn black and the grandparent red. */
  method FlipColors(h: Head, tmp: Node, parent: Node, gparent: Node, ghost k: Ctx, ghost t: Tree) returns (ghost t': Tree)
    requires h.Sync() && At(h.mem, k, t) && t.T? && gparent == t.x && t.l.T? && t.r.T?
    requires (tmp == t.l.x && parent == t.r.x) || (tmp == t.r.x && parent == t.l.x)
    modifies h`mem, h.mem.cells.Keys
    ensures h.Sync() && h.mem.cells.Keys == old(h.mem.cells.Keys)
    ensures t' == T(Red, T(Black, t.l.l, t.l.x, t.l.r), t.x, T(Black, t.r.l, t.r.x, t.r.r))
    ensures At(h.mem, k, t')
  {
    if tmp == t.l.x {
      RepaintLeft(h.mem, k, t, Black);
      t' := T(t.c, T(Black, t.l.l, t.l.x, t.l.r), t.x, t.r);
    } else {
      RepaintRight(h.mem, k, t, Black);
      t' := T(t.c, t.l, t.x, T(Black, t.r.l, t.r.x, t.r.r));
    }
    h.SetColor(tmp, Black);
    t' := SetBlackRed(h, parent, gparent, k, t');
  }

  ghost function Sibling(k: Ctx): Tree
    requires !k.Top?
  {
    if k.Lf? then k.r else k.l
  }

  /** What the repair loop can read: a red parent has a black parent, and an uncle beside it. */
  lemma Relatives(m: Mem, k: Ctx, t: Tree)
    requires At(m, k, t) && Pending(k, t) && !k.Top? && k.c.Red?
    ensures !k.up.Top? && k.up.c.Black?
    ensures {t.x, k.x, k.up.x} <= m.cells.Keys
    ensures m.cells[t.x].parent == k.x && m.cells[k.x].parent == k.up.x
    ensures k.Lf? ==> m.cells[k.x].left == t.x && m.cells[k.x].right != t.x
    ensures k.Rt? ==> m.cells[k.x].right == t.x && m.cells[k.x].left != t.x
    ensures k.up.Lf? ==> m.cells[k.up.x].left == k.x && m.cells[k.up.x].right == Root(k.up.r)
    ensures k.up.Rt? ==> m.cells[k.up.x].right == k.x && m.cells[k.up.x].left == Root(k.up.l)
    ensures var s := Sibling(k.up); s.T? ==> s.x in m.cells && m.cells[s.x].color == s.c
  {
    assert Accepts(k.up, Red, BlackHeight(t)) && IsCtx(m, k.up, k.x);
    RootInNodes(Sibling(k));
    RootInNodes(Sibling(k.up));
    assert IsTree(m, k.up.x, Sibling(k.up));
  }

  lemma FlipPending(k: Ctx, t: Tree)
    requires Pending(k, t) && !k.Top? && k.c.Red? && !k.up.Top? && RootColor(Sibling(k.up)).Red?
    ensures var g := Fill(k.up, Fill(k, t));
      && g.l.T? && g.r.T?
      && var g' := T(Red, T(Black, g.l.l, g.l.x, g.l.r), g.x, T(Black, g.r.l, g.r.x, g.r.r));
      && Pending(k.up.up, g') && InOrder(Plug(k.up.up, g')) == InOrder(Plug(k, t))
  {
    var n := BlackHeight(t);
    assert Accepts(k.up, Red, n) && Accepts(k.up.up, Black, n + 1);
    var g := Fill(k.up, Fill(k, t));
    var p := Fill(k, t);
    var u := Sibling(k.up);
    assert Sub(u) && BlackHeight(u) == n;
    assert Sub(T(Black, p.l, p.x, p.r)) && Sub(T(Black, u.l, u.x, u.r));
    var g' := T(Red, T(Black, g.l.l, g.l.x, g.l.r), g.x, T(Black, g.r.l, g.r.x, g.r.r));
    assert InOrder(g') == InOrder(g);
    SwapInOrder(k.up.up, g, g');
  }

  /** The red node is an inner grandchild: a rotation makes it an outer one. */
  method InnerLeft(h: Head, elm: Node, parent: Node, ghost k: Ctx, ghost t: Tree) returns (ghost k': Ctx, ghost t': Tree)
    requires h.Sync() && At(h.mem, k, t) && t.T? && t.c.Red? && k.Rt? && k.c.Red? && elm == t.x && parent == k.x
    modifies h`root, h`mem, h.mem.cells.Keys
    ensures h.Sync() && h.mem.cells.Keys == old(h.mem.cells.Keys)
    ensures k' == Lf(Red, t.x, t.r, k.up) && t' == T(Red, k.l, k.x, t.l) && At(h.mem, k', t')
    ensures InOrder(Plug(k', t')) == InOrder(Plug(k, t))
  {
    Raise(h.mem, k, t);
    var tmp;
    ghost var w;
    tmp, w := RotateLeftAt(h, parent, k.up, Fill(k, t));
    k', t' := Lf(Red, t.x, t.r, k.up), T(Red, k.l, k.x, t.l);
    Lower(h.mem, k', t');
  }

  /** The red node is an outer grandchild and its uncle is black: a rotation ends the repair. */
  method OuterLeft(h: Head, parent: Node, gparent: Node, ghost k: Ctx, ghost t: Tree) returns (ghost k': Ctx)
    requires h.Sync() && At(h.mem, k, t) && k.Lf? && k.c.Red? && k.up.Lf? && k.up.c.Black? && parent == k.x && gparent == k.up.x
    modifies h`root, h`mem, h.mem.cells.Keys
    ensures h.Sync() && h.mem.cells.Keys == old(h.mem.cells.Keys)
    ensures k' == Lf(Black, k.x, T(Red, k.r, k.up.x, k.up.r), k.up.up) && At(h.mem, k', t)
    ensures InOrder(Plug(k', t)) == InOrder(Plug(k, t))
  {
    ghost var kk, g := k.up.up, Fill(k.up, Fill(k, t));
    Raise(h.mem, k, t);
    Raise(h.mem, k.up, Fill(k, t));
    ghost var g1 := SetBlackRed(h, parent, gparent, kk, g);
    SwapInOrder(kk, g, g1);
    var tmp;
    ghost var w;
    tmp, w := RotateRightAt(h, gparent, kk, g1);
    k' := Lf(Black, k.x, T(Red, k.r, k.up.x, k.up.r), k.up.up);
    Lower(h.mem, k', t);
  }

  lemma OuterLeftPending(k: Ctx, t: Tree)
    requires Pending(k, t) && k.Lf? && k.c.Red? && k.up.Lf? && k.up.c.Black? && RootColor(k.up.r).Black?
    ensures Pending(Lf(Black, k.x, T(Red, k.r, k.up.x, k.up.r), k.up.up), t)
  {
    assert Accepts(k.up, Red, BlackHeight(t)) && Accepts(k.up.up, Black, BlackHeight(t) + 1);
    assert Sub(T(Red, k.r, k.up.x, k.up.r));
  }

  lemma InnerLeftPending(k: Ctx, t: Tree)
    requires Pending(k, t) && k.Rt? && k.c.Red?
    ensures Pending(Lf(Red, t.x, t.r, k.up), T(Red, k.l, k.x, t.l))
  {
  }

  /** One turn of the repair loop when the red parent is a left child. */
  method FixLeft(h: Head, elm0: Node, parent0: Node, gparent: Node, ghost k0: Ctx, ghost t0: Tree)
    returns (elm: Node, ghost k: Ctx, ghost t: Tree)
    requires h.Sync() && At(h.mem, k0, t0) && Pending(k0, t0) && elm0 == t0.x
    requires !k0.Top? && k0.c.Red? && k0.up.Lf? && parent0 == k0.x && gparent == k0.up.x
    modifies h`root, h`mem, h.mem.cells.Keys
    ensures h.Sync() && h.mem.cells.Keys == old(h.mem.cells.Keys)
    ensures At(h.mem, k, t) && Pending(k, t) && elm == t.x
    ensures InOrder(Plug(k, t)) == InOrder(Plug(k0, t0)) && Depth(k) < Depth(k0)
  {
    elm, k, t := elm0, k0, t0;
    var parent := parent0;
    var tmp := gparent.right;
    Relatives(h.mem, k, t);
    if tmp != null && tmp.color == Red {
      Raise(h.mem, k, t);
      Raise(h.mem, k.up, Fill(k, t));
      FlipPending(k, t);
      k, t := k.up.up, Fill(k.up, Fill(k, t));
      t := FlipColors(h, tmp, parent, gparent, k, t);
      elm := gparent;
      return;
    }
    if parent.right == elm {
      InnerLeftPending(k, t);
      k, t := InnerLeft(h, elm, parent, k, t);
      parent, elm := elm, parent;
    }
    OuterLeftPending(k, t);
    k := OuterLeft(h, parent, gparent, k, t);
  }

  /** The red node is an inner grandchild: a rotation makes it an outer one. */
  method InnerRight(h: Head, elm: Node, parent: Node, ghost k: Ctx, ghost t: Tree) returns (ghost k': Ctx, ghost t': Tree)
    requires h.Sync() && At(h.mem, k, t) && t.T? && t.c.Red? && k.Lf? && k.c.Red? && elm == t.x && parent == k.x
    modifies h`root, h`mem, h.mem.cells.Keys
    ensures h.Sync() && h.mem.cells.Keys == old(h.mem.cells.Keys)
    ensures k' == Rt(Red, t.l, t.x, k.up) && t' == T(Red, t.r, k.x, k.r) && At(h.mem, k', t')
    ensures InOrder(Plug(k', t')) == InOrder(Plug(k, t))
  {
    Raise(h.mem, k, t);
    var tmp;
    ghost var w;
    tmp, w := RotateRightAt(h, parent, k.up, Fill(k, t));
    k', t' := Rt(Red, t.l, t.x, k.up), T(Red, t.r, k.x, k.r);
    Lower(h.mem, k', t');
  }

  /** The red node is an outer grandchild and its uncle is black: a rotation ends the repair. */
  method OuterRight(h: Head, parent: Node, gparent: Node, ghost k: Ctx, ghost t: Tree) returns (ghost k': Ctx)
    requires h.Sync() && At(h.mem, k, t) && k.Rt? && k.c.Red? && k.up.Rt? && k.up.c.Black? && parent == k.x && gparent == k.up.x
    modifies h`root, h`mem, h.mem.cells.Keys
    ensures h.Sync() && h.mem.cells.Keys == old(h.mem.cells.Keys)
    ensures k' == Rt(Black, T(Red, k.up.l, k.up.x, k.l), k.x, k.up.up) && At(h.mem, k', t)
    ensures InOrder(Plug(k', t)) == InOrder(Plug(k, t))
  {
    ghost var kk, g := k.up.up, Fill(k.up, Fill(k, t));
    Raise(h.mem, k, t);
    Raise(h.mem, k.up, Fill(k, t));
    ghost var g1 := SetBlackRed(h, parent, gparent, kk, g);
    SwapInOrder(kk, g, g1);
    var tmp;
    ghost var w;
    tmp, w := RotateLeftAt(h, gparent, kk, g1);
    k' := Rt(Black, T(Red, k.up.l, k.up.x, k.l), k.x, k.up.up);
    Lower(h.mem, k', t);
  }

  lemma OuterRightPending(k: Ctx, t: Tree)
    requires Pending(k, t) && k.Rt? && k.c.Red? && k.up.Rt? && k.up.c.Black? && RootColor(k.up.l).Black?
    ensures Pending(Rt(Black, T(Red, k.up.l, k.up.x, k.l), k.x, k.up.up), t)
  {
    assert Accepts(k.up, Red, BlackHeight(t)) && Accepts(k.up.up, Black, BlackHeight(t) + 1);
    assert Sub(T(Red, k.up.l, k.up.x, k.l));
  }

  lemma InnerRightPending(k: Ctx, t: Tree)
    requires Pending(k, t) && k.Lf? && k.c.Red?
    ensures Pending(Rt(Red, t.l, t.x, k.up), T(Red, t.r, k.x, k.r))
  {
  }

  /** One turn of the repair loop when the red parent is a right child. */
  method FixRight(h: Head, elm0: Node, parent0: Node, gparent: Node, ghost k0: Ctx, ghost t0: Tree)
    returns (elm: Node, ghost k: Ctx, ghost t: Tree)
    requires h.Sync() && At(h.mem, k0, t0) && Pending(k0, t0) && elm0 == t0.x
    requires !k0.Top? && k0.c.Red? && k0.up.Rt? && parent0 == k0.x && gparent == k0.up.x
    modifies h`root, h`mem, h.mem.cells.Keys
    ensures h.Sync() && h.mem.cells.Keys == old(h.mem.cells.Keys)
    ensures At(h.mem, k, t) && Pending(k, t) && elm == t.x
    ensures InOrder(Plug(k, t)) == InOrder(Plug(k0, t0)) && Depth(k) < Depth(k0)
  {
    elm, k, t := elm0, k0, t0;
    var parent := parent0;
    var tmp := gparent.left;
    Relatives(h.mem, k, t);
    if tmp != null && tmp.color == Red {
      Raise(h.mem, k, t);
      Raise(h.mem, k.up, Fill(k, t));
      FlipPending(k, t);
      k, t := k.up.up, Fill(k.up, Fill(k, t));
      t := FlipColors(h, tmp, parent, gparent, k, t);
      elm := gparent;
      return;
    }
    if parent.left == elm {
      InnerRightPending(k, t);
      k, t := InnerRight(h, elm, parent, k, t);
      parent, elm := elm, parent;
    }
    OuterRightPending(k, t);
    k := OuterRight(h, parent, gparent, k, t);
  }

  /** RB_INSERT_COLOR: climbs until no red node hangs below a red parent, then blackens the root. */
  method InsertColor(h: Head, elm0: Node, ghost k0: Ctx, ghost t0: Tree)
    requires h.Sync() && At(h.mem, k0, t0) && Pending(k0, t0) && elm0 == t0.x
    modifies h, h.mem.cells.Keys
    ensures h.Sync() && h.mem.cells.Keys == old(h.mem.cells.Keys) && At(h.mem, Top, h.shape)
    ensures Sub(h.shape) && RootColor(h.shape).Black?
    ensures InOrder(h.shape) == InOrder(Plug(k0, t0))
  {
    hide InOrder, Plug, Sub, Accepts, BlackHeight;
    var elm, parent := elm0, elm0.parent;
    ghost var k, t := k0, t0;
    while parent != null && parent.color == Red
      invariant h.Sync() && h.mem.cells.Keys == old(h.mem.cells.Keys)
      invariant At(h.mem, k, t) && Pending(k, t) && elm == t.x && parent == ParentOf(k)
      invariant InOrder(Plug(k, t)) == InOrder(Plug(k0, t0))
      decreases Depth(k)
    {
      Relatives(h.mem, k, t);
      var gparent := parent.parent;
      if parent == gparent.left {
        elm, k, t := FixLeft(h, elm, parent, gparent, k, t);
      } else {
        elm, k, t := FixRight(h, elm, parent, gparent, k, t);
      }
      parent := elm.parent;
    }
    BlackenRoot(h, k, t);
  }

  /** No red node hangs below a red parent any more; the root turns black. */
  method BlackenRoot(h: Head, ghost k: Ctx, ghost t: Tree)
    requires h.Sync() && At(h.mem, k, t) && Pending(k, t) && (k.Top? || k.c.Black?)
    modifies h, h.mem.cells.Keys
    ensures h.Sync() && h.mem.cells.Keys == old(h.mem.cells.Keys) && At(h.mem, Top, h.shape)
    ensures Sub(h.shape) && RootColor(h.shape).Black? && InOrder(h.shape) == InOrder(Plug(k, t))
  {
    if !k.Top? {
      assert Accepts(k, Red, BlackHeight(t));
      PlugRules(k, t);
    }
    Zip(h.mem, k, t);
    h.shape := Plug(k, t);
    PlugNodes(k, t);
    Repaint(h.mem, Top, h.shape, Black);
    h.SetColor(h.root, Black);
    h.shape := T(Black, h.shape.l, h.shape.x, h.shape.r);
  }

  // The new leaf.

  /** A new red leaf linked into the hole of a context. */
  lemma LinkNew(m: Mem, m': Mem, k: Ctx, elm: Node)
    requires At(m, k, Leaf) && elm !in m.cells
    requires elm in m'.cells && m'.cells[elm] == Cell(null, null, ParentOf(k), Red)
    requires m'.root == if k.Top? then elm else m.root
    requires k.Lf? ==> k.x in m.cells && k.x in m'.cells && m'.cells[k.x] == m.cells[k.x].(left := elm)
    requires k.Rt? ==> k.x in m.cells && k.x in m'.cells && m'.cells[k.x] == m.cells[k.x].(right := elm)
    requires Agree(m, m', CNodes(k) - {ParentOf(k)})
    ensures At(m', k, T(Red, Leaf, elm, Leaf))
  {
    CtxInMem(m, k, null);
    match k
    case Top =>
    case Lf(_, x, r, up) => KeepTree(m, m', x, r); KeepCtx(m, m', up, x);
    case Rt(_, l, x, up) => KeepTree(m, m', x, l); KeepCtx(m, m', up, x);
  }

  ghost predicate Added(s: seq<Node>, s': seq<Node>, elm: Node) {
    exists i :: 0 <= i <= |s| && s' == s[..i] + [elm] + s[i..]
  }

  /** `s'` is `s` with `elm` put where the comparison says. */
  ghost predicate Placed(probe: int -> int, s: seq<Node>, s': seq<Node>, elm: Node) {
    exists i :: 0 <= i <= |s| && s' == s[..i] + [elm] + s[i..] && Passed(probe, s[..i]) && Ahead(probe, s[i..])
  }

  lemma PlacedBetween(probe: int -> int, a: seq<Node>, x: Node, b: seq<Node>)
    requires Passed(probe, a) && Ahead(probe, b)
    ensures Placed(probe, a + b, a + [x] + b, x)
  {
    var s := a + b;
    assert s[..|a|] == a && s[|a|..] == b;
  }

  /** The comparison is that of the key with the keys in the tree. */
  ghost predicate ByKey(probe: int -> int, key: int) {
    forall k :: (probe(k) < 0 <==> key < k) && (probe(k) > 0 <==> key > k)
  }

  /** In a tree that is sorted by keys, the place is the one in the order of the keys. */
  lemma PlacedSorted(probe: int -> int, s: seq<Node>, s': seq<Node>, elm: Node)
    requires Sorted(s) && ByKey(probe, elm.key) && Placed(probe, s, s', elm)
    ensures Sorted(s')
  {
    var p :| 0 <= p <= |s| && s' == s[..p] + [elm] + s[p..] && Passed(probe, s[..p]) && Ahead(probe, s[p..]);
    assert s == s[..p] + s[p..];
    SortedWith(s[..p], elm, s[p..]);
  }

  lemma SortedWith(a: seq<Node>, x: Node, b: seq<Node>)
    requires Sorted(a + b) && (forall y <- a :: y.key < x.key) && (forall y <- b :: x.key < y.key)
    ensures Sorted(a + [x] + b)
  {
    var s, u := a + b, a + [x] + b;
    forall i, j | 0 <= i < j < |u| ensures u[i].key < u[j].key {
      if i != |a| && j != |a| {
        assert u[i] == s[if i < |a| then i else i - 1] && u[j] == s[if j < |a| then j else j - 1];
      }
    }
  }

  lemma LeafedOrder(probe: int -> int, k: Ctx, elm: Node)
    requires Passed(probe, Pre(k)) && Ahead(probe, Post(k))
    ensures Placed(probe, InOrder(Plug(k, Leaf)), InOrder(Plug(k, T(Red, Leaf, elm, Leaf))), elm)
  {
    var t := T(Red, Leaf, elm, Leaf);
    PlugInOrder(k, Leaf);
    PlugInOrder(k, t);
    assert InOrder(t) == [elm] && InOrder(Plug(k, Leaf)) == Pre(k) + Post(k);
    PlacedBetween(probe, Pre(k), elm, Post(k));
  }

  /** Putting a new red leaf into the hole of a context. */
  lemma Leafed(probe: int -> int, k: Ctx, elm: Node)
    requires Colored(Plug(k, Leaf)) && Passed(probe, Pre(k)) && Ahead(probe, Post(k))
    requires elm in Nodes(Plug(k, Leaf)) ==> probe(elm.key) == 0
    ensures var t := T(Red, Leaf, elm, Leaf);
      && Pending(k, t) && Placed(probe, InOrder(Plug(k, Leaf)), InOrder(Plug(k, t)), elm)
      && Nodes(Plug(k, t)) == Nodes(Plug(k, Leaf)) + {elm}
      && elm !in Nodes(Plug(k, Leaf))
  {
    var t := T(Red, Leaf, elm, Leaf);
    LeafedOrder(probe, k, elm);
    Missing(probe, k, Plug(k, Leaf));
    PlugRules(k, Leaf);
    PlugNodes(k, Leaf);
    PlugNodes(k, t);
  }

  /** The pointer writes of RB_INSERT: a red leaf in the hole. */
  method Link(h: Head, elm: Node, parent: Node?, comp: int, ghost k: Ctx)
    requires h.Sync() && At(h.mem, k, Leaf) && elm !in h.mem.cells && parent == ParentOf(k)
    requires (k.Lf? ==> comp < 0) && (k.Rt? ==> comp > 0)
    modifies h`root, h`mem, elm, h.mem.cells.Keys
    ensures h.Sync() && h.mem.cells.Keys == old(h.mem.cells.Keys) + {elm}
    ensures At(h.mem, k, T(Red, Leaf, elm, Leaf))
  {
    ghost var m := h.mem;
    CtxInMem(m, k, null);
    h.SetNew(elm, parent);
    if parent != null {
      if comp < 0 {
        h.SetLeft(parent, elm);
      } else {
        h.SetRight(parent, elm);
      }
    } else {
      h.SetRoot(elm);
    }
    LinkNew(m, h.mem, k, elm);
  }

  /** The second half of RB_INSERT: links the new node at the place found and repairs the colours. */
  method Place(h: Head, elm: Node, parent: Node?, comp: int, ghost probe: int -> int, ghost k: Ctx)
    requires h.Valid() && Colored(h.shape) && At(h.mem, k, Leaf) && Plug(k, Leaf) == h.shape
    requires Passed(probe, Pre(k)) && Ahead(probe, Post(k)) && parent == ParentOf(k)
    requires (k.Lf? ==> comp < 0) && (k.Rt? ==> comp > 0) && (elm in Nodes(h.shape) ==> probe(elm.key) == 0)
    modifies h, elm, Nodes(h.shape)
    ensures h.Valid() && Colored(h.shape)
    ensures forall x <- old(Nodes(h.shape)) :: probe(x.key) != 0
    ensures Placed(probe, old(InOrder(h.shape)), InOrder(h.shape), elm)
  {
    Missing(probe, k, h.shape);
    Leafed(probe, k, elm);
    ghost var t := T(Red, Leaf, elm, Leaf);
    Link(h, elm, parent, comp, k);
    InsertColor(h, elm, k, t);
    SameNodes(h.shape, Plug(k, t));
  }

  /** RB_INSERT: a node that compares equal is answered, and nothing changes; otherwise the new node joins the tree in
    its place. `probe` is the comparison of `elm` with the nodes of the tree. */
  method Insert(h: Head, elm: Node, probe: int -> int) returns (r: Node?)
    requires h.Valid() && Colored(h.shape) && Monotone(probe, InOrder(h.shape)) && (elm in Nodes(h.shape) ==> probe(elm.key) == 0)
    modifies h, elm, Nodes(h.shape)
    ensures h.Valid() && Colored(h.shape)
    ensures r == null <==> forall x <- old(Nodes(h.shape)) :: probe(x.key) != 0
    ensures r == null ==> Placed(probe, old(InOrder(h.shape)), InOrder(h.shape), elm)
    ensures r != null ==> r in Nodes(h.shape) && probe(r.key) == 0 && unchanged(h) && unchanged(elm) && unchanged(old(Nodes(h.shape)))
    ensures old(RedBlack(h.shape)) && ByKey(probe, elm.key) ==> RedBlack(h.shape)
  {
    var parent, comp;
    ghost var k;
    r, parent, comp, k := Seek(h, probe);
    if r == null {
      ghost var s := InOrder(h.shape);
      Place(h, elm, parent, comp, probe, k);
      if Sorted(s) && ByKey(probe, elm.key) { PlacedSorted(probe, s, InOrder(h.shape), elm); }
    }
  }

  /** The descent of RB_INSERT: a node that compares equal, or the parent for a new one. */
  method Seek(h: Head, probe: int -> int) returns (r: Node?, parent: Node?, comp: int, ghost k: Ctx)
    requires h.Valid() && Monotone(probe, InOrder(h.shape))
    ensures r != null ==> r in Nodes(h.shape) && probe(r.key) == 0
    ensures r == null ==> At(h.mem, k, Leaf) && Plug(k, Leaf) == h.shape && Passed(probe, Pre(k)) && Ahead(probe, Post(k))
    ensures r == null ==> parent == ParentOf(k) && (k.Lf? ==> comp < 0) && (k.Rt? ==> comp > 0)
  {
    hide Monotone, Passed, Ahead;
    var tmp := h.root;
    r, parent, comp := null, null, 0;
    ghost var t;
    k, t := Top, h.shape;
    Everywhere(probe);
    while tmp != null
      invariant At(h.mem, k, t) && Plug(k, t) == h.shape && tmp == Root(t) && parent == ParentOf(k)
      invariant Passed(probe, Pre(k)) && Ahead(probe, Post(k))
      invariant (k.Lf? ==> comp < 0) && (k.Rt? ==> comp > 0)
      decreases t
    {
      parent := tmp;
      comp := probe(parent.key);
      Narrow(probe, k, t);
      Here(h.mem, k, t);
      if comp < 0 {
        tmp := tmp.left;
        k, t := Lf(t.c, t.x, t.r, k), t.l;
      } else if comp > 0 {
        tmp := tmp.right;
        k, t := Rt(t.c, t.l, t.x, k), t.r;
      } else {
        PlugNodes(k, t);
        r := tmp;
        return;
      }
      Lower(h.mem, k, t);
    }
  }

  lemma Everywhere(probe: int -> int)
    ensures Passed(probe, Pre(Top)) && Ahead(probe, Post(Top))
  {
  }
}
