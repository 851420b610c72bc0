/** RB_REMOVE_COLOR: the repair after a black node has been taken out. */
module RbRemoveColor {
  import opened RbNodes
  import opened RbRules
  import opened RbRotate
  import RbInsert

  ghost function Blackened(t: Tree): Tree {
    if t.Leaf? then Leaf else T(Black, t.l, t.x, t.r)
  }

  /** The subtree in focus is one black node short; its root may be red below a red parent, or above red
    children, because the loop stops there and paints it black. */
  ghost predicate Deficit(k: Ctx, t: Tree) {
    Sub(Blackened(t)) && Accepts(k, Black, BlackHeight(t) + 1)
  }

  /** Nothing is left to repair. */
  ghost predicate Repaired(k: Ctx, t: Tree) {
    Sub(t) && Accepts(k, RootColor(t), BlackHeight(t))
  }

  lemma ChildRight(m: Mem, k: Ctx, t: Tree)
    requires At(m, k, t) && t.T? && t.r.T?
    ensures t.r.x in m.cells && m.cells[t.r.x].right == Root(t.r.r)
  {
    assert IsTree(m, t.x, t.r);
  }

  lemma ChildLeft(m: Mem, k: Ctx, t: Tree)
    requires At(m, k, t) && t.T? && t.l.T?
    ensures t.l.x in m.cells && m.cells[t.l.x].left == Root(t.l.l)
  {
    assert IsTree(m, t.x, t.l);
  }

  lemma AcceptsBlack(k: Ctx, c: Color, n: nat)
    requires Accepts(k, c, n)
    ensures Accepts(k, Black, n)
  {
  }

  // The node that is short is a left child.

  /** A red sibling: a rotation gives a black sibling below a red parent. */
  method RedSiblingLeft(h: Head, tmp0: Node, parent: Node, ghost k: Ctx, ghost t: Tree) returns (tmp: Node?, ghost k': Ctx)
    requires h.Sync() && At(h.mem, k, t) && k.Lf? && k.r.T? && k.r.l.T? && tmp0 == k.r.x && parent == k.x
    modifies h`root, h`mem, h.mem.cells.Keys
    ensures h.Sync() && h.mem.cells.Keys == old(h.mem.cells.Keys)
    ensures k' == Lf(Red, k.x, k.r.l, Lf(Black, k.r.x, k.r.r, k.up)) && At(h.mem, k', t) && tmp == k.r.l.x
    ensures InOrder(Plug(k', t)) == InOrder(Plug(k, t))
  {
    Raise(h.mem, k, t);
    ghost var g1 := RbInsert.SetBlackRed(h, tmp0, parent, k.up, Fill(k, t));
    SwapInOrder(k.up, Fill(k, t), g1);
    ghost var w;
    tmp, w := RotateLeftAt(h, parent, k.up, g1);
    k' := Lf(Red, k.x, k.r.l, Lf(Black, k.r.x, k.r.r, k.up));
    Lower(h.mem, k'.up, Fill(k', t));
    Lower(h.mem, k', t);
    tmp := parent.right;
  }

  lemma RedSiblingLeftDeficit(k: Ctx, t: Tree)
    requires Deficit(k, t) && k.Lf? && k.r.T? && k.r.c.Red?
    ensures k.r.l.T? && k.r.l.c.Black? && k.c.Black? && Deficit(Lf(Red, k.x, k.r.l, Lf(Black, k.r.x, k.r.r, k.up)), t)
  {
    assert Sub(k.r.l) && Sub(k.r.r) && Accepts(k.up, Black, BlackHeight(t) + 2);
    assert Accepts(Lf(Black, k.r.x, k.r.r, k.up), Red, BlackHeight(t) + 1);
  }

  /** A black sibling with black children: it turns red and the parent is short instead. */
  method BlackNephewsLeft(h: Head, tmp: Node, ghost k: Ctx, ghost t: Tree) returns (ghost t': Tree)
    requires h.Sync() && At(h.mem, k, t) && k.Lf? && k.r.T? && tmp == k.r.x
    modifies h`mem, h.mem.cells.Keys
    ensures h.Sync() && h.mem.cells.Keys == old(h.mem.cells.Keys)
    ensures t' == T(k.c, t, k.x, T(Red, k.r.l, k.r.x, k.r.r)) && At(h.mem, k.up, t')
    ensures InOrder(Plug(k.up, t')) == InOrder(Plug(k, t))
  {
    Raise(h.mem, k, t);
    RepaintRight(h.mem, k.up, Fill(k, t), Red);
    h.SetColor(tmp, Red);
    t' := T(k.c, t, k.x, T(Red, k.r.l, k.r.x, k.r.r));
    SwapInOrder(k.up, Fill(k, t), t');
  }

  lemma BlackNephewsLeftDeficit(k: Ctx, t: Tree)
    requires Deficit(k, t) && RootColor(t).Black? && k.Lf? && k.r.T? && k.r.c.Black?
    requires RootColor(k.r.l).Black? && RootColor(k.r.r).Black?
    ensures Deficit(k.up, T(k.c, t, k.x, T(Red, k.r.l, k.r.x, k.r.r)))
  {
    AcceptsBlack(k.up, k.c, BlackHeight(t) + 1 + Weight(k.c));
    assert Sub(T(Red, k.r.l, k.r.x, k.r.r));
  }

  /** A black sibling whose outer child is black: a rotation gives it a red outer child. */
  method InnerNephewLeft(h: Head, tmp0: Node, parent: Node, ghost k: Ctx, ghost t: Tree) returns (tmp: Node?, ghost k': Ctx)
    requires h.Sync() && At(h.mem, k, t) && k.Lf? && k.r.T? && k.r.l.T? && tmp0 == k.r.x && parent == k.x
    modifies h`root, h`mem, h.mem.cells.Keys
    ensures h.Sync() && h.mem.cells.Keys == old(h.mem.cells.Keys)
    ensures k' == Lf(k.c, k.x, T(Black, k.r.l.l, k.r.l.x, T(Red, k.r.l.r, k.r.x, k.r.r)), k.up) && At(h.mem, k', t) && tmp == k.r.l.x
    ensures InOrder(Plug(k', t)) == InOrder(Plug(k, t))
  {
    ghost var ks, s := Rt(k.c, t, k.x, k.up), k.r;
    Raise(h.mem, k, t);
    Lower(h.mem, ks, s);
    s := RbInsert.SetBlackRed(h, tmp0.left, tmp0, ks, s);
    SwapInOrder(ks, k.r, s);
    var top;
    ghost var w;
    top, w := RotateRightAt(h, tmp0, ks, s);
    k' := Lf(k.c, k.x, T(Black, k.r.l.l, k.r.l.x, T(Red, k.r.l.r, k.r.x, k.r.r)), k.up);
    Raise(h.mem, ks, w);
    Lower(h.mem, k', t);
    tmp := parent.right;
  }

  lemma InnerNephewLeftDeficit(k: Ctx, t: Tree)
    requires Deficit(k, t) && k.Lf? && k.r.T? && k.r.c.Black?
    requires RootColor(k.r.l).Red? && RootColor(k.r.r).Black?
    ensures Deficit(Lf(k.c, k.x, T(Black, k.r.l.l, k.r.l.x, T(Red, k.r.l.r, k.r.x, k.r.r)), k.up), t)
  {
    var n := BlackHeight(t);
    assert Sub(k.r) && BlackHeight(k.r) == n + 1 && (k.c.Red? ==> RootColor(k.r).Black?) && Accepts(k.up, k.c, n + 1 + Weight(k.c));
    InnerRotatedLeft(k.r, n);
    var s := T(Black, k.r.l.l, k.r.l.x, T(Red, k.r.l.r, k.r.x, k.r.r));
    assert Accepts(Lf(k.c, k.x, s, k.up), Black, n + 1);
  }

  /** The sibling of the node that is short, after that rotation. */
  lemma InnerRotatedLeft(r: Tree, n: nat)
    requires Sub(r) && BlackHeight(r) == n + 1 && r.T? && r.c.Black? && RootColor(r.l).Red? && RootColor(r.r).Black?
    ensures var s := T(Black, r.l.l, r.l.x, T(Red, r.l.r, r.x, r.r)); Sub(s) && BlackHeight(s) == n + 1
  {
    assert Sub(r.l) && Sub(r.r) && BlackHeight(r.l) == BlackHeight(r.r) == n;
    assert Sub(r.l.l) && Sub(r.l.r) && BlackHeight(r.l.l) == BlackHeight(r.l.r) == n;
    var q := T(Red, r.l.r, r.x, r.r);
    assert Sub(q) && BlackHeight(q) == n;
  }

  /** The sibling takes over the colour of the parent, which turns black. */
  method PromoteLeft(h: Head, tmp: Node, parent: Node, ghost k: Ctx, ghost g: Tree) returns (ghost g': Tree)
    requires h.Sync() && At(h.mem, k, g) && g.T? && g.r.T? && tmp == g.r.x && parent == g.x
    modifies h`mem, h.mem.cells.Keys
    ensures h.Sync() && h.mem.cells.Keys == old(h.mem.cells.Keys)
    ensures g' == T(Black, g.l, g.x, T(g.c, g.r.l, g.r.x, g.r.r)) && At(h.mem, k, g')
  {
    RepaintRight(h.mem, k, g, g.c);
    h.SetColor(tmp, parent.color);
    g' := T(g.c, g.l, g.x, T(g.c, g.r.l, g.r.x, g.r.r));
    Repaint(h.mem, k, g', Black);
    h.SetColor(parent, Black);
    g' := T(Black, g'.l, g'.x, g'.r);
  }

  /** The colours before the last rotation: the sibling takes over the parent's, parent and nephew turn black. */
  method PaintOuterLeft(h: Head, tmp: Node, parent: Node, ghost k: Ctx, ghost g: Tree) returns (ghost g': Tree)
    requires h.Sync() && At(h.mem, k, g) && g.T? && g.r.T? && g.r.r.T? && tmp == g.r.x && parent == g.x
    modifies h`mem, h.mem.cells.Keys
    ensures h.Sync() && h.mem.cells.Keys == old(h.mem.cells.Keys)
    ensures g' == T(Black, g.l, g.x, T(g.c, g.r.l, g.r.x, T(Black, g.r.r.l, g.r.r.x, g.r.r.r))) && At(h.mem, k, g')
  {
    g' := PromoteLeft(h, tmp, parent, k, g);
    RepaintRightRight(h.mem, k, g', Black);
    ChildRight(h.mem, k, g');
    if tmp.right != null {
      h.SetColor(tmp.right, Black);
    }
    g' := T(Black, g.l, g.x, T(g.c, g.r.l, g.r.x, T(Black, g.r.r.l, g.r.r.x, g.r.r.r)));
  }

  lemma PaintOuterLeftInOrder(g: Tree)
    requires g.T? && g.r.T? && g.r.r.T?
    ensures InOrder(T(Black, g.l, g.x, T(g.c, g.r.l, g.r.x, T(Black, g.r.r.l, g.r.r.x, g.r.r.r)))) == InOrder(g)
  {
    assert InOrder(T(g.c, g.r.l, g.r.x, T(Black, g.r.r.l, g.r.r.x, g.r.r.r))) == InOrder(g.r);
  }

  /** A black sibling with a red outer child: a rotation ends the repair. */
  method OuterNephewLeft(h: Head, tmp0: Node, parent: Node, ghost k: Ctx, ghost t: Tree) returns (ghost t': Tree)
    requires h.Sync() && At(h.mem, k, t) && k.Lf? && k.r.T? && k.r.r.T? && tmp0 == k.r.x && parent == k.x
    modifies h`root, h`mem, h.mem.cells.Keys
    ensures h.Sync() && h.mem.cells.Keys == old(h.mem.cells.Keys)
    ensures t' == T(k.c, T(Black, t, k.x, k.r.l), k.r.x, T(Black, k.r.r.l, k.r.r.x, k.r.r.r)) && At(h.mem, k.up, t')
    ensures InOrder(Plug(k.up, t')) == InOrder(Plug(k, t))
  {
    Raise(h.mem, k, t);
    ghost var g := PaintOuterLeft(h, tmp0, parent, k.up, Fill(k, t));
    PaintOuterLeftInOrder(Fill(k, t));
    SwapInOrder(k.up, Fill(k, t), g);
    var tmp;
    tmp, t' := RotateLeftAt(h, parent, k.up, g);
  }

  lemma OuterNephewLeftRepaired(k: Ctx, t: Tree)
    requires Deficit(k, t) && RootColor(t).Black? && k.Lf? && k.r.T? && k.r.c.Black? && RootColor(k.r.r).Red?
    ensures Repaired(k.up, T(k.c, T(Black, t, k.x, k.r.l), k.r.x, T(Black, k.r.r.l, k.r.r.x, k.r.r.r)))
  {
    var s := k.r;
    assert Sub(s.l) && Sub(s.r) && Sub(T(Black, s.r.l, s.r.x, s.r.r));
    assert Sub(T(Black, t, k.x, s.l));
  }

  // The node that is short is a right child.

  /** A red sibling: a rotation gives a black sibling below a red parent. */
  method RedSiblingRight(h: Head, tmp0: Node, parent: Node, ghost k: Ctx, ghost t: Tree) returns (tmp: Node?, ghost k': Ctx)
    requires h.Sync() && At(h.mem, k, t) && k.Rt? && k.l.T? && k.l.r.T? && tmp0 == k.l.x && parent == k.x
    modifies h`root, h`mem, h.mem.cells.Keys
    ensures h.Sync() && h.mem.cells.Keys == old(h.mem.cells.Keys)
    ensures k' == Rt(Red, k.l.r, k.x, Rt(Black, k.l.l, k.l.x, k.up)) && At(h.mem, k', t) && tmp == k.l.r.x
    ensures InOrder(Plug(k', t)) == InOrder(Plug(k, t))
  {
    Raise(h.mem, k, t);
    ghost var g1 := RbInsert.SetBlackRed(h, tmp0, parent, k.up, Fill(k, t));
    SwapInOrder(k.up, Fill(k, t), g1);
    ghost var w;
    tmp, w := RotateRightAt(h, parent, k.up, g1);
    k' := Rt(Red, k.l.r, k.x, Rt(Black, k.l.l, k.l.x, k.up));
    Lower(h.mem, k'.up, Fill(k', t));
    Lower(h.mem, k', t);
    tmp := parent.left;
  }

  lemma RedSiblingRightDeficit(k: Ctx, t: Tree)
    requires Deficit(k, t) && k.Rt? && k.l.T? && k.l.c.Red?
    ensures k.l.r.T? && k.l.r.c.Black? && k.c.Black? && Deficit(Rt(Red, k.l.r, k.x, Rt(Black, k.l.l, k.l.x, k.up)), t)
  {
    assert Sub(k.l.r) && Sub(k.l.l) && Accepts(k.up, Black, BlackHeight(t) + 2);
    assert Accepts(Rt(Black, k.l.l, k.l.x, k.up), Red, BlackHeight(t) + 1);
  }

  /** A black sibling with black children: it turns red and the parent is short instead. */
  method BlackNephewsRight(h: Head, tmp: Node, ghost k: Ctx, ghost t: Tree) returns (ghost t': Tree)
    requires h.Sync() && At(h.mem, k, t) && k.Rt? && k.l.T? && tmp == k.l.x
    modifies h`mem, h.mem.cells.Keys
    ensures h.Sync() && h.mem.cells.Keys == old(h.mem.cells.Keys)
    ensures t' == T(k.c, T(Red, k.l.l, k.l.x, k.l.r), k.x, t) && At(h.mem, k.up, t')
    ensures InOrder(Plug(k.up, t')) == InOrder(Plug(k, t))
  {
    Raise(h.mem, k, t);
    RepaintLeft(h.mem, k.up, Fill(k, t), Red);
    h.SetColor(tmp, Red);
    t' := T(k.c, T(Red, k.l.l, k.l.x, k.l.r), k.x, t);
    SwapInOrder(k.up, Fill(k, t), t');
  }

  lemma BlackNephewsRightDeficit(k: Ctx, t: Tree)
    requires Deficit(k, t) && RootColor(t).Black? && k.Rt? && k.l.T? && k.l.c.Black?
    requires RootColor(k.l.l).Black? && RootColor(k.l.r).Black?
    ensures Deficit(k.up, T(k.c, T(Red, k.l.l, k.l.x, k.l.r), k.x, t))
  {
    AcceptsBlack(k.up, k.c, BlackHeight(t) + 1 + Weight(k.c));
    assert Sub(T(Red, k.l.l, k.l.x, k.l.r));
  }

  /** A black sibling whose outer child is black: a rotation gives it a red outer child. */
  method InnerNephewRight(h: Head, tmp0: Node, parent: Node, ghost k: Ctx, ghost t: Tree) returns (tmp: Node?, ghost k': Ctx)
    requires h.Sync() && At(h.mem, k, t) && k.Rt? && k.l.T? && k.l.r.T? && tmp0 == k.l.x && parent == k.x
    modifies h`root, h`mem, h.mem.cells.Keys
    ensures h.Sync() && h.mem.cells.Keys == old(h.mem.cells.Keys)
    ensures k' == Rt(k.c, T(Black, T(Red, k.l.l, k.l.x, k.l.r.l), k.l.r.x, k.l.r.r), k.x, k.up) && At(h.mem, k', t) && tmp == k.l.r.x
    ensures InOrder(Plug(k', t)) == InOrder(Plug(k, t))
  {
    ghost var ks, s := Lf(k.c, k.x, t, k.up), k.l;
    Raise(h.mem, k, t);
    Lower(h.mem, ks, s);
    s := RbInsert.SetBlackRed(h, tmp0.right, tmp0, ks, s);
    SwapInOrder(ks, k.l, s);
    var top;
    ghost var w;
    top, w := RotateLeftAt(h, tmp0, ks, s);
    k' := Rt(k.c, T(Black, T(Red, k.l.l, k.l.x, k.l.r.l), k.l.r.x, k.l.r.r), k.x, k.up);
    Raise(h.mem, ks, w);
    Lower(h.mem, k', t);
    tmp := parent.left;
  }

  lemma InnerNephewRightDeficit(k: Ctx, t: Tree)
    requires Deficit(k, t) && k.Rt? && k.l.T? && k.l.c.Black?
    requires RootColor(k.l.r).Red? && RootColor(k.l.l).Black?
    ensures Deficit(Rt(k.c, T(Black, T(Red, k.l.l, k.l.x, k.l.r.l), k.l.r.x, k.l.r.r), k.x, k.up), t)
  {
    var n := BlackHeight(t);
    assert Sub(k.l) && BlackHeight(k.l) == n + 1 && (k.c.Red? ==> RootColor(k.l).Black?) && Accepts(k.up, k.c, n + 1 + Weight(k.c));
    InnerRotatedRight(k.l, n);
    var s := T(Black, T(Red, k.l.l, k.l.x, k.l.r.l), k.l.r.x, k.l.r.r);
    assert Accepts(Rt(k.c, s, k.x, k.up), Black, n + 1);
  }

  /** The sibling of the node that is short, after that rotation. */
  lemma InnerRotatedRight(l: Tree, n: nat)
    requires Sub(l) && BlackHeight(l) == n + 1 && l.T? && l.c.Black? && RootColor(l.r).Red? && RootColor(l.l).Black?
    ensures var s := T(Black, T(Red, l.l, l.x, l.r.l), l.r.x, l.r.r); Sub(s) && BlackHeight(s) == n + 1
  {
    assert Sub(l.r) && Sub(l.l) && BlackHeight(l.r) == BlackHeight(l.l) == n;
    assert Sub(l.r.l) && Sub(l.r.r) && BlackHeight(l.r.l) == BlackHeight(l.r.r) == n;
    var q := T(Red, l.l, l.x, l.r.l);
    assert Sub(q) && BlackHeight(q) == n;
  }

  /** The sibling takes over the colour of the parent, which turns black. */
  method PromoteRight(h: Head, tmp: Node, parent: Node, ghost k: Ctx, ghost g: Tree) returns (ghost g': Tree)
    requires h.Sync() && At(h.mem, k, g) && g.T? && g.l.T? && tmp == g.l.x && parent == g.x
    modifies h`mem, h.mem.cells.Keys
    ensures h.Sync() && h.mem.cells.Keys == old(h.mem.cells.Keys)
    ensures g' == T(Black, T(g.c, g.l.l, g.l.x, g.l.r), g.x, g.r) && At(h.mem, k, g')
  {
    RepaintLeft(h.mem, k, g, g.c);
    h.SetColor(tmp, parent.color);
    g' := T(g.c, T(g.c, g.l.l, g.l.x, g.l.r), g.x, g.r);
    Repaint(h.mem, k, g', Black);
    h.SetColor(parent, Black);
    g' := T(Black, g'.l, g'.x, g'.r);
  }

  /** The colours before the last rotation: the sibling takes over the parent's, parent and nephew turn black. */
  method PaintOuterRight(h: Head, tmp: Node, parent: Node, ghost k: Ctx, ghost g: Tree) returns (ghost g': Tree)
    requires h.Sync() && At(h.mem, k, g) && g.T? && g.l.T? && g.l.l.T? && tmp == g.l.x && parent == g.x
    modifies h`mem, h.mem.cells.Keys
    ensures h.Sync() && h.mem.cells.Keys == old(h.mem.cells.Keys)
    ensures g' == T(Black, T(g.c, T(Black, g.l.l.l, g.l.l.x, g.l.l.r), g.l.x, g.l.r), g.x, g.r) && At(h.mem, k, g')
  {
    g' := PromoteRight(h, tmp, parent, k, g);
    RepaintLeftLeft(h.mem, k, g', Black);
    ChildLeft(h.mem, k, g');
    if tmp.left != null {
      h.SetColor(tmp.left, Black);
    }
    g' := T(Black, T(g.c, T(Black, g.l.l.l, g.l.l.x, g.l.l.r), g.l.x, g.l.r), g.x, g.r);
  }

  lemma PaintOuterRightInOrder(g: Tree)
    requires g.T? && g.l.T? && g.l.l.T?
    ensures InOrder(T(Black, T(g.c, T(Black, g.l.l.l, g.l.l.x, g.l.l.r), g.l.x, g.l.r), g.x, g.r)) == InOrder(g)
  {
    assert InOrder(T(g.c, T(Black, g.l.l.l, g.l.l.x, g.l.l.r), g.l.x, g.l.r)) == InOrder(g.l);
  }

  /** A black sibling with a red outer child: a rotation ends the repair. */
  method OuterNephewRight(h: Head, tmp0: Node, parent: Node, ghost k: Ctx, ghost t: Tree) returns (ghost t': Tree)
    requires h.Sync() && At(h.mem, k, t) && k.Rt? && k.l.T? && k.l.l.T? && tmp0 == k.l.x && parent == k.x
    modifies h`root, h`mem, h.mem.cells.Keys
    ensures h.Sync() && h.mem.cells.Keys == old(h.mem.cells.Keys)
    ensures t' == T(k.c, T(Black, k.l.l.l, k.l.l.x, k.l.l.r), k.l.x, T(Black, k.l.r, k.x, t)) && At(h.mem, k.up, t')
    ensures InOrder(Plug(k.up, t')) == InOrder(Plug(k, t))
  {
    Raise(h.mem, k, t);
    ghost var g := PaintOuterRight(h, tmp0, parent, k.up, Fill(k, t));
    PaintOuterRightInOrder(Fill(k, t));
    SwapInOrder(k.up, Fill(k, t), g);
    var tmp;
    tmp, t' := RotateRightAt(h, parent, k.up, g);
  }

  lemma OuterNephewRightRepaired(k: Ctx, t: Tree)
    requires Deficit(k, t) && RootColor(t).Black? && k.Rt? && k.l.T? && k.l.c.Black? && RootColor(k.l.l).Red?
    ensures Repaired(k.up, T(k.c, T(Black, k.l.l.l, k.l.l.x, k.l.l.r), k.l.x, T(Black, k.l.r, k.x, t)))
  {
    var s := k.l;
    assert Sub(s.r) && Sub(s.l) && Sub(T(Black, s.l.l, s.l.x, s.l.r));
    assert Sub(T(Black, s.r, k.x, t));
  }

  // The loop.

  ghost function Measure(k: Ctx, t: Tree): nat {
    if RootColor(t).Red? then 0 else RbInsert.Depth(k) + 1
  }

  lemma SiblingExists(k: Ctx, t: Tree)
    requires Deficit(k, t) && !k.Top?
    ensures RbInsert.Sibling(k).T?
  {
  }

  lemma ColorIn(m: Mem, p: Node?, t: Tree)
    requires IsTree(m, p, t)
    ensures Root(t) != null ==> Root(t) in m.cells && m.cells[Root(t)].color == t.c
  {
  }

  /** What the repair loop can read: the parent, the sibling and the nephews. */
  lemma Relatives(m: Mem, k: Ctx, t: Tree)
    requires At(m, k, t) && !k.Top? && RbInsert.Sibling(k).T?
    ensures k.x in m.cells
    ensures k.Lf? ==> m.cells[k.x].left == Root(t) && m.cells[k.x].right == k.r.x
    ensures k.Rt? ==> m.cells[k.x].right == Root(t) && m.cells[k.x].left == k.l.x
    ensures var s := RbInsert.Sibling(k);
      && s.x in m.cells && m.cells[s.x] == Cell(Root(s.l), Root(s.r), k.x, s.c)
      && (Root(s.l) != null ==> Root(s.l) in m.cells && m.cells[Root(s.l)].color == s.l.c)
      && (Root(s.r) != null ==> Root(s.r) in m.cells && m.cells[Root(s.r)].color == s.r.c)
  {
    var s := RbInsert.Sibling(k);
    assert IsTree(m, k.x, s);
    ColorIn(m, s.x, s.l);
    ColorIn(m, s.x, s.r);
  }

  /** The sibling, which is black once a rotation has been made for a red one. */
  method BlackSiblingLeft(h: Head, parent: Node, ghost k0: Ctx, ghost t: Tree) returns (tmp: Node, ghost k: Ctx)
    requires h.Sync() && At(h.mem, k0, t) && Deficit(k0, t) && k0.Lf? && parent == k0.x
    modifies h`root, h`mem, h.mem.cells.Keys
    ensures h.Sync() && h.mem.cells.Keys == old(h.mem.cells.Keys) && At(h.mem, k, t) && Deficit(k, t)
    ensures k.Lf? && parent == k.x && k.r.T? && k.r.c.Black? && tmp == k.r.x && InOrder(Plug(k, t)) == InOrder(Plug(k0, t))
    ensures k == k0 || (k.c.Red? && !k.up.Top? && k.up.up == k0.up)
  {
    hide At, Deficit, InOrder, Plug;
    k := k0;
    SiblingExists(k, t);
    Relatives(h.mem, k, t);
    tmp := parent.right;
    if tmp.color == Red {
      RedSiblingLeftDeficit(k, t);
      var w;
      w, k := RedSiblingLeft(h, tmp, parent, k, t);
      tmp := w;
    }
  }

  /** A black sibling with a red child: one or two rotations complete the repair. */
  method LastTurnLeft(h: Head, tmp0: Node, parent: Node, ghost k0: Ctx, ghost t0: Tree) returns (ghost k: Ctx, ghost t: Tree)
    requires h.Sync() && At(h.mem, k0, t0) && Deficit(k0, t0) && RootColor(t0).Black? && k0.Lf? && parent == k0.x
    requires var s := RbInsert.Sibling(k0); s.T? && s.c.Black? && tmp0 == s.x && (RootColor(s.l).Red? || RootColor(s.r).Red?)
    modifies h`root, h`mem, h.mem.cells.Keys
    ensures h.Sync() && h.mem.cells.Keys == old(h.mem.cells.Keys) && At(h.mem, k, t) && Repaired(k, t)
    ensures InOrder(Plug(k, t)) == InOrder(Plug(k0, t0))
  {
    hide At, Deficit, Repaired, InOrder, Plug;
    var tmp: Node := tmp0;
    k, t := k0, t0;
    Relatives(h.mem, k, t);
    if tmp.right == null || tmp.right.color == Black {
      InnerNephewLeftDeficit(k, t);
      var w;
      w, k := InnerNephewLeft(h, tmp, parent, k, t);
      tmp := w;
    }
    OuterNephewLeftRepaired(k, t);
    t := OuterNephewLeft(h, tmp, parent, k, t);
    k := k.up;
  }

  /** One turn of the repair loop when the short node is a left child; `done` when the repair is complete. */
  method FixLeft(h: Head, parent0: Node, ghost k0: Ctx, ghost t0: Tree)
    returns (done: bool, elm: Node?, parent: Node?, ghost k: Ctx, ghost t: Tree)
    requires h.Sync() && At(h.mem, k0, t0) && Deficit(k0, t0) && RootColor(t0).Black? && k0.Lf? && parent0 == k0.x
    modifies h`root, h`mem, h.mem.cells.Keys
    ensures h.Sync() && h.mem.cells.Keys == old(h.mem.cells.Keys) && At(h.mem, k, t)
    ensures done ==> Repaired(k, t) && elm == h.root
    ensures !done ==> Deficit(k, t) && elm == Root(t) && parent == ParentOf(k) && Measure(k, t) < Measure(k0, t0)
    ensures InOrder(Plug(k, t)) == InOrder(Plug(k0, t0))
  {
    hide At, Deficit, Repaired, InOrder, Plug;
    parent, t := parent0, t0;
    var tmp: Node;
    tmp, k := BlackSiblingLeft(h, parent, k0, t);
    Relatives(h.mem, k, t);
    if (tmp.left == null || tmp.left.color == Black) && (tmp.right == null || tmp.right.color == Black) {
      BlackNephewsLeftDeficit(k, t);
      t := BlackNephewsLeft(h, tmp, k, t);
      k := k.up;
      Here(h.mem, k, t);
      elm := parent;
      parent := elm.parent;
      done := false;
    } else {
      k, t := LastTurnLeft(h, tmp, parent, k, t);
      elm := h.root;
      done := true;
    }
  }

  /** The sibling, which is black once a rotation has been made for a red one. */
  method BlackSiblingRight(h: Head, parent: Node, ghost k0: Ctx, ghost t: Tree) returns (tmp: Node, ghost k: Ctx)
    requires h.Sync() && At(h.mem, k0, t) && Deficit(k0, t) && k0.Rt? && parent == k0.x
    modifies h`root, h`mem, h.mem.cells.Keys
    ensures h.Sync() && h.mem.cells.Keys == old(h.mem.cells.Keys) && At(h.mem, k, t) && Deficit(k, t)
    ensures k.Rt? && parent == k.x && k.l.T? && k.l.c.Black? && tmp == k.l.x && InOrder(Plug(k, t)) == InOrder(Plug(k0, t))
    ensures k == k0 || (k.c.Red? && !k.up.Top? && k.up.up == k0.up)
  {
    hide At, Deficit, InOrder, Plug;
    k := k0;
    SiblingExists(k, t);
    Relatives(h.mem, k, t);
    tmp := parent.left;
    if tmp.color == Red {
      RedSiblingRightDeficit(k, t);
      var w;
      w, k := RedSiblingRight(h, tmp, parent, k, t);
      tmp := w;
    }
  }

  /** A black sibling with a red child: one or two rotations complete the repair. */
  method LastTurnRight(h: Head, tmp0: Node, parent: Node, ghost k0: Ctx, ghost t0: Tree) returns (ghost k: Ctx, ghost t: Tree)
    requires h.Sync() && At(h.mem, k0, t0) && Deficit(k0, t0) && RootColor(t0).Black? && k0.Rt? && parent == k0.x
    requires var s := RbInsert.Sibling(k0); s.T? && s.c.Black? && tmp0 == s.x && (RootColor(s.l).Red? || RootColor(s.r).Red?)
    modifies h`root, h`mem, h.mem.cells.Keys
    ensures h.Sync() && h.mem.cells.Keys == old(h.mem.cells.Keys) && At(h.mem, k, t) && Repaired(k, t)
    ensures InOrder(Plug(k, t)) == InOrder(Plug(k0, t0))
  {
    hide At, Deficit, Repaired, InOrder, Plug;
    var tmp: Node := tmp0;
    k, t := k0, t0;
    Relatives(h.mem, k, t);
    if tmp.left == null || tmp.left.color == Black {
      InnerNephewRightDeficit(k, t);
      var w;
      w, k := InnerNephewRight(h, tmp, parent, k, t);
      tmp := w;
    }
    OuterNephewRightRepaired(k, t);
    t := OuterNephewRight(h, tmp, parent, k, t);
    k := k.up;
  }

  /** One turn of the repair loop when the short node is a right child; `done` when the repair is complete. */
  method FixRight(h: Head, parent0: Node, ghost k0: Ctx, ghost t0: Tree)
    returns (done: bool, elm: Node?, parent: Node?, ghost k: Ctx, ghost t: Tree)
    requires h.Sync() && At(h.mem, k0, t0) && Deficit(k0, t0) && RootColor(t0).Black? && k0.Rt? && parent0 == k0.x
    modifies h`root, h`mem, h.mem.cells.Keys
    ensures h.Sync() && h.mem.cells.Keys == old(h.mem.cells.Keys) && At(h.mem, k, t)
    ensures done ==> Repaired(k, t) && elm == h.root
    ensures !done ==> Deficit(k, t) && elm == Root(t) && parent == ParentOf(k) && Measure(k, t) < Measure(k0, t0)
    ensures InOrder(Plug(k, t)) == InOrder(Plug(k0, t0))
  {
    hide At, Deficit, Repaired, InOrder, Plug;
    parent, t := parent0, t0;
    var tmp: Node;
    tmp, k := BlackSiblingRight(h, parent, k0, t);
    Relatives(h.mem, k, t);
    if (tmp.left == null || tmp.left.color == Black) && (tmp.right == null || tmp.right.color == Black) {
      BlackNephewsRightDeficit(k, t);
      t := BlackNephewsRight(h, tmp, k, t);
      k := k.up;
      Here(h.mem, k, t);
      elm := parent;
      parent := elm.parent;
      done := false;
    } else {
      k, t := LastTurnRight(h, tmp, parent, k, t);
      elm := h.root;
      done := true;
    }
  }

  /** Painting the node in focus black, if there is one, ends the repair. */
  method PaintBlack(h: Head, elm: Node?, ghost k: Ctx, ghost t: Tree)
    requires h.Sync() && At(h.mem, k, t) && elm == Root(t)
    requires Repaired(k, Blackened(t))
    modifies h, h.mem.cells.Keys
    ensures h.Sync() && h.mem.cells.Keys == old(h.mem.cells.Keys) && At(h.mem, Top, h.shape)
    ensures Sub(h.shape) && RootColor(h.shape).Black? && InOrder(h.shape) == InOrder(Plug(k, t))
  {
    if elm != null {
      Repaint(h.mem, k, t, Black);
      h.SetColor(elm, Black);
    }
    ghost var t' := Blackened(t);
    SwapInOrder(k, t, t');
    PlugRules(k, t');
    Zip(h.mem, k, t');
    h.shape := Plug(k, t');
  }

  lemma RepairedWhole(k: Ctx, t: Tree)
    requires Repaired(k, t)
    ensures Repaired(Top, Blackened(Plug(k, t)))
  {
    PlugRules(k, t);
  }

  lemma StoppedRepaired(k: Ctx, t: Tree)
    requires Deficit(k, t) && (RootColor(t).Red? || k.Top?)
    ensures Repaired(k, Blackened(t))
  {
  }

  /** The tests of the loop, read off the focus. */
  lemma Tests(m: Mem, k: Ctx, t: Tree)
    requires At(m, k, t) && Deficit(k, t)
    ensures Root(t) != null ==> Root(t) in m.cells && m.cells[Root(t)].color == RootColor(t)
    ensures k.Top? <==> m.root == Root(t)
    ensures !k.Top? ==> k.x in m.cells && (m.cells[k.x].left == Root(t) <==> k.Lf?)
  {
    RootInNodes(t);
    if !k.Top? {
      RootInCtx(m, k, Root(t));
      SiblingExists(k, t);
      RootInNodes(RbInsert.Sibling(k));
    }
  }

  /** RB_REMOVE_COLOR. */
  method RemoveColor(h: Head, parent0: Node?, elm0: Node?, ghost k0: Ctx, ghost t0: Tree)
    requires h.Sync() && At(h.mem, k0, t0) && Deficit(k0, t0) && elm0 == Root(t0) && parent0 == ParentOf(k0)
    modifies h, h.mem.cells.Keys
    ensures h.Sync() && h.mem.cells.Keys == old(h.mem.cells.Keys) && At(h.mem, Top, h.shape)
    ensures Sub(h.shape) && RootColor(h.shape).Black? && InOrder(h.shape) == InOrder(Plug(k0, t0))
  {
    hide Deficit, Repaired, InOrder, Plug, Measure, Sub, At;
    var elm, parent, done := elm0, parent0, false;
    ghost var k, t := k0, t0;
    Tests(h.mem, k, t);
    while (elm == null || elm.color == Black) && elm != h.root
      invariant h.Sync() && h.mem.cells.Keys == old(h.mem.cells.Keys) && At(h.mem, k, t)
      invariant Deficit(k, t) && elm == Root(t) && parent == ParentOf(k)
      invariant InOrder(Plug(k, t)) == InOrder(Plug(k0, t0))
      decreases Measure(k, t)
    {
      done, elm, parent, k, t := Turn(h, elm, parent, k, t);
      if done {
        break;
      }
    }
    if !done {
      Tests(h.mem, k, t);
      StoppedRepaired(k, t);
    }
    PaintBlack(h, elm, k, t);
  }

  /** One turn of the loop. */
  method Turn(h: Head, elm0: Node?, parent0: Node?, ghost k0: Ctx, ghost t0: Tree)
    returns (done: bool, elm: Node?, parent: Node?, ghost k: Ctx, ghost t: Tree)
    requires h.Sync() && At(h.mem, k0, t0) && Deficit(k0, t0) && elm0 == Root(t0) && parent0 == ParentOf(k0)
    requires (elm0 == null || elm0.color == Black) && elm0 != h.root
    modifies h`root, h`mem, h.mem.cells.Keys
    ensures h.Sync() && h.mem.cells.Keys == old(h.mem.cells.Keys) && At(h.mem, k, t) && elm == Root(t)
    ensures done ==> Repaired(k, Blackened(t))
    ensures !done ==> Deficit(k, t) && parent == ParentOf(k) && Measure(k, t) < Measure(k0, t0)
    ensures InOrder(Plug(k, t)) == InOrder(Plug(k0, t0))
  {
    hide Deficit, Repaired, InOrder, Plug, Measure, At;
    Tests(h.mem, k0, t0);
    if parent0.left == elm0 {
      done, elm, parent, k, t := FixLeft(h, parent0, k0, t0);
    } else {
      done, elm, parent, k, t := FixRight(h, parent0, k0, t0);
    }
    if done {
      RepairedWhole(k, t);
      Zip(h.mem, k, t);
      WholeRoot(h.mem, Plug(k, t));
      k, t := Top, Plug(k, t);
      PlugTop(t);
    }
  }

  lemma WholeRoot(m: Mem, t: Tree)
    requires At(m, Top, t)
    ensures m.root == Root(t)
  {
  }

  lemma PlugTop(t: Tree)
    ensures Plug(Top, t) == t
  {
  }
}
