/** RB_REMOVE: splices a node out, directly or by way of its successor. */
module RbRemove {
  import opened RbNodes
  import opened RbRules
  import opened RbRotate
  import opened RbRemoveColor
  import RbInsert

  /** Every node of a tree can be brought into focus. */
  lemma {:induction false} Find(k: Ctx, t: Tree, n: Node) returns (k': Ctx, t': Tree)
    requires n in Nodes(t)
    ensures Plug(k', t') == Plug(k, t) && t'.T? && t'.x == n
    decreases t
  {
    if n == t.x {
      k', t' := k, t;
    } else if n in Nodes(t.l) {
      k', t' := Find(Lf(t.c, t.x, t.r, k), t.l, n);
    } else {
      k', t' := Find(Rt(t.c, t.l, t.x, k), t.r, n);
    }
  }

  /** The only child of a node that has at most one. */
  ghost function Child(t: Tree): Tree
    requires t.T?
  {
    if t.l.Leaf? then t.r else t.l
  }

  // Taking out a node with at most one child.

  ghost predicate CanCut(m: Mem, elm: Node, child: Node?) {
    && elm in m.cells && (child != null ==> child in m.cells)
    && (m.cells[elm].parent != null ==> m.cells[elm].parent in m.cells)
  }

  ghost function Cut(m: Mem, elm: Node, child: Node?): Mem
    requires CanCut(m, elm, child)
  {
    Relinked(Adopted(m, child, m.cells[elm].parent), m.cells[elm].parent, elm, child)
  }

  lemma CutAt(m: Mem, k: Ctx, t: Tree)
    requires At(m, k, t) && t.T? && (t.l.Leaf? || t.r.Leaf?)
    ensures CanCut(m, t.x, Root(Child(t))) && At(Cut(m, t.x, Root(Child(t))), k, Child(t))
  {
    var c, p := Child(t), ParentOf(k);
    RootInNodes(c);
    assert p != null ==> p in CNodes(k);
    ColorIn(m, t.x, c);
    var m' := Cut(m, t.x, Root(c));
    RelinkCtx(m, m', k, t.x, Root(c));
    AdoptTree(m, m', t.x, p, c);
  }

  /** The writes that take out a node with at most one child. */
  method CutOut(h: Head, elm: Node, child: Node?) returns (parent: Node?, color: Color)
    requires h.Sync() && CanCut(h.mem, elm, child) && elm != child && elm.parent != elm
    modifies h`root, h`mem, h.mem.cells.Keys
    ensures h.Sync() && h.mem == Cut(old(h.mem), elm, child)
    ensures parent == old(elm.parent) && color == old(elm.color)
  {
    parent := elm.parent;
    color := elm.color;
    if child != null {
      h.SetParent(child, parent);
    }
    Relink(h, parent, elm, child);
  }

  lemma CutRules(k: Ctx, t: Tree)
    requires Repaired(k, t) && t.T? && (t.l.Leaf? || t.r.Leaf?)
    ensures t.c.Black? ==> Deficit(k, Child(t))
    ensures t.c.Red? ==> Repaired(k, Child(t))
  {
    assert Sub(Child(t));
  }

  // Putting another node in the place of a node.

  ghost predicate CanReplace(m: Mem, old_: Node, elm: Node) {
    && old_ in m.cells && elm in m.cells && elm != old_
    && (m.cells[old_].parent != null ==> m.cells[old_].parent in m.cells && m.cells[old_].parent !in {old_, elm})
    && (m.cells[old_].left != null && m.cells[old_].left in m.cells && m.cells[old_].left != old_)
    && (m.cells[old_].right != null ==> m.cells[old_].right in m.cells && m.cells[old_].right != old_)
  }

  ghost function Replaced(m: Mem, old_: Node, elm: Node): Mem
    requires CanReplace(m, old_, elm)
  {
    var cell := m.cells[old_];
    var m1 := Relinked(m.(cells := m.cells[elm := cell]), cell.parent, old_, elm);
    Adopted(m1.SetParent(cell.left, elm), cell.right, elm)
  }

  lemma ReplacedAt(m: Mem, k: Ctx, t: Tree, elm: Node)
    requires At(m, k, t) && t.T? && t.l.T? && elm in m.cells && elm !in CNodes(k) + Nodes(t)
    ensures CanReplace(m, t.x, elm) && At(Replaced(m, t.x, elm), k, T(t.c, t.l, elm, t.r))
    ensures Replaced(m, t.x, elm).cells.Keys == m.cells.Keys
  {
    RootInNodes(t.l);
    RootInNodes(t.r);
    assert ParentOf(k) != null ==> ParentOf(k) in CNodes(k);
    ColorIn(m, t.x, t.l);
    ColorIn(m, t.x, t.r);
    hide Apart, CApart, Nodes, CNodes, Plug;
    var m' := Replaced(m, t.x, elm);
    RelinkCtx(m, m', k, t.x, elm);
    AdoptTree(m, m', t.x, elm, t.l);
    AdoptTree(m, m', t.x, elm, t.r);
  }

  /** The writes that put the successor in the place of the node removed. */
  method Replace(h: Head, old_: Node, elm: Node)
    requires h.Sync() && CanReplace(h.mem, old_, elm)
    modifies h`root, h`mem, h.mem.cells.Keys
    ensures h.Sync() && h.mem == Replaced(old(h.mem), old_, elm)
  {
    h.CopyFields(elm, old_);
    Relink(h, old_.parent, old_, elm);
    h.SetParent(old_.left, elm);
    if old_.right != null {
      h.SetParent(old_.right, elm);
    }
  }

  // The removal itself.

  /** What is left in order when the root of the focus is taken out. */
  ghost function Rest(k: Ctx, t: Tree): seq<Node>
    requires t.T?
  {
    Pre(k) + InOrder(t.l) + InOrder(t.r) + Post(k)
  }

  lemma CutInOrder(k: Ctx, t: Tree)
    requires t.T? && (t.l.Leaf? || t.r.Leaf?)
    ensures InOrder(Plug(k, Child(t))) == Rest(k, t)
  {
    PlugInOrder(k, Child(t));
  }

  /** The first half of RB_REMOVE for a node with at most one child. */
  method CutNode(h: Head, elm: Node, child: Node?, ghost k: Ctx, ghost t: Tree)
    returns (parent: Node?, color: Color, ghost t': Tree)
    requires h.Sync() && At(h.mem, k, t) && t.T? && elm == t.x && (t.l.Leaf? || t.r.Leaf?) && child == Root(Child(t))
    modifies h`root, h`mem, h.mem.cells.Keys
    ensures h.Sync() && h.mem.cells.Keys == old(h.mem.cells.Keys) && h.mem.cells[elm] == old(h.mem).cells[elm]
    ensures t' == Child(t) && At(h.mem, k, t') && parent == ParentOf(k) && color == t.c
    ensures InOrder(Plug(k, t')) == Rest(k, t)
  {
    hide InOrder, Plug, Rest;
    CutAt(h.mem, k, t);
    CutInOrder(k, t);
    RootInNodes(Child(t));
    assert ParentOf(k) != null ==> ParentOf(k) in CNodes(k);
    parent, color := CutOut(h, elm, child);
    t' := Child(t);
  }

  /** The leftmost node of the right subtree: the successor. */
  method Successor(h: Head, old_: Node, ghost k: Ctx, ghost t: Tree) returns (elm: Node, ghost ci: Ctx, ghost s: Tree)
    requires h.Sync() && At(h.mem, k, t) && t.T? && t.r.T? && old_ == t.x
    ensures Plug(ci, s) == t.r && s.T? && s.l.Leaf? && s.x == elm && Pre(ci) == []
    ensures At(h.mem, Over(ci, Rt(t.c, t.l, t.x, k)), s)
  {
    ghost var kk := Rt(t.c, t.l, t.x, k);
    Lower(h.mem, kk, t.r);
    elm := old_.right;
    ci, s := Top, t.r;
    Here(h.mem, kk, s);
    while elm.left != null
      invariant Plug(ci, s) == t.r && s.T? && s.x == elm && Pre(ci) == []
      invariant At(h.mem, Over(ci, kk), s)
      invariant elm in h.mem.cells && elm.left == Root(s.l)
      decreases s
    {
      elm := elm.left;
      ci, s := Lf(s.c, s.x, s.r, ci), s.l;
      Lower(h.mem, Over(ci, kk), s);
      Here(h.mem, Over(ci, kk), s);
    }
  }

  lemma {:induction false} OverNodes(k: Ctx, kk: Ctx)
    ensures CNodes(Over(k, kk)) == CNodes(k) + CNodes(kk)
  {
    if !k.Top? { OverNodes(k.up, kk); }
  }

  lemma {:induction false} PlugOver(k: Ctx, kk: Ctx, t: Tree)
    ensures Plug(Over(k, kk), t) == Plug(kk, Plug(k, t))
    decreases k
  {
    match k
    case Top =>
    case Lf(c, x, r, up) => PlugOver(up, kk, T(c, t, x, r));
    case Rt(c, l, x, up) => PlugOver(up, kk, T(c, l, x, t));
  }

  /** The rules do not look at the nodes: another node may stand in a context. */
  lemma {:induction false} AcceptsOther(ci: Ctx, k: Ctx, c: Color, l: Tree, x: Node, y: Node, rc: Color, n: nat)
    requires Accepts(Over(ci, Rt(c, l, x, k)), rc, n)
    ensures Accepts(Over(ci, Rt(c, l, y, k)), rc, n)
    decreases ci
  {
    match ci
    case Top =>
    case Lf(pc, _, _, up) => AcceptsOther(up, k, c, l, x, y, pc, n + Weight(pc));
    case Rt(pc, _, _, up) => AcceptsOther(up, k, c, l, x, y, pc, n + Weight(pc));
  }

  lemma HeadOf(ci: Ctx, s: Tree)
    requires s.T? && s.l.Leaf? && Pre(ci) == []
    ensures InOrder(Plug(ci, s)) == [s.x] + InOrder(Plug(ci, s.r))
  {
    hide Plug, Pre, Post;
    PlugInOrder(ci, s.r);
    PlugInOrder(ci, s);
    assert InOrder(s) == [s.x] + InOrder(s.r);
  }

  lemma Regroup<X>(a: seq<X>, b: seq<X>, x: X, c: seq<X>, d: seq<X>)
    ensures a + (b + [x] + c) + d == a + b + ([x] + c) + d
  {
  }

  /** In order, the successor takes the place of the node removed. */
  lemma SuccessorInOrder(k: Ctx, t: Tree, ci: Ctx, s: Tree)
    requires t.T? && Plug(ci, s) == t.r && s.T? && s.l.Leaf? && Pre(ci) == []
    ensures InOrder(Plug(Over(ci, Rt(t.c, t.l, s.x, k)), s.r)) == Rest(k, t)
  {
    var r := Plug(ci, s.r);
    HeadOf(ci, s);
    PlugOver(ci, Rt(t.c, t.l, s.x, k), s.r);
    PlugInOrder(k, T(t.c, t.l, s.x, r));
    Regroup(Pre(k), InOrder(t.l), s.x, InOrder(r), Post(k));
  }

  lemma SuccessorRules(k: Ctx, t: Tree, ci: Ctx, s: Tree)
    requires t.T? && Plug(ci, s) == t.r && s.T? && s.l.Leaf? && Repaired(k, t)
    ensures var kk := Over(ci, Rt(t.c, t.l, s.x, k));
      && (s.c.Black? ==> Deficit(kk, s.r))
      && (s.c.Red? ==> Repaired(kk, s.r))
  {
    var kk := Rt(t.c, t.l, t.x, k);
    PlugRules(k, t);
    PlugOver(ci, kk, s);
    PlugRules(Over(ci, kk), s);
    CutRules(Over(ci, kk), s);
    if s.c.Black? {
      AcceptsOther(ci, k, t.c, t.l, t.x, s.x, Black, BlackHeight(s.r) + 1);
    } else {
      AcceptsOther(ci, k, t.c, t.l, t.x, s.x, RootColor(s.r), BlackHeight(s.r));
    }
  }

  lemma OutsideInner(ci: Ctx, kk: Ctx, s: Tree)
    requires s.T? && Apart(s) && CNodes(Over(ci, kk)) !! Nodes(s)
    ensures s.x !in CNodes(kk) && s.x !in Nodes(Plug(ci, s.r))
  {
    OverNodes(ci, kk);
    PlugNodes(ci, s.r);
    assert s.x in Nodes(s);
  }

  lemma InnerParent(ci: Ctx, kk: Ctx)
    requires !ci.Top? && !kk.Top? && CApart(Over(ci, kk))
    ensures ci.x != kk.x
  {
    OverNodes(ci.up, kk);
  }

  /** The first half of RB_REMOVE for a node with two children. */
  method CutSuccessor(h: Head, old_: Node, ghost k: Ctx, ghost t: Tree)
    returns (parent: Node?, child: Node?, color: Color, ghost k': Ctx, ghost t': Tree)
    requires h.Sync() && At(h.mem, k, t) && t.T? && t.l.T? && t.r.T? && old_ == t.x && Repaired(k, t)
    modifies h`root, h`mem, h.mem.cells.Keys
    ensures h.Sync() && h.mem.cells.Keys == old(h.mem.cells.Keys)
    ensures At(h.mem, k', t') && parent == ParentOf(k') && child == Root(t')
    ensures (color.Black? ==> Deficit(k', t')) && (color.Red? ==> Repaired(k', t'))
    ensures InOrder(Plug(k', t')) == Rest(k, t)
  {
    hide At, Deficit, Repaired, InOrder, Plug, Rest, Nodes, CNodes;
    var elm;
    ghost var ci, s;
    elm, ci, s := Successor(h, old_, k, t);
    ghost var kk := Rt(t.c, t.l, t.x, k);
    Here(h.mem, Over(ci, kk), s);
    OutsideInner(ci, kk, s);
    if !ci.Top? { InnerParent(ci, kk); }
    SuccessorRules(k, t, ci, s);
    SuccessorInOrder(k, t, ci, s);
    child := elm.right;
    parent, color, t' := CutNode(h, elm, child, Over(ci, kk), s);
    if elm.parent == old_ {
      parent := elm;
    }
    k' := Over(ci, Rt(t.c, t.l, elm, k));
    TakePlace(h, old_, elm, k, t, ci, t');
  }

  /** The second half: the successor, already unlinked, takes the place of the node removed. */
  method TakePlace(h: Head, old_: Node, elm: Node, ghost k: Ctx, ghost t: Tree, ghost ci: Ctx, ghost s: Tree)
    requires h.Sync() && t.T? && t.l.T? && old_ == t.x && At(h.mem, Over(ci, Rt(t.c, t.l, t.x, k)), s)
    requires elm in h.mem.cells && elm !in CNodes(Rt(t.c, t.l, t.x, k)) && elm !in Nodes(Plug(ci, s))
    modifies h`root, h`mem, h.mem.cells.Keys
    ensures h.Sync() && h.mem.cells.Keys == old(h.mem.cells.Keys)
    ensures At(h.mem, Over(ci, Rt(t.c, t.l, elm, k)), s)
  {
    ghost var r := Plug(ci, s);
    ghost var w := T(t.c, t.l, t.x, r);
    ZipOver(h.mem, ci, Rt(t.c, t.l, t.x, k), s);
    Raise(h.mem, Rt(t.c, t.l, t.x, k), r);
    ReplacedAt(h.mem, k, w, elm);
    Replace(h, old_, elm);
    Lower(h.mem, Rt(t.c, t.l, elm, k), r);
    UnzipOver(h.mem, ci, Rt(t.c, t.l, elm, k), s);
  }

  lemma RestAround(k: Ctx, t: Tree)
    requires t.T?
    ensures Rest(k, t) == Before(k, t) + After(k, t)
  {
  }

  lemma Extract(a: seq<Node>, x: Node, b: seq<Node>)
    requires x !in a && x !in b
    ensures RbInsert.Added(a + b, a + [x] + b, x)
    ensures (set y | y in a + b) == (set y | y in a + [x] + b) - {x}
  {
    assert (a + b)[..|a|] == a && (a + b)[|a|..] == b;
  }

  lemma SortedWithout(a: seq<Node>, x: Node, b: seq<Node>)
    requires Sorted(a + [x] + b)
    ensures Sorted(a + b)
  {
    var s, u := a + [x] + b, a + b;
    forall i, j | 0 <= i < j < |u| ensures u[i].key < u[j].key {
      assert u[i] == s[if i < |a| then i else i + 1] && u[j] == s[if j < |a| then j else j + 1];
    }
  }

  lemma {:induction false} InCtx(k: Ctx)
    ensures (forall x <- Pre(k) :: x in CNodes(k)) && forall x <- Post(k) :: x in CNodes(k)
  {
    match k
    case Top =>
    case Lf(_, _, r, up) => InCtx(up); InOrderNodes(r);
    case Rt(_, l, _, up) => InCtx(up); InOrderNodes(l);
  }

  /** A node occurs once in the in-order sequence. */
  lemma Once(m: Mem, k: Ctx, t: Tree)
    requires At(m, k, t) && t.T?
    ensures t.x !in Before(k, t) && t.x !in After(k, t)
  {
    InCtx(k);
    InOrderNodes(t.l);
    InOrderNodes(t.r);
    assert t.x in Nodes(t) && t.x !in CNodes(k);
  }

  lemma RestRemoved(m: Mem, k: Ctx, t: Tree)
    requires At(m, k, t) && t.T?
    ensures RbInsert.Added(Rest(k, t), InOrder(Plug(k, t)), t.x)
    ensures Sorted(InOrder(Plug(k, t))) ==> Sorted(Rest(k, t))
  {
    Around(k, t);
    RestAround(k, t);
    Once(m, k, t);
    Extract(Before(k, t), t.x, After(k, t));
    if Sorted(InOrder(Plug(k, t))) { SortedWithout(Before(k, t), t.x, After(k, t)); }
  }

  lemma RestNodes(m: Mem, w: Tree, k: Ctx, t: Tree)
    requires At(m, k, t) && t.T? && InOrder(w) == Rest(k, t)
    ensures Nodes(w) == Nodes(Plug(k, t)) - {t.x}
  {
    InOrderNodes(w);
    InOrderNodes(Plug(k, t));
    Around(k, t);
    RestAround(k, t);
    Once(m, k, t);
    Extract(Before(k, t), t.x, After(k, t));
  }

  /** The three ways in which RB_REMOVE takes a node out: no left child, no right child, or its successor in its
    place. */
  method Splice(h: Head, elm: Node, ghost k: Ctx, ghost t: Tree)
    returns (parent: Node?, child: Node?, color: Color, ghost k': Ctx, ghost t': Tree)
    requires h.Sync() && At(h.mem, k, t) && t.T? && elm == t.x && Repaired(k, t)
    modifies h`root, h`mem, h.mem.cells.Keys
    ensures h.Sync() && h.mem.cells.Keys == old(h.mem.cells.Keys)
    ensures At(h.mem, k', t') && parent == ParentOf(k') && child == Root(t')
    ensures (color.Black? ==> Deficit(k', t')) && (color.Red? ==> Repaired(k', t'))
    ensures InOrder(Plug(k', t')) == Rest(k, t)
  {
    hide InOrder, Rest, Plug, Deficit, Repaired;
    k', t' := k, t;
    Here(h.mem, k, t);
    if elm.left == null {
      child := elm.right;
      CutRules(k, t);
      parent, color, t' := CutNode(h, elm, child, k, t);
    } else if elm.right == null {
      child := elm.left;
      CutRules(k, t);
      parent, color, t' := CutNode(h, elm, child, k, t);
    } else {
      parent, child, color, k', t' := CutSuccessor(h, elm, k, t);
    }
  }

  /** RB_REMOVE up to the colours, then RB_REMOVE_COLOR if a black node went. */
  method Excise(h: Head, elm: Node, ghost k: Ctx, ghost t: Tree)
    requires h.Sync() && At(h.mem, k, t) && t.T? && elm == t.x && Repaired(k, t)
    modifies h, h.mem.cells.Keys
    ensures h.Sync() && h.mem.cells.Keys == old(h.mem.cells.Keys) && At(h.mem, Top, h.shape)
    ensures Sub(h.shape) && RootColor(h.shape).Black? && InOrder(h.shape) == Rest(k, t)
  {
    hide InOrder, Rest, Deficit;
    var child: Node?, parent: Node?, color: Color;
    ghost var k', t';
    parent, child, color, k', t' := Splice(h, elm, k, t);
    if color == Black {
      RemoveColor(h, parent, child, k', t');
    } else {
      PlugRules(k', t');
      Zip(h.mem, k', t');
      h.shape := Plug(k', t');
    }
  }

  /** RB_REMOVE: removes exactly the given node and keeps the colour rules and the order of the others. */
  method Remove(h: Head, elm: Node) returns (old_: Node)
    requires h.Valid() && Colored(h.shape) && elm in Nodes(h.shape)
    modifies h, Nodes(h.shape)
    ensures h.Valid() && Colored(h.shape) && old_ == elm
    ensures old(RedBlack(h.shape)) ==> RedBlack(h.shape)
    ensures RbInsert.Added(InOrder(h.shape), old(InOrder(h.shape)), elm)
    ensures Nodes(h.shape) == old(Nodes(h.shape)) - {elm}
  {
    old_ := elm;
    ghost var k, t := Find(Top, h.shape, elm);
    Unzip(h.mem, k, t);
    PlugRules(k, t);
    RestRemoved(h.mem, k, t);
    ghost var m0 := h.mem;
    Excise(h, elm, k, t);
    RestNodes(m0, h.shape, k, t);
    ghost var m := h.mem;
    h.Forget(elm);
    KeepTree(m, h.mem, null, h.shape);
  }
}
