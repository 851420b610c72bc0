/** Red-black tree nodes, and the ghost values that describe a heap of them.

  `Mem` is a copy of the pointer and colour fields of a set of nodes; `Match` says that the heap agrees
  with it. A focus on one place of a tree is a pair (k, t): `t` is the subtree at that place and `k`
  is the context, the path from that place up to the root with the subtrees hanging off the path.
  `At` says that a memory holds exactly the tree `Plug(k, t)`: child, parent and colour fields. */
module RbNodes {
  import opened Sequences

  datatype Color = Red | Black

  class Node {
    const key: int
    var left: Node?
    var right: Node?
    var parent: Node?
    var color: Color

    constructor (key: int)
      ensures this.key == key
    {
      this.key := key;
      left, right, parent, color := null, null, null, Red;
    }
  }

  /** The head of a tree. `mem` is kept equal to the fields of the nodes by the writes below; `shape` is
    the tree they form. */
  class Head {
    var root: Node?
    ghost var shape: Tree
    ghost var mem: Mem

    constructor ()
      ensures shape == Leaf && Valid()
    {
      root, shape, mem := null, Leaf, Mem(null, map[]);
    }

    /** The heap agrees with `mem`. */
    ghost predicate Sync()
      reads this, mem.cells.Keys
    {
      && root == mem.root
      && forall x <- mem.cells.Keys :: mem.cells[x] == Cell(x.left, x.right, x.parent, x.color)
    }

    /** The heap holds exactly the tree `shape`. */
    ghost predicate Valid()
      reads this, mem.cells.Keys
    {
      Sync() && At(mem, Top, shape) && mem.cells.Keys == Nodes(shape)
    }

    method SetRoot(v: Node?)
      requires Sync()
      modifies this`mem, this`root
      ensures Sync() && mem == old(mem).SetRoot(v)
    {
      root := v;
      mem := mem.SetRoot(v);
    }

    /** RB_SET: a node about to join the tree is a red leaf below `parent`. */
    method SetNew(elm: Node, parent: Node?)
      requires Sync() && elm !in mem.cells
      modifies this`mem, elm
      ensures Sync() && mem == old(mem).(cells := old(mem).cells[elm := Cell(null, null, parent, Red)])
    {
      elm.parent := parent;
      elm.left, elm.right := null, null;
      elm.color := Red;
      mem := mem.(cells := mem.cells[elm := Cell(null, null, parent, Red)]);
    }

    /** The structure copy of RB_REMOVE: `n` takes over all the fields of `from`. */
    method CopyFields(n: Node, from: Node)
      requires Sync() && n in mem.cells && from in mem.cells
      modifies this`mem, n
      ensures Sync() && mem == old(mem).(cells := old(mem).cells[n := old(mem).cells[from]])
    {
      n.left, n.right, n.parent, n.color := from.left, from.right, from.parent, from.color;
      mem := mem.(cells := mem.cells[n := mem.cells[from]]);
    }

    /** A node that has left the tree is no longer followed. */
    ghost method Forget(n: Node)
      requires Sync()
      modifies this`mem
      ensures Sync() && mem == old(mem).(cells := old(mem).cells - {n})
    {
      mem := mem.(cells := mem.cells - {n});
    }

    method SetLeft(n: Node, v: Node?)
      requires Sync() && n in mem.cells
      modifies this`mem, n`left
      ensures Sync() && mem == old(mem).SetLeft(n, v)
    {
      n.left := v;
      mem := mem.SetLeft(n, v);
    }

    method SetRight(n: Node, v: Node?)
      requires Sync() && n in mem.cells
      modifies this`mem, n`right
      ensures Sync() && mem == old(mem).SetRight(n, v)
    {
      n.right := v;
      mem := mem.SetRight(n, v);
    }

    method SetParent(n: Node, v: Node?)
      requires Sync() && n in mem.cells
      modifies this`mem, n`parent
      ensures Sync() && mem == old(mem).SetParent(n, v)
    {
      n.parent := v;
      mem := mem.SetParent(n, v);
    }

    method SetColor(n: Node, v: Color)
      requires Sync() && n in mem.cells
      modifies this`mem, n`color
      ensures Sync() && mem == old(mem).SetColor(n, v)
    {
      n.color := v;
      mem := mem.SetColor(n, v);
    }
  }

  datatype Cell = Cell(left: Node?, right: Node?, parent: Node?, color: Color)

  datatype Mem = Mem(root: Node?, cells: map<Node, Cell>) {
    ghost predicate Has(n: Node?) { n != null && n in cells }

    ghost function SetRoot(v: Node?): Mem { this.(root := v) }
    ghost function SetLeft(n: Node, v: Node?): Mem requires n in cells { this.(cells := cells[n := cells[n].(left := v)]) }
    ghost function SetRight(n: Node, v: Node?): Mem requires n in cells { this.(cells := cells[n := cells[n].(right := v)]) }
    ghost function SetParent(n: Node, v: Node?): Mem requires n in cells { this.(cells := cells[n := cells[n].(parent := v)]) }
    ghost function SetColor(n: Node, v: Color): Mem requires n in cells { this.(cells := cells[n := cells[n].(color := v)]) }
  }

  datatype Tree = Leaf | T(c: Color, l: Tree, x: Node, r: Tree)

  /** `Lf`: the hole is the left subtree of `x`. `Rt`: the hole is the right subtree of `x`. */
  datatype Ctx = Top | Lf(c: Color, x: Node, r: Tree, up: Ctx) | Rt(c: Color, l: Tree, x: Node, up: Ctx)

  ghost function Root(t: Tree): Node? {
    if t.Leaf? then null else t.x
  }

  ghost function ParentOf(k: Ctx): Node? {
    if k.Top? then null else k.x
  }

  ghost function Nodes(t: Tree): set<Node> {
    match t
    case Leaf => {}
    case T(_, l, x, r) => {x} + Nodes(l) + Nodes(r)
  }

  ghost function CNodes(k: Ctx): set<Node> {
    match k
    case Top => {}
    case Lf(_, x, r, up) => {x} + Nodes(r) + CNodes(up)
    case Rt(_, l, x, up) => {x} + Nodes(l) + CNodes(up)
  }

  ghost function Plug(k: Ctx, t: Tree): Tree {
    match k
    case Top => t
    case Lf(c, x, r, up) => Plug(up, T(c, t, x, r))
    case Rt(c, l, x, up) => Plug(up, T(c, l, x, t))
  }

  ghost function InOrder(t: Tree): seq<Node> {
    match t
    case Leaf => []
    case T(_, l, x, r) => InOrder(l) + [x] + InOrder(r)
  }

  /** The in-order nodes of a context before its hole. */
  ghost function Pre(k: Ctx): seq<Node> {
    match k
    case Top => []
    case Lf(_, _, _, up) => Pre(up)
    case Rt(_, l, x, up) => Pre(up) + (InOrder(l) + [x])
  }

  /** The in-order nodes of a context after its hole. */
  ghost function Post(k: Ctx): seq<Node> {
    match k
    case Top => []
    case Lf(_, x, r, up) => ([x] + InOrder(r)) + Post(up)
    case Rt(_, _, _, up) => Post(up)
  }

  // No node occurs twice.

  ghost predicate Apart(t: Tree) {
    match t
    case Leaf => true
    case T(_, l, x, r) =>
      x !in Nodes(l) && x !in Nodes(r) && Nodes(l) !! Nodes(r) && Apart(l) && Apart(r)
  }

  ghost predicate CApart(k: Ctx) {
    match k
    case Top => true
    case Lf(_, x, r, up) =>
      x !in Nodes(r) && x !in CNodes(up) && Nodes(r) !! CNodes(up) && Apart(r) && CApart(up)
    case Rt(_, l, x, up) =>
      x !in Nodes(l) && x !in CNodes(up) && Nodes(l) !! CNodes(up) && Apart(l) && CApart(up)
  }

  // The memory agrees with a shape.

  ghost predicate IsTree(m: Mem, p: Node?, t: Tree)
    decreases t
  {
    match t
    case Leaf => true
    case T(c, l, x, r) =>
      x in m.cells && m.cells[x] == Cell(Root(l), Root(r), p, c) && IsTree(m, x, l) && IsTree(m, x, r)
  }

  ghost predicate IsCtx(m: Mem, k: Ctx, n: Node?)
    decreases k
  {
    match k
    case Top => m.root == n
    case Lf(c, x, r, up) =>
      x in m.cells && m.cells[x] == Cell(n, Root(r), ParentOf(up), c) && IsTree(m, x, r) && IsCtx(m, up, x)
    case Rt(c, l, x, up) =>
      x in m.cells && m.cells[x] == Cell(Root(l), n, ParentOf(up), c) && IsTree(m, x, l) && IsCtx(m, up, x)
  }

  ghost predicate At(m: Mem, k: Ctx, t: Tree) {
    && IsCtx(m, k, Root(t)) && IsTree(m, ParentOf(k), t)
    && CApart(k) && Apart(t) && CNodes(k) !! Nodes(t)
  }

  // What writes outside a shape leave alone.

  ghost predicate Agree(m: Mem, m': Mem, s: set<Node>) {
    forall x <- s :: x in m.cells ==> x in m'.cells && m'.cells[x] == m.cells[x]
  }

  lemma {:induction false} KeepTree(m: Mem, m': Mem, p: Node?, t: Tree)
    requires IsTree(m, p, t)
    requires Agree(m, m', Nodes(t))
    ensures IsTree(m', p, t)
    decreases t
  {
    if t.T? { KeepTree(m, m', t.x, t.l); KeepTree(m, m', t.x, t.r); }
  }

  lemma {:induction false} KeepCtx(m: Mem, m': Mem, k: Ctx, n: Node?)
    requires IsCtx(m, k, n) && m'.root == m.root
    requires Agree(m, m', CNodes(k))
    ensures IsCtx(m', k, n)
  {
    match k
    case Top =>
    case Lf(_, x, r, up) => KeepTree(m, m', x, r); KeepCtx(m, m', up, x);
    case Rt(_, l, x, up) => KeepTree(m, m', x, l); KeepCtx(m, m', up, x);
  }

  lemma {:induction false} TreeInMem(m: Mem, p: Node?, t: Tree)
    requires IsTree(m, p, t)
    ensures Nodes(t) <= m.cells.Keys
    decreases t
  {
    if t.T? { TreeInMem(m, t.x, t.l); TreeInMem(m, t.x, t.r); }
  }

  lemma {:induction false} CtxInMem(m: Mem, k: Ctx, n: Node?)
    requires IsCtx(m, k, n)
    ensures CNodes(k) <= m.cells.Keys
  {
    match k
    case Top =>
    case Lf(_, x, r, up) => TreeInMem(m, x, r); CtxInMem(m, up, x);
    case Rt(_, l, x, up) => TreeInMem(m, x, l); CtxInMem(m, up, x);
  }

  lemma {:induction false} PlugNodes(k: Ctx, t: Tree)
    ensures Nodes(Plug(k, t)) == CNodes(k) + Nodes(t)
  {
    match k
    case Top =>
    case Lf(c, x, r, up) => PlugNodes(up, T(c, t, x, r));
    case Rt(c, l, x, up) => PlugNodes(up, T(c, l, x, t));
  }

  lemma {:induction false} PlugInOrder(k: Ctx, t: Tree)
    ensures InOrder(Plug(k, t)) == Pre(k) + InOrder(t) + Post(k)
  {
    match k
    case Top =>
    case Lf(c, x, r, up) =>
      PlugInOrder(up, T(c, t, x, r));
      Assoc(Pre(up), InOrder(t), [x] + InOrder(r));
      Assoc(Pre(up) + InOrder(t), [x] + InOrder(r), Post(up));
      assert InOrder(t) + ([x] + InOrder(r)) == InOrder(T(c, t, x, r));
    case Rt(c, l, x, up) =>
      PlugInOrder(up, T(c, l, x, t));
      Assoc(Pre(up), InOrder(l) + [x], InOrder(t));
  }

  // The in-order nodes around the root of the focus.

  ghost function Before(k: Ctx, t: Tree): seq<Node> requires t.T? { Pre(k) + InOrder(t.l) }
  ghost function After(k: Ctx, t: Tree): seq<Node> requires t.T? { InOrder(t.r) + Post(k) }

  lemma Around(k: Ctx, t: Tree)
    requires t.T?
    ensures InOrder(Plug(k, t)) == Before(k, t) + [t.x] + After(k, t)
  {
    PlugInOrder(k, t);
  }

  lemma {:induction false} InOrderNodes(t: Tree)
    ensures Nodes(t) == set x | x in InOrder(t)
  {
    match t
    case Leaf =>
    case T(_, l, x, r) => InOrderNodes(l); InOrderNodes(r);
  }

  /** The context `k` with the context `kk` around it. */
  ghost function Over(k: Ctx, kk: Ctx): Ctx {
    match k
    case Top => kk
    case Lf(c, x, r, up) => Lf(c, x, r, Over(up, kk))
    case Rt(c, l, x, up) => Rt(c, l, x, Over(up, kk))
  }

  lemma {:induction false} OverTop(k: Ctx)
    ensures Over(k, Top) == k
  {
    if !k.Top? { OverTop(k.up); }
  }

  /** A focus climbs through an inner context. */
  lemma {:induction false} ZipOver(m: Mem, k: Ctx, kk: Ctx, t: Tree)
    requires At(m, Over(k, kk), t)
    ensures At(m, kk, Plug(k, t))
    decreases k
  {
    match k
    case Top =>
    case Lf(c, x, r, up) => ZipOver(m, up, kk, T(c, t, x, r));
    case Rt(c, l, x, up) => ZipOver(m, up, kk, T(c, l, x, t));
  }

  /** And it descends again. */
  lemma {:induction false} UnzipOver(m: Mem, k: Ctx, kk: Ctx, t: Tree)
    requires At(m, kk, Plug(k, t))
    ensures At(m, Over(k, kk), t)
    decreases k
  {
    match k
    case Top =>
    case Lf(c, x, r, up) => UnzipOver(m, up, kk, T(c, t, x, r));
    case Rt(c, l, x, up) => UnzipOver(m, up, kk, T(c, l, x, t));
  }

  /** A focus climbs to the root: the memory holds the whole plugged tree. */
  lemma Zip(m: Mem, k: Ctx, t: Tree)
    requires At(m, k, t)
    ensures At(m, Top, Plug(k, t))
  {
    OverTop(k);
    ZipOver(m, k, Top, t);
  }

  lemma Unzip(m: Mem, k: Ctx, t: Tree)
    requires At(m, Top, Plug(k, t))
    ensures At(m, k, t)
  {
    OverTop(k);
    UnzipOver(m, k, Top, t);
  }

  /** One step up from a focus. */
  ghost function Fill(k: Ctx, t: Tree): Tree
    requires !k.Top?
  {
    if k.Lf? then T(k.c, t, k.x, k.r) else T(k.c, k.l, k.x, t)
  }

  lemma Raise(m: Mem, k: Ctx, t: Tree)
    requires At(m, k, t) && !k.Top?
    ensures At(m, k.up, Fill(k, t))
  {
  }

  lemma Lower(m: Mem, k: Ctx, t: Tree)
    requires !k.Top? && At(m, k.up, Fill(k, t))
    ensures At(m, k, t)
  {
  }

  /** Painting the root of the subtree in focus. */
  lemma Repaint(m: Mem, k: Ctx, t: Tree, c: Color)
    requires At(m, k, t) && t.T?
    ensures t.x in m.cells && At(m.SetColor(t.x, c), k, T(c, t.l, t.x, t.r))
  {
    var m' := m.SetColor(t.x, c);
    KeepCtx(m, m', k, t.x);
    KeepTree(m, m', t.x, t.l);
    KeepTree(m, m', t.x, t.r);
  }

  /** Painting a child of the subtree in focus. */
  lemma RepaintLeft(m: Mem, k: Ctx, t: Tree, c: Color)
    requires At(m, k, t) && t.T? && t.l.T?
    ensures t.l.x in m.cells && At(m.SetColor(t.l.x, c), k, T(t.c, T(c, t.l.l, t.l.x, t.l.r), t.x, t.r))
  {
    var k1 := Lf(t.c, t.x, t.r, k);
    Lower(m, k1, t.l);
    Repaint(m, k1, t.l, c);
    Raise(m.SetColor(t.l.x, c), k1, T(c, t.l.l, t.l.x, t.l.r));
  }

  lemma RepaintRight(m: Mem, k: Ctx, t: Tree, c: Color)
    requires At(m, k, t) && t.T? && t.r.T?
    ensures t.r.x in m.cells && At(m.SetColor(t.r.x, c), k, T(t.c, t.l, t.x, T(c, t.r.l, t.r.x, t.r.r)))
  {
    var k1 := Rt(t.c, t.l, t.x, k);
    Lower(m, k1, t.r);
    Repaint(m, k1, t.r, c);
    Raise(m.SetColor(t.r.x, c), k1, T(c, t.r.l, t.r.x, t.r.r));
  }

  /** Painting an outer grandchild of the subtree in focus. */
  lemma RepaintRightRight(m: Mem, k: Ctx, t: Tree, c: Color)
    requires At(m, k, t) && t.T? && t.r.T? && t.r.r.T?
    ensures t.r.r.x in m.cells
    ensures At(m.SetColor(t.r.r.x, c), k, T(t.c, t.l, t.x, T(t.r.c, t.r.l, t.r.x, T(c, t.r.r.l, t.r.r.x, t.r.r.r))))
  {
    var k1 := Rt(t.c, t.l, t.x, k);
    Lower(m, k1, t.r);
    RepaintRight(m, k1, t.r, c);
    Raise(m.SetColor(t.r.r.x, c), k1, T(t.r.c, t.r.l, t.r.x, T(c, t.r.r.l, t.r.r.x, t.r.r.r)));
  }

  lemma RepaintLeftLeft(m: Mem, k: Ctx, t: Tree, c: Color)
    requires At(m, k, t) && t.T? && t.l.T? && t.l.l.T?
    ensures t.l.l.x in m.cells
    ensures At(m.SetColor(t.l.l.x, c), k, T(t.c, T(t.l.c, T(c, t.l.l.l, t.l.l.x, t.l.l.r), t.l.x, t.l.r), t.x, t.r))
  {
    var k1 := Lf(t.c, t.x, t.r, k);
    Lower(m, k1, t.l);
    RepaintLeft(m, k1, t.l, c);
    Raise(m.SetColor(t.l.l.x, c), k1, T(t.l.c, T(c, t.l.l.l, t.l.l.x, t.l.l.r), t.l.x, t.l.r));
  }

  /** Replacing the subtree in focus by one with the same in-order nodes changes no in-order sequence. */
  lemma SwapInOrder(k: Ctx, t: Tree, t': Tree)
    requires InOrder(t) == InOrder(t')
    ensures InOrder(Plug(k, t)) == InOrder(Plug(k, t'))
  {
    PlugInOrder(k, t);
    PlugInOrder(k, t');
  }

  lemma SameNodes(t: Tree, t': Tree)
    requires InOrder(t) == InOrder(t')
    ensures Nodes(t) == Nodes(t')
  {
    InOrderNodes(t);
    InOrderNodes(t');
  }

  /** The root of a context that is not empty lies in the context. */
  lemma {:induction false} RootInCtx(m: Mem, k: Ctx, n: Node?)
    requires IsCtx(m, k, n) && !k.Top?
    ensures m.root != null && m.root in CNodes(k)
  {
    if !k.up.Top? { RootInCtx(m, k.up, k.x); }
  }

  /** What the node at the focus holds. */
  lemma Here(m: Mem, k: Ctx, t: Tree)
    requires At(m, k, t) && t.T?
    ensures t.x in m.cells && m.cells[t.x] == Cell(Root(t.l), Root(t.r), ParentOf(k), t.c)
  {
  }
}
