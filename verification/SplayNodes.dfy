/** Splay-tree entries, and the ghost values that describe a heap of them.

  During a splay the tree is in three parts: the tree in the middle, whose root is the root pointer, and
  two spines of nodes already passed, hanging off a sentinel. A `Spine` is the list of such nodes, the
  last one linked on top, each with the subtree on its far side. */
module SplayNodes {

  class Entry {
    const addr: int
    const size: int
    var left: Entry?
    var right: Entry?

    constructor (addr: int, size: int)
      ensures this.addr == addr && this.size == size && left == null && right == null
    {
      this.addr, this.size := addr, size;
      left, right := null, null;
    }
  }

  datatype Cell = Cell(left: Entry?, right: Entry?)

  datatype Mem = Mem(root: Entry?, cells: map<Entry, Cell>) {
    ghost function SetRoot(v: Entry?): Mem { this.(root := v) }
    ghost function SetLeft(n: Entry, v: Entry?): Mem requires n in cells { this.(cells := cells[n := cells[n].(left := v)]) }
    ghost function SetRight(n: Entry, v: Entry?): Mem requires n in cells { this.(cells := cells[n := cells[n].(right := v)]) }
  }

  datatype Tree = Leaf | T(l: Tree, x: Entry, r: Tree)

  datatype Spine = Nil | Link(init: Spine, side: Tree, x: Entry)

  /** The head of a tree. `mem` is kept equal to the fields of the entries by the writes below; `shape` is
    the tree they form. */
  class Head {
    var root: Entry?
    ghost var shape: Tree
    ghost var mem: Mem

    constructor ()
      ensures shape == Leaf && Valid()
    {
      root, shape, mem := null, Leaf, Mem(null, map[]);
    }

    ghost predicate Sync()
      reads this, mem.cells.Keys
    {
      && root == mem.root
      && forall x <- mem.cells.Keys :: mem.cells[x] == Cell(x.left, x.right)
    }

    /** The heap holds the tree `shape`, perhaps among other entries. */
    ghost predicate Holds()
      reads this, mem.cells.Keys
    {
      Sync() && root == Root(shape) && IsTree(mem, shape) && Apart(shape)
    }

    /** The heap holds exactly the tree `shape`. */
    ghost predicate Valid()
      reads this, mem.cells.Keys
    {
      Holds() && mem.cells.Keys == Nodes(shape)
    }

    method SetRoot(v: Entry?)
      requires Sync()
      modifies this`mem, this`root
      ensures Sync() && mem == old(mem).SetRoot(v)
    {
      root := v;
      mem := mem.SetRoot(v);
    }

    method SetLeft(n: Entry, v: Entry?)
      requires Sync() && n in mem.cells
      modifies this`mem, n`left
      ensures Sync() && mem == old(mem).SetLeft(n, v)
    {
      n.left := v;
      mem := mem.SetLeft(n, v);
    }

    method SetRight(n: Entry, v: Entry?)
      requires Sync() && n in mem.cells
      modifies this`mem, n`right
      ensures Sync() && mem == old(mem).SetRight(n, v)
    {
      n.right := v;
      mem := mem.SetRight(n, v);
    }

    /** Starts to follow an entry. */
    ghost method Follow(n: Entry)
      requires Sync()
      modifies this`mem
      ensures Sync() && mem == old(mem).(cells := old(mem).cells[n := Cell(n.left, n.right)])
    {
      mem := mem.(cells := mem.cells[n := Cell(n.left, n.right)]);
    }

    /** Stops following an entry. */
    ghost method Forget(n: Entry)
      requires Sync()
      modifies this`mem
      ensures Sync() && mem == old(mem).(cells := old(mem).cells - {n})
    {
      mem := mem.(cells := mem.cells - {n});
    }
  }

  ghost function Root(t: Tree): Entry? {
    if t.Leaf? then null else t.x
  }

  ghost function Nodes(t: Tree): set<Entry> {
    match t
    case Leaf => {}
    case T(l, x, r) => {x} + Nodes(l) + Nodes(r)
  }

  ghost function InOrder(t: Tree): seq<Entry> {
    match t
    case Leaf => []
    case T(l, x, r) => InOrder(l) + [x] + InOrder(r)
  }

  ghost predicate Apart(t: Tree) {
    match t
    case Leaf => true
    case T(l, x, r) =>
      x !in Nodes(l) && x !in Nodes(r) && Nodes(l) !! Nodes(r) && Apart(l) && Apart(r)
  }

  ghost predicate IsTree(m: Mem, t: Tree)
    decreases t
  {
    match t
    case Leaf => true
    case T(l, x, r) =>
      x in m.cells && m.cells[x] == Cell(Root(l), Root(r)) && IsTree(m, l) && IsTree(m, r)
  }

  // Spines. A left spine grows along right pointers and a right spine along left pointers; `left` says
  // which one is meant.

  ghost function SNodes(s: Spine): set<Entry> {
    match s
    case Nil => {}
    case Link(init, side, x) => SNodes(init) + Nodes(side) + {x}
  }

  ghost predicate SApart(s: Spine) {
    match s
    case Nil => true
    case Link(init, side, x) =>
      && x !in Nodes(side) && x !in SNodes(init) && Nodes(side) !! SNodes(init)
      && Apart(side) && SApart(init)
  }

  /** The node to which the next one will be linked. */
  ghost function Last(s: Spine, node: Entry): Entry {
    if s.Nil? then node else s.x
  }

  ghost function Near(c: Cell, left: bool): Entry? { if left then c.left else c.right }
  ghost function Far(c: Cell, left: bool): Entry? { if left then c.right else c.left }

  /** The memory holds a spine, up to the open pointer of its last node. */
  ghost predicate IsSpine(m: Mem, s: Spine, node: Entry, left: bool)
    decreases s
  {
    match s
    case Nil => true
    case Link(init, side, x) =>
      && x in m.cells && Near(m.cells[x], left) == Root(side) && IsTree(m, side)
      && Last(init, node) in m.cells && Far(m.cells[Last(init, node)], left) == x
      && IsSpine(m, init, node, left)
  }

  ghost function LeftOrder(s: Spine): seq<Entry> {
    match s
    case Nil => []
    case Link(init, side, x) => LeftOrder(init) + (InOrder(side) + [x])
  }

  ghost function RightOrder(s: Spine): seq<Entry> {
    match s
    case Nil => []
    case Link(init, side, x) => ([x] + InOrder(side)) + RightOrder(init)
  }

  /** The spine closed with a tree on its open pointer. */
  ghost function Close(s: Spine, t: Tree, left: bool): Tree {
    match s
    case Nil => t
    case Link(init, side, x) => Close(init, if left then T(side, x, t) else T(t, x, side), left)
  }

  // What writes outside a shape leave alone.

  ghost predicate Agree(m: Mem, m': Mem, s: set<Entry>) {
    forall x <- s :: x in m.cells ==> x in m'.cells && m'.cells[x] == m.cells[x]
  }

  lemma {:induction false} KeepTree(m: Mem, m': Mem, t: Tree)
    requires IsTree(m, t) && Agree(m, m', Nodes(t))
    ensures IsTree(m', t)
  {
    if t.T? { KeepTree(m, m', t.l); KeepTree(m, m', t.r); }
  }

  /** A spine survives writes that leave its nodes alone, except for the open pointer. */
  lemma {:induction false} KeepSpine(m: Mem, m': Mem, s: Spine, node: Entry, left: bool)
    requires IsSpine(m, s, node, left) && SApart(s) && node !in SNodes(s)
    requires Agree(m, m', SNodes(s) - {Last(s, node)})
    requires s.Link? ==> s.x in m'.cells && Near(m'.cells[s.x], left) == Near(m.cells[s.x], left)
    requires s.Link? ==> node in m.cells && node in m'.cells && Far(m'.cells[node], left) == Far(m.cells[node], left)
    ensures IsSpine(m', s, node, left)
  {
    if s.Link? {
      KeepTree(m, m', s.side);
      KeepSpine(m, m', s.init, node, left);
    }
  }

  lemma {:induction false} TreeInMem(m: Mem, t: Tree)
    requires IsTree(m, t)
    ensures Nodes(t) <= m.cells.Keys
  {
    if t.T? { TreeInMem(m, t.l); TreeInMem(m, t.r); }
  }

  lemma RootInNodes(t: Tree)
    ensures Root(t) != null ==> Root(t) in Nodes(t)
  {
  }

  lemma {:induction false} InOrderNodes(t: Tree)
    ensures Nodes(t) == set x | x in InOrder(t)
  {
    match t
    case Leaf =>
    case T(l, x, r) => InOrderNodes(l); InOrderNodes(r);
  }

  lemma {:induction false} CloseNodes(s: Spine, t: Tree, left: bool)
    ensures Nodes(Close(s, t, left)) == SNodes(s) + Nodes(t)
    decreases s
  {
    if s.Link? { CloseNodes(s.init, if left then T(s.side, s.x, t) else T(t, s.x, s.side), left); }
  }

  lemma {:induction false} CloseLeftOrder(s: Spine, t: Tree)
    ensures InOrder(Close(s, t, true)) == LeftOrder(s) + InOrder(t)
    decreases s
  {
    if s.Link? {
      CloseLeftOrder(s.init, T(s.side, s.x, t));
      assert LeftOrder(s.init) + (InOrder(s.side) + [s.x] + InOrder(t)) == LeftOrder(s.init) + (InOrder(s.side) + [s.x]) + InOrder(t);
    }
  }

  lemma {:induction false} CloseRightOrder(s: Spine, t: Tree)
    ensures InOrder(Close(s, t, false)) == InOrder(t) + RightOrder(s)
    decreases s
  {
    if s.Link? {
      CloseRightOrder(s.init, T(t, s.x, s.side));
      assert InOrder(t) + [s.x] + InOrder(s.side) + RightOrder(s.init) == InOrder(t) + (([s.x] + InOrder(s.side)) + RightOrder(s.init));
    }
  }

  /** Closing the open pointer of a spine turns it into a tree below the sentinel. */
  lemma {:induction false} CloseTree(m: Mem, s: Spine, t: Tree, node: Entry, left: bool)
    requires IsSpine(m, s, node, left) && IsTree(m, t) && SApart(s) && Apart(t) && SNodes(s) !! Nodes(t)
    requires node in m.cells && Last(s, node) in m.cells && Far(m.cells[Last(s, node)], left) == Root(t)
    ensures IsTree(m, Close(s, t, left)) && Apart(Close(s, t, left)) && Far(m.cells[node], left) == Root(Close(s, t, left))
    decreases s
  {
    if s.Link? {
      var t' := if left then T(s.side, s.x, t) else T(t, s.x, s.side);
      assert m.cells[s.x] == Cell(Root(t'.l), Root(t'.r));
      CloseTree(m, s.init, t', node, left);
    }
  }
}
