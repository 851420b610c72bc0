/** The rotation macros of the red-black tree. Each method follows the pointer writes of the macro and
  is proved against the memory they leave; the lemmas say which step between foci that memory makes. */
module RbRotate {
  import opened RbNodes

  /** The memory after `elm` has been replaced by `tmp` at its place below `parent`. */
  ghost function Relinked(m: Mem, parent: Node?, elm: Node, tmp: Node?): Mem
    requires parent != null ==> parent in m.cells
  {
    if parent == null then m.SetRoot(tmp)
    else if m.cells[parent].left == elm then m.SetLeft(parent, tmp)
    else m.SetRight(parent, tmp)
  }

  ghost function Adopted(m: Mem, child: Node?, parent: Node?): Mem
    requires child != null ==> child in m.cells
  {
    if child == null then m else m.SetParent(child, parent)
  }

  ghost predicate CanRotateLeft(m: Mem, elm: Node) {
    && elm in m.cells && m.Has(m.cells[elm].right) && elm !in {m.cells[elm].right, m.cells[elm].parent}
    && m.cells[m.cells[elm].right].left != elm
    && (m.cells[m.cells[elm].right].left != null ==> m.cells[m.cells[elm].right].left in m.cells)
    && (m.cells[elm].parent != null ==> m.cells[elm].parent in m.cells)
  }

  ghost predicate CanRotateRight(m: Mem, elm: Node) {
    && elm in m.cells && m.Has(m.cells[elm].left) && elm !in {m.cells[elm].left, m.cells[elm].parent}
    && m.cells[m.cells[elm].left].right != elm
    && (m.cells[m.cells[elm].left].right != null ==> m.cells[m.cells[elm].left].right in m.cells)
    && (m.cells[elm].parent != null ==> m.cells[elm].parent in m.cells)
  }

  ghost function RotatedLeft(m: Mem, elm: Node): Mem
    requires CanRotateLeft(m, elm)
  {
    var tmp: Node := m.cells[elm].right;
    var b := m.cells[tmp].left;
    var p := m.cells[elm].parent;
    var m1 := Adopted(m.SetRight(elm, b), b, elm);
    var m2 := Relinked(m1.SetParent(tmp, p), p, elm, tmp);
    m2.SetLeft(tmp, elm).SetParent(elm, tmp)
  }

  ghost function RotatedRight(m: Mem, elm: Node): Mem
    requires CanRotateRight(m, elm)
  {
    var tmp: Node := m.cells[elm].left;
    var b := m.cells[tmp].right;
    var p := m.cells[elm].parent;
    var m1 := Adopted(m.SetLeft(elm, b), b, elm);
    var m2 := Relinked(m1.SetParent(tmp, p), p, elm, tmp);
    m2.SetRight(tmp, elm).SetParent(elm, tmp)
  }

  // The rotations as steps between foci.

  /** The parent, or the root pointer, of a context now refers to `n'` where it referred to `n`. */
  ghost predicate RelinkedCell(m: Mem, m': Mem, p: Node?, n: Node, n': Node?) {
    if p == null then m'.root == n'
    else
      && m'.root == m.root && p in m.cells && p in m'.cells
      && m'.cells[p] == if m.cells[p].left == n then m.cells[p].(left := n') else m.cells[p].(right := n')
  }

  lemma RelinkCtx(m: Mem, m': Mem, k: Ctx, n: Node, n': Node?)
    requires IsCtx(m, k, n) && CApart(k) && n !in CNodes(k)
    requires RelinkedCell(m, m', ParentOf(k), n, n')
    requires Agree(m, m', CNodes(k) - {ParentOf(k)})
    ensures IsCtx(m', k, n')
  {
    match k
    case Top =>
    case Lf(_, x, r, up) => KeepTree(m, m', x, r); KeepCtx(m, m', up, x);
    case Rt(_, l, x, up) => RootInNodes(l); KeepTree(m, m', x, l); KeepCtx(m, m', up, x);
  }

  lemma RootInNodes(t: Tree)
    ensures Root(t) != null ==> Root(t) in Nodes(t)
  {
  }

  lemma AdoptTree(m: Mem, m': Mem, p: Node?, q: Node?, t: Tree)
    requires IsTree(m, p, t) && Apart(t)
    requires t.T? ==> t.x in m'.cells && m'.cells[t.x] == m.cells[t.x].(parent := q)
    requires Agree(m, m', Nodes(t) - {Root(t)})
    ensures IsTree(m', q, t)
  {
    if t.T? {
      KeepTree(m, m', t.x, t.l);
      KeepTree(m, m', t.x, t.r);
    }
  }

  /** The cells after a rotation, with nothing left to alias. */
  lemma RotatedLeftCells(m: Mem, elm: Node, tmp: Node, b: Node?, p: Node?)
    requires CanRotateLeft(m, elm) && tmp == m.cells[elm].right && b == m.cells[tmp].left && p == m.cells[elm].parent
    requires (b == null || b != p) && tmp != p && b != tmp
    ensures var m' := RotatedLeft(m, elm);
      && m'.cells.Keys == m.cells.Keys
      && m'.cells[elm] == m.cells[elm].(right := b, parent := tmp)
      && m'.cells[tmp] == m.cells[tmp].(left := elm, parent := p)
      && (b != null ==> m'.cells[b] == m.cells[b].(parent := elm))
      && RelinkedCell(m, m', p, elm, tmp)
      && Agree(m, m', m.cells.Keys - {elm, tmp, b, p})
  {
  }

  lemma RotatedLeftAt(m: Mem, k: Ctx, t: Tree)
    requires At(m, k, t) && t.T? && t.r.T?
    ensures CanRotateLeft(m, t.x)
    ensures At(RotatedLeft(m, t.x), k, T(t.r.c, T(t.c, t.l, t.x, t.r.l), t.r.x, t.r.r))
    ensures RotatedLeft(m, t.x).cells.Keys == m.cells.Keys
  {
    var elm, tmp, p, b := t.x, t.r.x, ParentOf(k), Root(t.r.l);
    assert IsTree(m, elm, t.r) && IsTree(m, tmp, t.r.l) && Apart(t.r) && Nodes(t.r) == {tmp} + Nodes(t.r.l) + Nodes(t.r.r);
    RootInNodes(t.r.l);
    assert p != null ==> p in CNodes(k);
    RotatedLeftCells(m, elm, tmp, b, p);
    var m' := RotatedLeft(m, elm);
    RelinkCtx(m, m', k, elm, tmp);
    KeepTree(m, m', elm, t.l);
    KeepTree(m, m', tmp, t.r.r);
    AdoptTree(m, m', tmp, elm, t.r.l);
  }

  /** The cells after a rotation, with nothing left to alias. */
  lemma RotatedRightCells(m: Mem, elm: Node, tmp: Node, b: Node?, p: Node?)
    requires CanRotateRight(m, elm) && tmp == m.cells[elm].left && b == m.cells[tmp].right && p == m.cells[elm].parent
    requires (b == null || b != p) && tmp != p && b != tmp
    ensures var m' := RotatedRight(m, elm);
      && m'.cells.Keys == m.cells.Keys
      && m'.cells[elm] == m.cells[elm].(left := b, parent := tmp)
      && m'.cells[tmp] == m.cells[tmp].(right := elm, parent := p)
      && (b != null ==> m'.cells[b] == m.cells[b].(parent := elm))
      && RelinkedCell(m, m', p, elm, tmp)
      && Agree(m, m', m.cells.Keys - {elm, tmp, b, p})
  {
  }

  lemma RotatedRightAt(m: Mem, k: Ctx, t: Tree)
    requires At(m, k, t) && t.T? && t.l.T?
    ensures CanRotateRight(m, t.x)
    ensures At(RotatedRight(m, t.x), k, T(t.l.c, t.l.l, t.l.x, T(t.c, t.l.r, t.x, t.r)))
    ensures RotatedRight(m, t.x).cells.Keys == m.cells.Keys
  {
    var elm, tmp, p, b := t.x, t.l.x, ParentOf(k), Root(t.l.r);
    assert IsTree(m, elm, t.l) && IsTree(m, tmp, t.l.r) && Apart(t.l) && Nodes(t.l) == {tmp} + Nodes(t.l.r) + Nodes(t.l.l);
    RootInNodes(t.l.r);
    assert p != null ==> p in CNodes(k);
    RotatedRightCells(m, elm, tmp, b, p);
    var m' := RotatedRight(m, elm);
    RelinkCtx(m, m', k, elm, tmp);
    KeepTree(m, m', elm, t.r);
    KeepTree(m, m', tmp, t.l.l);
    AdoptTree(m, m', tmp, elm, t.l.r);
  }

  /** Makes the child pointer of `parent` that refers to `elm`, or the root pointer, refer to `n`. */
  method Relink(h: Head, parent: Node?, elm: Node, n: Node?)
    requires h.Sync() && (parent != null ==> parent in h.mem.cells)
    modifies h`root, h`mem, (if parent == null then {} else {parent})
    ensures h.Sync() && h.mem == Relinked(old(h.mem), parent, elm, n)
  {
    if parent != null {
      if parent.left == elm {
        h.SetLeft(parent, n);
      } else {
        h.SetRight(parent, n);
      }
    } else {
      h.SetRoot(n);
    }
  }

  /** RB_ROTATE_LEFT: the right child of `elm` takes its place. */
  method RotateLeft(h: Head, elm: Node) returns (tmp: Node)
    requires h.Sync() && CanRotateLeft(h.mem, elm)
    modifies h`root, h`mem, h.mem.cells.Keys
    ensures h.Sync() && tmp == old(elm.right)
    ensures h.mem == RotatedLeft(old(h.mem), elm)
  {
    tmp := elm.right;
    h.SetRight(elm, tmp.left);
    if elm.right != null {
      h.SetParent(tmp.left, elm);
    }
    h.SetParent(tmp, elm.parent);
    Relink(h, elm.parent, elm, tmp);
    h.SetLeft(tmp, elm);
    h.SetParent(elm, tmp);
  }

  /** The same, as a step from one focus to another. */
  method RotateLeftAt(h: Head, elm: Node, ghost k: Ctx, ghost t: Tree) returns (tmp: Node, ghost t': Tree)
    requires h.Sync() && At(h.mem, k, t) && t.T? && t.r.T? && elm == t.x
    modifies h`root, h`mem, h.mem.cells.Keys
    ensures h.Sync() && h.mem.cells.Keys == old(h.mem.cells.Keys)
    ensures tmp == t.r.x && t' == T(t.r.c, T(t.c, t.l, t.x, t.r.l), t.r.x, t.r.r)
    ensures At(h.mem, k, t') && InOrder(t') == InOrder(t) && InOrder(Plug(k, t')) == InOrder(Plug(k, t))
  {
    RotatedLeftAt(h.mem, k, t);
    RotateLeftInOrder(k, t);
    tmp := RotateLeft(h, elm);
    t' := T(t.r.c, T(t.c, t.l, t.x, t.r.l), t.r.x, t.r.r);
  }

  lemma RotateLeftInOrder(k: Ctx, t: Tree)
    requires t.T? && t.r.T?
    ensures InOrder(T(t.r.c, T(t.c, t.l, t.x, t.r.l), t.r.x, t.r.r)) == InOrder(t)
    ensures InOrder(Plug(k, T(t.r.c, T(t.c, t.l, t.x, t.r.l), t.r.x, t.r.r))) == InOrder(Plug(k, t))
  {
    var t' := T(t.r.c, T(t.c, t.l, t.x, t.r.l), t.r.x, t.r.r);
    assert InOrder(t') == InOrder(t) by {
      Assoc3(InOrder(t.l), t.x, InOrder(t.r.l), t.r.x, InOrder(t.r.r));
    }
    SwapInOrder(k, t, t');
  }

  /** RB_ROTATE_RIGHT: the left child of `elm` takes its place. */
  method RotateRight(h: Head, elm: Node) returns (tmp: Node)
    requires h.Sync() && CanRotateRight(h.mem, elm)
    modifies h`root, h`mem, h.mem.cells.Keys
    ensures h.Sync() && tmp == old(elm.left)
    ensures h.mem == RotatedRight(old(h.mem), elm)
  {
    tmp := elm.left;
    h.SetLeft(elm, tmp.right);
    if elm.left != null {
      h.SetParent(tmp.right, elm);
    }
    h.SetParent(tmp, elm.parent);
    Relink(h, elm.parent, elm, tmp);
    h.SetRight(tmp, elm);
    h.SetParent(elm, tmp);
  }

  /** The same, as a step from one focus to another. */
  method RotateRightAt(h: Head, elm: Node, ghost k: Ctx, ghost t: Tree) returns (tmp: Node, ghost t': Tree)
    requires h.Sync() && At(h.mem, k, t) && t.T? && t.l.T? && elm == t.x
    modifies h`root, h`mem, h.mem.cells.Keys
    ensures h.Sync() && h.mem.cells.Keys == old(h.mem.cells.Keys)
    ensures tmp == t.l.x && t' == T(t.l.c, t.l.l, t.l.x, T(t.c, t.l.r, t.x, t.r))
    ensures At(h.mem, k, t') && InOrder(t') == InOrder(t) && InOrder(Plug(k, t')) == InOrder(Plug(k, t))
  {
    RotatedRightAt(h.mem, k, t);
    RotateRightInOrder(k, t);
    tmp := RotateRight(h, elm);
    t' := T(t.l.c, t.l.l, t.l.x, T(t.c, t.l.r, t.x, t.r));
  }

  lemma RotateRightInOrder(k: Ctx, t: Tree)
    requires t.T? && t.l.T?
    ensures InOrder(T(t.l.c, t.l.l, t.l.x, T(t.c, t.l.r, t.x, t.r))) == InOrder(t)
    ensures InOrder(Plug(k, T(t.l.c, t.l.l, t.l.x, T(t.c, t.l.r, t.x, t.r)))) == InOrder(Plug(k, t))
  {
    var t' := T(t.l.c, t.l.l, t.l.x, T(t.c, t.l.r, t.x, t.r));
    assert InOrder(t') == InOrder(t) by {
      Assoc3(InOrder(t.l.l), t.l.x, InOrder(t.l.r), t.x, InOrder(t.r));
    }
    SwapInOrder(k, t, t');
  }

  lemma Assoc3<X>(a: seq<X>, x: X, b: seq<X>, y: X, c: seq<X>)
    ensures (a + [x] + b) + [y] + c == a + [x] + (b + [y] + c)
  {
  }
}
