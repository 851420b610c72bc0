/** The top-down splay: SPLAY, SPLAY_FIND, SPLAY_INSERT and SPLAY_REMOVE. */
module SplayTree {
  import opened SplayNodes
  import opened Sequences

  /** A search comparison with the entries of the tree. Along the in-order sequence its sign goes from
    positive over zero to negative. */
  type Probe = Entry -> int

  ghost predicate Monotone(probe: Probe, s: seq<Entry>) {
    forall i, j :: 0 <= i < j < |s| ==>
      (probe(s[i]) < 0 ==> probe(s[j]) < 0) && (probe(s[j]) > 0 ==> probe(s[i]) > 0)
  }

  ghost predicate Passed(probe: Probe, s: seq<Entry>) {
    forall x <- s :: probe(x) > 0
  }

  ghost predicate Ahead(probe: Probe, s: seq<Entry>) {
    forall x <- s :: probe(x) < 0
  }

  // The three parts of a tree that is being splayed.

  ghost predicate Parts(m: Mem, node: Entry, ls: Spine, t: Tree, rs: Spine) {
    && m.root == Root(t) && t.T? && IsTree(m, t) && Apart(t)
    && IsSpine(m, ls, node, true) && SApart(ls) && IsSpine(m, rs, node, false) && SApart(rs)
    && SNodes(ls) !! Nodes(t) && SNodes(rs) !! Nodes(t) && SNodes(ls) !! SNodes(rs)
    && node in m.cells && node !in SNodes(ls) + Nodes(t) + SNodes(rs)
  }

  ghost function Order(ls: Spine, t: Tree, rs: Spine): seq<Entry> {
    LeftOrder(ls) + InOrder(t) + RightOrder(rs)
  }

  /** What every turn of the loop keeps. */
  ghost predicate Splaying(probe: Probe, m: Mem, node: Entry, ls: Spine, t: Tree, rs: Spine, s: seq<Entry>) {
    && Parts(m, node, ls, t, rs) && Order(ls, t, rs) == s && Monotone(probe, s)
    && Passed(probe, LeftOrder(ls)) && Ahead(probe, RightOrder(rs))
  }

  lemma LastIn(m: Mem, s: Spine, node: Entry, left: bool)
    requires IsSpine(m, s, node, left) && node in m.cells
    ensures Last(s, node) in m.cells && (Last(s, node) == node || Last(s, node) in SNodes(s))
  {
  }

  lemma Around(ls: Spine, t: Tree, rs: Spine)
    requires t.T?
    ensures Order(ls, t, rs) == (LeftOrder(ls) + InOrder(t.l)) + [t.x] + (InOrder(t.r) + RightOrder(rs))
  {
  }

  lemma Both(probe: Probe, a: seq<Entry>, b: seq<Entry>)
    ensures Passed(probe, a + b) <==> Passed(probe, a) && Passed(probe, b)
    ensures Ahead(probe, a + b) <==> Ahead(probe, a) && Ahead(probe, b)
  {
    assert forall i | 0 <= i < |a| :: (a + b)[i] == a[i];
    assert forall i | 0 <= i < |b| :: (a + b)[|a| + i] == b[i];
  }

  lemma Pivot(probe: Probe, a: seq<Entry>, x: Entry, b: seq<Entry>)
    requires Monotone(probe, a + [x] + b)
    ensures probe(x) > 0 ==> Passed(probe, a)
    ensures probe(x) < 0 ==> Ahead(probe, b)
  {
    var s := a + [x] + b;
    assert s[|a|] == x;
    assert forall i {:trigger a[i]} | 0 <= i < |a| :: s[i] == a[i];
    assert forall i {:trigger b[i]} | 0 <= i < |b| :: s[|a| + 1 + i] == b[i];
  }

  // The key lies to the left: SPLAY_ROTATE_RIGHT and SPLAY_LINKLEFT.

  lemma RotateRightTree(m: Mem, t: Tree)
    requires IsTree(m, t) && Apart(t) && t.T? && t.l.T?
    ensures t.x in m.cells && t.l.x in m.cells && m.cells[t.l.x].right == Root(t.l.r)
    ensures IsTree(m.SetLeft(t.x, Root(t.l.r)).SetRight(t.l.x, t.x), T(t.l.l, t.l.x, T(t.l.r, t.x, t.r))) && Apart(T(t.l.l, t.l.x, T(t.l.r, t.x, t.r)))
    ensures Nodes(T(t.l.l, t.l.x, T(t.l.r, t.x, t.r))) == Nodes(t)
  {
    assert IsTree(m, t.l) && Nodes(t.l) == {t.l.x} + Nodes(t.l.l) + Nodes(t.l.r) && Apart(t.l);
    var m' := m.SetLeft(t.x, Root(t.l.r)).SetRight(t.l.x, t.x);
    KeepTree(m, m', t.r);
    KeepTree(m, m', t.l.l);
    KeepTree(m, m', t.l.r);
  }

  lemma RotateRightAt(m: Mem, node: Entry, ls: Spine, t: Tree, rs: Spine)
    requires Parts(m, node, ls, t, rs) && t.l.T?
    ensures t.x in m.cells && t.l.x in m.cells && m.cells[t.l.x].right == Root(t.l.r)
    ensures Parts(m.SetLeft(t.x, Root(t.l.r)).SetRight(t.l.x, t.x).SetRoot(t.l.x), node, ls, T(t.l.l, t.l.x, T(t.l.r, t.x, t.r)), rs)
    ensures Nodes(T(t.l.l, t.l.x, T(t.l.r, t.x, t.r))) == Nodes(t)
  {
    RotateRightTree(m, t);
    var m1 := m.SetLeft(t.x, Root(t.l.r)).SetRight(t.l.x, t.x);
    var m' := m1.SetRoot(t.l.x);
    LastIn(m, ls, node, true);
    LastIn(m, rs, node, false);
    KeepSpine(m, m', ls, node, true);
    KeepSpine(m, m', rs, node, false);
    KeepTree(m1, m', T(t.l.l, t.l.x, T(t.l.r, t.x, t.r)));
  }

  lemma RotateRightOrder(ls: Spine, t: Tree, rs: Spine)
    requires t.T? && t.l.T?
    ensures InOrder(T(t.l.l, t.l.x, T(t.l.r, t.x, t.r))) == InOrder(t)
    ensures Order(ls, T(t.l.l, t.l.x, T(t.l.r, t.x, t.r)), rs) == Order(ls, t, rs)
  {
    Assoc(InOrder(t.l.l) + [t.l.x], InOrder(t.l.r), [t.x]);
    Assoc(InOrder(t.l.l) + [t.l.x], InOrder(t.l.r) + [t.x], InOrder(t.r));
  }

  lemma LinkLeftAt(m: Mem, node: Entry, ls: Spine, t: Tree, rs: Spine)
    requires Parts(m, node, ls, t, rs) && t.l.T?
    ensures t.x in m.cells && Last(rs, node) in m.cells
    ensures Parts(m.SetLeft(Last(rs, node), t.x).SetRoot(t.l.x), node, ls, t.l, Link(rs, t.r, t.x))
  {
    LastIn(m, ls, node, true);
    LastIn(m, rs, node, false);
    var m' := m.SetLeft(Last(rs, node), t.x).SetRoot(t.l.x);
    KeepSpine(m, m', rs, node, false);
    KeepSpine(m, m', ls, node, true);
    KeepTree(m, m', t.l);
    KeepTree(m, m', t.r);
  }

  lemma LinkLeftOrder(probe: Probe, ls: Spine, t: Tree, rs: Spine)
    requires t.T? && Monotone(probe, Order(ls, t, rs)) && probe(t.x) < 0
    ensures Order(ls, t.l, Link(rs, t.r, t.x)) == Order(ls, t, rs)
    ensures Ahead(probe, RightOrder(rs)) ==> Ahead(probe, RightOrder(Link(rs, t.r, t.x)))
  {
    var a, b := LeftOrder(ls) + InOrder(t.l), InOrder(t.r) + RightOrder(rs);
    Around(ls, t, rs);
    Pivot(probe, a, t.x, b);
    Both(probe, InOrder(t.r), RightOrder(rs)); Both(probe, [t.x], InOrder(t.r)); Both(probe, [t.x] + InOrder(t.r), RightOrder(rs));
    assert a + [t.x] + b == LeftOrder(ls) + InOrder(t.l) + (([t.x] + InOrder(t.r)) + RightOrder(rs));
  }

  method RotateRight(h: Head, ghost probe: Probe, tmp: Entry, ghost node: Entry, ghost ls: Spine, ghost t: Tree, ghost rs: Spine, ghost s: seq<Entry>)
    returns (ghost t': Tree)
    requires h.Sync() && Splaying(probe, h.mem, node, ls, t, rs, s) && t.l.T? && tmp == t.l.x
    modifies h`root, h`mem, h.mem.cells.Keys
    ensures h.Sync() && h.mem.cells.Keys == old(h.mem.cells.Keys)
    ensures t' == T(t.l.l, t.l.x, T(t.l.r, t.x, t.r)) && Splaying(probe, h.mem, node, ls, t', rs, s)
  {
    RotateRightAt(h.mem, node, ls, t, rs);
    RotateRightOrder(ls, t, rs);
    h.SetLeft(h.root, tmp.right);
    h.SetRight(tmp, h.root);
    h.SetRoot(tmp);
    t' := T(t.l.l, t.l.x, T(t.l.r, t.x, t.r));
  }

  method LinkLeft(h: Head, ghost probe: Probe, tmp0: Entry, ghost node: Entry, ghost ls: Spine, ghost t: Tree, ghost rs: Spine, ghost s: seq<Entry>)
    returns (tmp: Entry)
    requires h.Sync() && Splaying(probe, h.mem, node, ls, t, rs, s) && t.l.T? && tmp0 == Last(rs, node) && probe(t.x) < 0
    modifies h`root, h`mem, h.mem.cells.Keys
    ensures h.Sync() && h.mem.cells.Keys == old(h.mem.cells.Keys)
    ensures tmp == t.x && Splaying(probe, h.mem, node, ls, t.l, Link(rs, t.r, t.x), s)
  {
    LinkLeftAt(h.mem, node, ls, t, rs);
    LinkLeftOrder(probe, ls, t, rs);
    h.SetLeft(tmp0, h.root);
    tmp := h.root;
    h.SetRoot(tmp.left);
  }

  // The key lies to the right: SPLAY_ROTATE_LEFT and SPLAY_LINKRIGHT.

  lemma RotateLeftTree(m: Mem, t: Tree)
    requires IsTree(m, t) && Apart(t) && t.T? && t.r.T?
    ensures t.x in m.cells && t.r.x in m.cells && m.cells[t.r.x].left == Root(t.r.l)
    ensures IsTree(m.SetRight(t.x, Root(t.r.l)).SetLeft(t.r.x, t.x), T(T(t.l, t.x, t.r.l), t.r.x, t.r.r)) && Apart(T(T(t.l, t.x, t.r.l), t.r.x, t.r.r))
    ensures Nodes(T(T(t.l, t.x, t.r.l), t.r.x, t.r.r)) == Nodes(t)
  {
    assert IsTree(m, t.r) && Nodes(t.r) == {t.r.x} + Nodes(t.r.l) + Nodes(t.r.r) && Apart(t.r);
    var m' := m.SetRight(t.x, Root(t.r.l)).SetLeft(t.r.x, t.x);
    KeepTree(m, m', t.l);
    KeepTree(m, m', t.r.l);
    KeepTree(m, m', t.r.r);
  }

  lemma RotateLeftAt(m: Mem, node: Entry, ls: Spine, t: Tree, rs: Spine)
    requires Parts(m, node, ls, t, rs) && t.r.T?
    ensures t.x in m.cells && t.r.x in m.cells && m.cells[t.r.x].left == Root(t.r.l)
    ensures Parts(m.SetRight(t.x, Root(t.r.l)).SetLeft(t.r.x, t.x).SetRoot(t.r.x), node, ls, T(T(t.l, t.x, t.r.l), t.r.x, t.r.r), rs)
    ensures Nodes(T(T(t.l, t.x, t.r.l), t.r.x, t.r.r)) == Nodes(t)
  {
    RotateLeftTree(m, t);
    var m1 := m.SetRight(t.x, Root(t.r.l)).SetLeft(t.r.x, t.x);
    var m' := m1.SetRoot(t.r.x);
    LastIn(m, ls, node, true);
    LastIn(m, rs, node, false);
    KeepSpine(m, m', ls, node, true);
    KeepSpine(m, m', rs, node, false);
    KeepTree(m1, m', T(T(t.l, t.x, t.r.l), t.r.x, t.r.r));
  }

  lemma RotateLeftOrder(ls: Spine, t: Tree, rs: Spine)
    requires t.T? && t.r.T?
    ensures InOrder(T(T(t.l, t.x, t.r.l), t.r.x, t.r.r)) == InOrder(t)
    ensures Order(ls, T(T(t.l, t.x, t.r.l), t.r.x, t.r.r), rs) == Order(ls, t, rs)
  {
    Assoc(InOrder(t.l) + [t.x], InOrder(t.r.l), [t.r.x]);
    Assoc(InOrder(t.l) + [t.x], InOrder(t.r.l) + [t.r.x], InOrder(t.r.r));
  }

  lemma LinkRightAt(m: Mem, node: Entry, ls: Spine, t: Tree, rs: Spine)
    requires Parts(m, node, ls, t, rs) && t.r.T?
    ensures t.x in m.cells && Last(ls, node) in m.cells
    ensures Parts(m.SetRight(Last(ls, node), t.x).SetRoot(t.r.x), node, Link(ls, t.l, t.x), t.r, rs)
  {
    LastIn(m, ls, node, true);
    LastIn(m, rs, node, false);
    var m' := m.SetRight(Last(ls, node), t.x).SetRoot(t.r.x);
    KeepSpine(m, m', ls, node, true);
    KeepSpine(m, m', rs, node, false);
    KeepTree(m, m', t.l);
    KeepTree(m, m', t.r);
  }

  lemma LinkRightOrder(probe: Probe, ls: Spine, t: Tree, rs: Spine)
    requires t.T? && Monotone(probe, Order(ls, t, rs)) && probe(t.x) > 0
    ensures Order(Link(ls, t.l, t.x), t.r, rs) == Order(ls, t, rs)
    ensures Passed(probe, LeftOrder(ls)) ==> Passed(probe, LeftOrder(Link(ls, t.l, t.x)))
  {
    var a, b := LeftOrder(ls) + InOrder(t.l), InOrder(t.r) + RightOrder(rs);
    Around(ls, t, rs);
    Pivot(probe, a, t.x, b);
    Both(probe, LeftOrder(ls), InOrder(t.l)); Both(probe, InOrder(t.l), [t.x]); Both(probe, LeftOrder(ls), InOrder(t.l) + [t.x]);
    assert a + [t.x] + b == LeftOrder(ls) + (InOrder(t.l) + [t.x]) + InOrder(t.r) + RightOrder(rs);
  }

  method RotateLeft(h: Head, ghost probe: Probe, tmp: Entry, ghost node: Entry, ghost ls: Spine, ghost t: Tree, ghost rs: Spine, ghost s: seq<Entry>)
    returns (ghost t': Tree)
    requires h.Sync() && Splaying(probe, h.mem, node, ls, t, rs, s) && t.r.T? && tmp == t.r.x
    modifies h`root, h`mem, h.mem.cells.Keys
    ensures h.Sync() && h.mem.cells.Keys == old(h.mem.cells.Keys)
    ensures t' == T(T(t.l, t.x, t.r.l), t.r.x, t.r.r) && Splaying(probe, h.mem, node, ls, t', rs, s)
  {
    RotateLeftAt(h.mem, node, ls, t, rs);
    RotateLeftOrder(ls, t, rs);
    h.SetRight(h.root, tmp.left);
    h.SetLeft(tmp, h.root);
    h.SetRoot(tmp);
    t' := T(T(t.l, t.x, t.r.l), t.r.x, t.r.r);
  }

  method LinkRight(h: Head, ghost probe: Probe, tmp0: Entry, ghost node: Entry, ghost ls: Spine, ghost t: Tree, ghost rs: Spine, ghost s: seq<Entry>)
    returns (tmp: Entry)
    requires h.Sync() && Splaying(probe, h.mem, node, ls, t, rs, s) && t.r.T? && tmp0 == Last(ls, node) && probe(t.x) > 0
    modifies h`root, h`mem, h.mem.cells.Keys
    ensures h.Sync() && h.mem.cells.Keys == old(h.mem.cells.Keys)
    ensures tmp == t.x && Splaying(probe, h.mem, node, Link(ls, t.l, t.x), t.r, rs, s)
  {
    LinkRightAt(h.mem, node, ls, t, rs);
    LinkRightOrder(probe, ls, t, rs);
    h.SetRight(tmp0, h.root);
    tmp := h.root;
    h.SetRoot(tmp.right);
  }

  // SPLAY_ASSEMBLE.

  ghost function Assembled(m: Mem, x: Entry, left: Entry, right: Entry, node: Entry): Mem
    requires {x, left, right, node} <= m.cells.Keys
  {
    var m2 := m.SetRight(left, m.cells[x].left).SetLeft(right, m.cells[x].right);
    m2.SetLeft(x, m2.cells[node].right).SetRight(x, m2.cells[node].left)
  }

  ghost function Joined(ls: Spine, t: Tree, rs: Spine): Tree
    requires t.T?
  {
    T(Close(ls, t.l, true), t.x, Close(rs, t.r, false))
  }

  lemma JoinedApart(ls: Spine, t: Tree, rs: Spine)
    requires t.T? && Apart(t) && SNodes(ls) !! Nodes(t) && SNodes(rs) !! Nodes(t) && SNodes(ls) !! SNodes(rs)
    requires Apart(Close(ls, t.l, true)) && Apart(Close(rs, t.r, false))
    ensures Apart(Joined(ls, t, rs)) && Nodes(Joined(ls, t, rs)) == SNodes(ls) + Nodes(t) + SNodes(rs)
  {
    CloseNodes(ls, t.l, true);
    CloseNodes(rs, t.r, false);
  }

  lemma JoinedOrder(ls: Spine, t: Tree, rs: Spine)
    requires t.T?
    ensures InOrder(Joined(ls, t, rs)) == Order(ls, t, rs)
    ensures InOrder(Joined(ls, t, rs).l) == LeftOrder(ls) + InOrder(t.l)
    ensures InOrder(Joined(ls, t, rs).r) == InOrder(t.r) + RightOrder(rs)
  {
    CloseLeftOrder(ls, t.l);
    CloseRightOrder(rs, t.r);
    Around(ls, t, rs);
  }

  /** Closing both spines; the root still has its old children. */
  lemma CloseBoth(m: Mem, node: Entry, ls: Spine, t: Tree, rs: Spine)
    requires Parts(m, node, ls, t, rs)
    ensures {t.x, Last(ls, node), Last(rs, node)} <= m.cells.Keys
    ensures m.cells[t.x] == Cell(Root(t.l), Root(t.r))
    ensures var m2 := m.SetRight(Last(ls, node), Root(t.l)).SetLeft(Last(rs, node), Root(t.r));
      && IsTree(m2, Close(ls, t.l, true)) && Apart(Close(ls, t.l, true)) && m2.cells[node].right == Root(Close(ls, t.l, true))
      && IsTree(m2, Close(rs, t.r, false)) && Apart(Close(rs, t.r, false)) && m2.cells[node].left == Root(Close(rs, t.r, false))
  {
    LastIn(m, ls, node, true);
    LastIn(m, rs, node, false);
    var m2 := m.SetRight(Last(ls, node), Root(t.l)).SetLeft(Last(rs, node), Root(t.r));
    KeepSpine(m, m2, ls, node, true);
    KeepSpine(m, m2, rs, node, false);
    KeepTree(m, m2, t.l);
    KeepTree(m, m2, t.r);
    CloseTree(m2, ls, t.l, node, true);
    CloseTree(m2, rs, t.r, node, false);
  }

  lemma AssembledTree(m: Mem, node: Entry, ls: Spine, t: Tree, rs: Spine)
    requires Parts(m, node, ls, t, rs)
    ensures {t.x, Last(ls, node), Last(rs, node)} <= m.cells.Keys
    ensures m.cells[t.x] == Cell(Root(t.l), Root(t.r))
    ensures IsTree(Assembled(m, t.x, Last(ls, node), Last(rs, node), node), Joined(ls, t, rs))
    ensures Apart(Joined(ls, t, rs)) && Nodes(Joined(ls, t, rs)) == SNodes(ls) + Nodes(t) + SNodes(rs)
  {
    CloseBoth(m, node, ls, t, rs);
    JoinedApart(ls, t, rs);
    var m2 := m.SetRight(Last(ls, node), Root(t.l)).SetLeft(Last(rs, node), Root(t.r));
    var m4 := Assembled(m, t.x, Last(ls, node), Last(rs, node), node);
    KeepTree(m2, m4, Close(ls, t.l, true));
    KeepTree(m2, m4, Close(rs, t.r, false));
  }

  method Assemble(h: Head, node: Entry, left: Entry, right: Entry)
    requires h.Sync() && h.root != null && {h.root, left, right, node} <= h.mem.cells.Keys
    requires h.root !in {left, right, node}
    modifies h`mem, h.mem.cells.Keys
    ensures h.Sync() && h.mem == Assembled(old(h.mem), h.root, left, right, node) && h.mem.cells.Keys == old(h.mem.cells.Keys)
  {
    h.SetRight(left, h.root.left);
    h.SetLeft(right, h.root.right);
    h.SetLeft(h.root, node.right);
    h.SetRight(h.root, node.left);
  }

  // The splay.

  /** The middle tree cannot be descended any further towards the key. */
  ghost predicate Arrived(probe: Probe, t: Tree) {
    t.T? && (probe(t.x) < 0 ==> t.l.Leaf?) && (probe(t.x) > 0 ==> t.r.Leaf?)
  }

  /** What the loop reads off the heap. */
  lemma Middle(probe: Probe, m: Mem, node: Entry, ls: Spine, t: Tree, rs: Spine, s: seq<Entry>)
    requires Splaying(probe, m, node, ls, t, rs, s)
    ensures t.T? && m.root == t.x
  {
  }

  lemma Child(m: Mem, t: Tree)
    requires IsTree(m, t) && t.T?
    ensures t.x in m.cells && m.cells[t.x] == Cell(Root(t.l), Root(t.r))
  {
  }

  /** The rotation of one turn, if the key lies beyond the left child too; `stop` when there is nothing below. */
  method ZigLeft(h: Head, probe: Probe, tmp: Entry, ghost node: Entry, ghost ls: Spine, ghost t0: Tree, ghost rs: Spine, ghost s: seq<Entry>)
    returns (stop: bool, ghost t: Tree)
    requires h.Sync() && Splaying(probe, h.mem, node, ls, t0, rs, s) && probe(t0.x) < 0 && t0.l.T? && tmp == t0.l.x
    modifies h`root, h`mem, h.mem.cells.Keys
    ensures h.Sync() && h.mem.cells.Keys == old(h.mem.cells.Keys)
    ensures Splaying(probe, h.mem, node, ls, t, rs, s) && probe(t.x) < 0
    ensures stop ==> t.l.Leaf?
    ensures !stop ==> t.l.T? && (t.l == t0.l || t.l == t0.l.l)
  {
    t := t0;
    stop := false;
    if probe(tmp) < 0 {
      t := RotateRight(h, probe, tmp, node, ls, t0, rs, s);
      Child(h.mem, t);
      stop := h.root.left == null;
    }
  }

  /** One turn of the loop when the key lies to the left of the root; `done` when the loop breaks. */
  method TurnLeft(h: Head, probe: Probe, right0: Entry, ghost node: Entry, ghost ls: Spine, ghost t0: Tree, ghost rs0: Spine, ghost s: seq<Entry>)
    returns (done: bool, right: Entry, ghost t: Tree, ghost rs: Spine)
    requires h.Sync() && Splaying(probe, h.mem, node, ls, t0, rs0, s) && probe(t0.x) < 0 && right0 == Last(rs0, node)
    modifies h`root, h`mem, h.mem.cells.Keys
    ensures h.Sync() && Splaying(probe, h.mem, node, ls, t, rs, s) && right == Last(rs, node)
    ensures h.mem.cells.Keys == old(h.mem.cells.Keys)
    ensures done ==> Arrived(probe, t)
    ensures !done ==> t < t0
  {
    right, t, rs := right0, t0, rs0;
    Middle(probe, h.mem, node, ls, t0, rs0, s);
    Child(h.mem, t);
    var tmp := h.root.left;
    if tmp == null {
      done := true;
    } else {
      done, t := ZigLeft(h, probe, tmp, node, ls, t0, rs0, s);
      if !done {
        right := LinkLeft(h, probe, right, node, ls, t, rs0, s);
        rs, t := Link(rs0, t.r, t.x), t.l;
      }
    }
  }

  /** The rotation of one turn, if the key lies beyond the right child too; `stop` when there is nothing below. */
  method ZigRight(h: Head, probe: Probe, tmp: Entry, ghost node: Entry, ghost ls: Spine, ghost t0: Tree, ghost rs: Spine, ghost s: seq<Entry>)
    returns (stop: bool, ghost t: Tree)
    requires h.Sync() && Splaying(probe, h.mem, node, ls, t0, rs, s) && probe(t0.x) > 0 && t0.r.T? && tmp == t0.r.x
    modifies h`root, h`mem, h.mem.cells.Keys
    ensures h.Sync() && h.mem.cells.Keys == old(h.mem.cells.Keys)
    ensures Splaying(probe, h.mem, node, ls, t, rs, s) && probe(t.x) > 0
    ensures stop ==> t.r.Leaf?
    ensures !stop ==> t.r.T? && (t.r == t0.r || t.r == t0.r.r)
  {
    t := t0;
    stop := false;
    if probe(tmp) > 0 {
      t := RotateLeft(h, probe, tmp, node, ls, t0, rs, s);
      Child(h.mem, t);
      stop := h.root.right == null;
    }
  }

  /** One turn of the loop when the key lies to the right of the root; `done` when the loop breaks. */
  method TurnRight(h: Head, probe: Probe, left0: Entry, ghost node: Entry, ghost ls0: Spine, ghost t0: Tree, ghost rs: Spine, ghost s: seq<Entry>)
    returns (done: bool, left: Entry, ghost ls: Spine, ghost t: Tree)
    requires h.Sync() && Splaying(probe, h.mem, node, ls0, t0, rs, s) && probe(t0.x) > 0 && left0 == Last(ls0, node)
    modifies h`root, h`mem, h.mem.cells.Keys
    ensures h.Sync() && Splaying(probe, h.mem, node, ls, t, rs, s) && left == Last(ls, node)
    ensures h.mem.cells.Keys == old(h.mem.cells.Keys)
    ensures done ==> Arrived(probe, t)
    ensures !done ==> t < t0
  {
    left, t, ls := left0, t0, ls0;
    Middle(probe, h.mem, node, ls0, t0, rs, s);
    Child(h.mem, t);
    var tmp := h.root.right;
    if tmp == null {
      done := true;
    } else {
      done, t := ZigRight(h, probe, tmp, node, ls0, t0, rs, s);
      if !done {
        left := LinkRight(h, probe, left, node, ls0, t, rs, s);
        ls, t := Link(ls0, t.l, t.x), t.r;
      }
    }
  }

  /** On exit the root matches if any entry does; otherwise it is an in-order neighbour of the key. */
  ghost predicate Splayed(probe: Probe, w: Tree) {
    && w.T?
    && (probe(w.x) < 0 ==> Passed(probe, InOrder(w.l)))
    && (probe(w.x) > 0 ==> Ahead(probe, InOrder(w.r)))
  }

  lemma JoinedSplayed(probe: Probe, ls: Spine, t: Tree, rs: Spine)
    requires Arrived(probe, t) && Passed(probe, LeftOrder(ls)) && Ahead(probe, RightOrder(rs))
    ensures Splayed(probe, Joined(ls, t, rs))
  {
    JoinedOrder(ls, t, rs);
  }

  /** The loop of SPLAY, between a fresh sentinel and SPLAY_ASSEMBLE. */
  method Descend(h: Head, probe: Probe, node: Entry, ghost t0: Tree)
    returns (left: Entry, right: Entry, ghost ls: Spine, ghost t: Tree, ghost rs: Spine)
    requires h.Sync() && Splaying(probe, h.mem, node, Nil, t0, Nil, InOrder(t0))
    modifies h`root, h`mem, h.mem.cells.Keys
    ensures h.Sync() && Splaying(probe, h.mem, node, ls, t, rs, InOrder(t0)) && Arrived(probe, t)
    ensures left == Last(ls, node) && right == Last(rs, node)
    ensures h.mem.cells.Keys == old(h.mem.cells.Keys)
  {
    left, right := node, node;
    ls, t, rs := Nil, t0, Nil;
    Middle(probe, h.mem, node, ls, t, rs, InOrder(t0));
    hide Splaying, IsTree, IsSpine, InOrder, Nodes, SNodes, Apart, SApart;
    while probe(h.root) != 0
      invariant h.Sync() && Splaying(probe, h.mem, node, ls, t, rs, InOrder(t0))
      invariant left == Last(ls, node) && right == Last(rs, node) && t.T? && h.root == t.x
      invariant h.mem.cells.Keys == old(h.mem.cells.Keys)
      decreases t
    {
      var comp, done := probe(h.root), false;
      if comp < 0 {
        done, right, t, rs := TurnLeft(h, probe, right, node, ls, t, rs, InOrder(t0));
      } else {
        done, left, ls, t := TurnRight(h, probe, left, node, ls, t, rs, InOrder(t0));
      }
      Middle(probe, h.mem, node, ls, t, rs, InOrder(t0));
      if done { break; }
    }
  }

  lemma Begin(probe: Probe, m: Mem, node: Entry, t: Tree)
    requires t.T? && m.root == t.x && IsTree(m, t) && Apart(t) && node in m.cells && node !in Nodes(t)
    requires Monotone(probe, InOrder(t))
    ensures Splaying(probe, m, node, Nil, t, Nil, InOrder(t))
  {
    assert Order(Nil, t, Nil) == InOrder(t);
  }

  /** SPLAY. */
  method Splay(h: Head, probe: Probe)
    requires h.Valid() && h.root != null && Monotone(probe, InOrder(h.shape))
    modifies h, Nodes(h.shape)
    ensures h.Valid() && InOrder(h.shape) == old(InOrder(h.shape)) && Splayed(probe, h.shape)
    ensures Nodes(h.shape) == old(Nodes(h.shape))
  {
    var node := new Entry(0, 0);
    ghost var t0 := h.shape;
    Admit(h, probe, node);
    var left, right;
    ghost var ls, t, rs;
    left, right, ls, t, rs := Descend(h, probe, node, t0);
    Finish(h, probe, node, left, right, ls, t, rs, InOrder(t0));
    SameNodes(t0, h.shape);
    Retire(h, node);
  }

  /** The sentinel joins the entries that are followed, ... */
  ghost method Admit(h: Head, probe: Probe, node: Entry)
    requires h.Valid() && h.root != null && Monotone(probe, InOrder(h.shape)) && node !in Nodes(h.shape)
    modifies h`mem
    ensures h.Sync() && h.mem.cells.Keys == Nodes(h.shape) + {node}
    ensures Splaying(probe, h.mem, node, Nil, h.shape, Nil, InOrder(h.shape))
  {
    ghost var m := h.mem;
    h.Follow(node);
    KeepTree(m, h.mem, h.shape);
    Begin(probe, h.mem, node, h.shape);
  }

  /** ... and leaves them again. */
  ghost method Retire(h: Head, node: Entry)
    requires h.Holds() && node !in Nodes(h.shape) && h.mem.cells.Keys == Nodes(h.shape) + {node}
    modifies h`mem
    ensures h.Valid()
  {
    ghost var m := h.mem;
    h.Forget(node);
    KeepTree(m, h.mem, h.shape);
  }

  /** SPLAY_ASSEMBLE at the end of SPLAY. */
  method Finish(h: Head, ghost probe: Probe, node: Entry, left: Entry, right: Entry,
                ghost ls: Spine, ghost t: Tree, ghost rs: Spine, ghost s: seq<Entry>)
    requires h.Sync() && Splaying(probe, h.mem, node, ls, t, rs, s) && Arrived(probe, t)
    requires left == Last(ls, node) && right == Last(rs, node)
    modifies h, h.mem.cells.Keys
    ensures h.Holds() && InOrder(h.shape) == s && Splayed(probe, h.shape)
    ensures h.mem.cells.Keys == old(h.mem.cells.Keys)
  {
    Middle(probe, h.mem, node, ls, t, rs, s);
    Assembling(h.mem, probe, node, ls, t, rs, s);
    hide Splaying, Assembled, Splayed, IsTree, IsSpine, InOrder, Apart, SApart, Nodes, SNodes, Close, Last;
    Assemble(h, node, left, right);
    h.shape := Joined(ls, t, rs);
  }

  lemma SameNodes(t: Tree, t': Tree)
    requires InOrder(t) == InOrder(t')
    ensures Nodes(t) == Nodes(t')
  {
    InOrderNodes(t);
    InOrderNodes(t');
  }

  /** SPLAY_ASSEMBLE at the end of SPLAY. */
  lemma Assembling(m: Mem, probe: Probe, node: Entry, ls: Spine, t: Tree, rs: Spine, s: seq<Entry>)
    requires Splaying(probe, m, node, ls, t, rs, s) && Arrived(probe, t)
    ensures var w, left, right := Joined(ls, t, rs), Last(ls, node), Last(rs, node);
      && {t.x, left, right, node} <= m.cells.Keys && t.x !in {left, right, node}
      && IsTree(Assembled(m, t.x, left, right, node), w) && Apart(w) && InOrder(w) == s && Splayed(probe, w)
  {
    AssembledTree(m, node, ls, t, rs);
    JoinedSplayed(probe, ls, t, rs);
    JoinedOrder(ls, t, rs);
    LastIn(m, ls, node, true);
    LastIn(m, rs, node, false);
  }
}
