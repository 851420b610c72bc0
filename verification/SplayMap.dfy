/** SPLAY_FIND, SPLAY_INSERT and SPLAY_REMOVE as operations on the in-order sequence, and the comparison
  of allocations by address range. */
module SplayMap {
  import opened SplayNodes
  import opened SplayTree

  lemma SplayedMissing(probe: Probe, w: Tree)
    requires Splayed(probe, w) && Monotone(probe, InOrder(w)) && probe(w.x) != 0
    ensures probe(w.x) < 0 ==> Passed(probe, InOrder(w.l)) && Ahead(probe, [w.x] + InOrder(w.r))
    ensures probe(w.x) > 0 ==> Passed(probe, InOrder(w.l) + [w.x]) && Ahead(probe, InOrder(w.r))
    ensures forall x <- Nodes(w) :: probe(x) != 0
  {
    Pivot(probe, InOrder(w.l), w.x, InOrder(w.r));
    Both(probe, [w.x], InOrder(w.r));
    Both(probe, InOrder(w.l), [w.x]);
    InOrderNodes(w);
  }

  /** SPLAY_FIND: an entry that compares equal, if there is one. */
  method Find(h: Head, probe: Probe) returns (r: Entry?)
    requires h.Valid() && Monotone(probe, InOrder(h.shape))
    modifies h, Nodes(h.shape)
    ensures h.Valid() && InOrder(h.shape) == old(InOrder(h.shape)) && Nodes(h.shape) == old(Nodes(h.shape))
    ensures r != null ==> r in Nodes(h.shape) && probe(r) == 0
    ensures r == null ==> forall x <- Nodes(h.shape) :: probe(x) != 0
  {
    if h.root == null {
      return null;
    }
    Splay(h, probe);
    RootInNodes(h.shape);
    if probe(h.root) == 0 {
      return h.root;
    }
    SplayedMissing(probe, h.shape);
    return null;
  }

  /** `s'` is `s` with `x` put where the key belongs. */
  ghost predicate Placed(probe: Probe, s: seq<Entry>, s': seq<Entry>, x: Entry) {
    exists i :: 0 <= i <= |s| && s' == s[..i] + [x] + s[i..] && Passed(probe, s[..i]) && Ahead(probe, s[i..])
  }

  lemma PlacedBetween(probe: Probe, a: seq<Entry>, x: Entry, b: seq<Entry>)
    requires Passed(probe, a) && Ahead(probe, b)
    ensures Placed(probe, a + b, a + [x] + b, x)
  {
    assert (a + b)[..|a|] == a && (a + b)[|a|..] == b;
  }

  ghost function Linked(w: Tree, elm: Entry, left: bool): Tree
    requires w.T?
  {
    if left then T(w.l, elm, T(Leaf, w.x, w.r)) else T(T(w.l, w.x, Leaf), elm, w.r)
  }

  lemma LinkedNodes(w: Tree, elm: Entry, left: bool)
    requires w.T? && Apart(w) && elm !in Nodes(w)
    ensures Apart(Linked(w, elm, left)) && Nodes(Linked(w, elm, left)) == Nodes(w) + {elm}
  {
    if left {
      assert Nodes(T(Leaf, w.x, w.r)) == {w.x} + Nodes(w.r) && Apart(T(Leaf, w.x, w.r));
    } else {
      assert Nodes(T(w.l, w.x, Leaf)) == {w.x} + Nodes(w.l) && Apart(T(w.l, w.x, Leaf));
    }
  }

  lemma InsertedLeft(m: Mem, m': Mem, w: Tree, elm: Entry)
    requires w.T? && IsTree(m, w) && Apart(w) && elm !in Nodes(w) && m.cells.Keys == Nodes(w)
    requires m'.cells.Keys == Nodes(w) + {elm} && Agree(m, m', Nodes(w) - {w.x})
    requires m'.cells[elm] == Cell(Root(w.l), w.x) && m'.cells[w.x] == Cell(null, Root(w.r))
    ensures IsTree(m', Linked(w, elm, true))
  {
    KeepTree(m, m', w.l);
    KeepTree(m, m', w.r);
  }

  lemma InsertedRight(m: Mem, m': Mem, w: Tree, elm: Entry)
    requires w.T? && IsTree(m, w) && Apart(w) && elm !in Nodes(w) && m.cells.Keys == Nodes(w)
    requires m'.cells.Keys == Nodes(w) + {elm} && Agree(m, m', Nodes(w) - {w.x})
    requires m'.cells[elm] == Cell(w.x, Root(w.r)) && m'.cells[w.x] == Cell(Root(w.l), null)
    ensures IsTree(m', Linked(w, elm, false))
  {
    KeepTree(m, m', w.l);
    KeepTree(m, m', w.r);
  }

  /** SPLAY_INSERT: `probe` is the comparison with `elm`. Returns the entry that compares equal, or links
    `elm` in and returns null. */
  method Insert(h: Head, elm: Entry, probe: Probe) returns (r: Entry?)
    requires h.Valid() && Monotone(probe, InOrder(h.shape)) && (elm in Nodes(h.shape) ==> probe(elm) == 0)
    modifies h, Nodes(h.shape), elm
    ensures h.Valid()
    ensures r != null ==> r in Nodes(h.shape) && probe(r) == 0 && InOrder(h.shape) == old(InOrder(h.shape))
    ensures r == null ==> Placed(probe, old(InOrder(h.shape)), InOrder(h.shape), elm)
  {
    if h.root == null {
      elm.left, elm.right := null, null;
      h.Follow(elm);
      h.SetRoot(elm);
      PlacedBetween(probe, [], elm, []);
      h.shape := T(Leaf, elm, Leaf);
      return null;
    }
    Splay(h, probe);
    RootInNodes(h.shape);
    if probe(h.root) == 0 {
      return h.root;
    }
    SplayedMissing(probe, h.shape);
    LinkIn(h, elm, probe);
    return null;
  }

  /** The second half of SPLAY_INSERT: the old root becomes a child of `elm`. */
  method LinkIn(h: Head, elm: Entry, probe: Probe)
    requires h.Valid() && h.shape.T? && elm !in Nodes(h.shape) && probe(h.shape.x) != 0
    requires probe(h.shape.x) < 0 ==> Passed(probe, InOrder(h.shape.l)) && Ahead(probe, [h.shape.x] + InOrder(h.shape.r))
    requires probe(h.shape.x) > 0 ==> Passed(probe, InOrder(h.shape.l) + [h.shape.x]) && Ahead(probe, InOrder(h.shape.r))
    modifies h, Nodes(h.shape), elm
    ensures h.Valid() && Placed(probe, old(InOrder(h.shape)), InOrder(h.shape), elm)
  {
    LinkedOrder(probe, h.shape, elm);
    var comp := probe(h.root);
    if comp < 0 {
      LinkLeftOf(h, elm);
    } else {
      LinkRightOf(h, elm);
    }
  }

  /** The pointer writes with the old root to the right of `elm`. */
  method OverRight(h: Head, elm: Entry)
    requires h.Sync() && h.root != null && h.root in h.mem.cells && elm !in h.mem.cells
    modifies h`root, h`mem, h.mem.cells.Keys, elm
    ensures h.Sync() && h.root == elm && elm in h.mem.cells
    ensures h.mem.cells.Keys == old(h.mem.cells.Keys) + {elm} && Agree(old(h.mem), h.mem, old(h.mem.cells.Keys) - {old(h.root)})
    ensures h.mem.cells[elm] == Cell(old(h.root.left), old(h.root))
    ensures h.mem.cells[old(h.root)] == Cell(null, old(h.root.right))
  {
    h.Follow(elm);
    h.SetLeft(elm, h.root.left);
    h.SetRight(elm, h.root);
    h.SetLeft(h.root, null);
    h.SetRoot(elm);
  }

  method LinkLeftOf(h: Head, elm: Entry)
    requires h.Valid() && h.shape.T? && elm !in Nodes(h.shape)
    modifies h, Nodes(h.shape), elm
    ensures h.Valid() && h.shape == Linked(old(h.shape), elm, true)
  {
    ghost var m, w := h.mem, h.shape;
    Child(m, w);
    LinkedNodes(w, elm, true);
    OverRight(h, elm);
    InsertedLeft(m, h.mem, w, elm);
    h.shape := Linked(w, elm, true);
  }

  /** The pointer writes with the old root to the left of `elm`. */
  method OverLeft(h: Head, elm: Entry)
    requires h.Sync() && h.root != null && h.root in h.mem.cells && elm !in h.mem.cells
    modifies h`root, h`mem, h.mem.cells.Keys, elm
    ensures h.Sync() && h.root == elm && elm in h.mem.cells
    ensures h.mem.cells.Keys == old(h.mem.cells.Keys) + {elm} && Agree(old(h.mem), h.mem, old(h.mem.cells.Keys) - {old(h.root)})
    ensures h.mem.cells[elm] == Cell(old(h.root), old(h.root.right))
    ensures h.mem.cells[old(h.root)] == Cell(old(h.root.left), null)
  {
    h.Follow(elm);
    h.SetRight(elm, h.root.right);
    h.SetLeft(elm, h.root);
    h.SetRight(h.root, null);
    h.SetRoot(elm);
  }

  method LinkRightOf(h: Head, elm: Entry)
    requires h.Valid() && h.shape.T? && elm !in Nodes(h.shape)
    modifies h, Nodes(h.shape), elm
    ensures h.Valid() && h.shape == Linked(old(h.shape), elm, false)
  {
    ghost var m, w := h.mem, h.shape;
    Child(m, w);
    LinkedNodes(w, elm, false);
    OverLeft(h, elm);
    InsertedRight(m, h.mem, w, elm);
    h.shape := Linked(w, elm, false);
  }

  lemma LinkedOrder(probe: Probe, w: Tree, elm: Entry)
    requires w.T? && probe(w.x) != 0
    requires probe(w.x) < 0 ==> Passed(probe, InOrder(w.l)) && Ahead(probe, [w.x] + InOrder(w.r))
    requires probe(w.x) > 0 ==> Passed(probe, InOrder(w.l) + [w.x]) && Ahead(probe, InOrder(w.r))
    ensures Placed(probe, InOrder(w), InOrder(Linked(w, elm, probe(w.x) < 0)), elm)
  {
    if probe(w.x) < 0 {
      PlacedBetween(probe, InOrder(w.l), elm, [w.x] + InOrder(w.r));
      assert InOrder(T(Leaf, w.x, w.r)) == [w.x] + InOrder(w.r);
      assert InOrder(w) == InOrder(w.l) + ([w.x] + InOrder(w.r));
    } else {
      PlacedBetween(probe, InOrder(w.l) + [w.x], elm, InOrder(w.r));
      assert InOrder(T(w.l, w.x, Leaf)) == InOrder(w.l) + [w.x];
    }
  }

  // Removal.

  ghost method ForgetAll(h: Head, gone: set<Entry>)
    requires h.Sync()
    modifies h`mem
    ensures h.Sync() && h.mem == old(h.mem).(cells := old(h.mem).cells - gone)
  {
    h.mem := h.mem.(cells := h.mem.cells - gone);
  }

  ghost method FollowAll(h: Head, back: map<Entry, Cell>)
    requires h.Sync() && forall x <- back :: back[x] == Cell(x.left, x.right)
    modifies h`mem
    ensures h.Sync() && h.mem == old(h.mem).(cells := old(h.mem).cells + back)
  {
    h.mem := h.mem.(cells := h.mem.cells + back);
  }

  ghost predicate Without(s: seq<Entry>, s': seq<Entry>, x: Entry) {
    exists i :: 0 <= i < |s| && s[i] == x && s' == s[..i] + s[i + 1..]
  }

  lemma WithoutMiddle(a: seq<Entry>, x: Entry, b: seq<Entry>)
    ensures Without(a + [x] + b, a + b, x)
  {
    var s := a + [x] + b;
    assert s[|a|] == x && s[..|a|] == a && s[|a| + 1..] == b;
  }

  /** At most one entry compares equal. */
  ghost predicate Decides(probe: Probe, s: seq<Entry>) {
    forall i, j :: 0 <= i < j < |s| ==> probe(s[i]) != 0 || probe(s[j]) != 0
  }

  lemma MonotoneLeft(probe: Probe, w: Tree)
    requires w.T? && Monotone(probe, InOrder(w)) && Decides(probe, InOrder(w)) && probe(w.x) == 0
    ensures Monotone(probe, InOrder(w.l)) && Passed(probe, InOrder(w.l))
  {
    var s, a := InOrder(w), InOrder(w.l);
    assert s[|a|] == w.x && forall i {:trigger a[i]} | 0 <= i < |a| :: s[i] == a[i];
  }

  /** SPLAY_REMOVE: unlinks the entry that compares equal, if there is one. Were there two, the splay of the
    left subtree could stop at the second and lose its right subtree. */
  method Remove(h: Head, probe: Probe) returns (found: bool)
    requires h.Valid() && Monotone(probe, InOrder(h.shape)) && Decides(probe, InOrder(h.shape))
    modifies h, Nodes(h.shape)
    ensures h.Valid()
    ensures found ==> exists x <- old(Nodes(h.shape)) :: probe(x) == 0 && Without(old(InOrder(h.shape)), InOrder(h.shape), x)
    ensures !found ==> InOrder(h.shape) == old(InOrder(h.shape)) && forall x <- Nodes(h.shape) :: probe(x) != 0
  {
    if h.root == null {
      return false;
    }
    Splay(h, probe);
    RootInNodes(h.shape);
    if probe(h.root) == 0 {
      ghost var w := h.shape;
      WithoutMiddle(InOrder(w.l), w.x, InOrder(w.r));
      Child(h.mem, w);
      if h.root.left == null {
        DropRoot(h);
      } else {
        MonotoneLeft(probe, w);
        MergeChildren(h, probe);
      }
      assert probe(w.x) == 0 && w.x in Nodes(w);
      return true;
    }
    SplayedMissing(probe, h.shape);
    return false;
  }

  /** SPLAY_REMOVE when the root has no left child. */
  method DropRoot(h: Head)
    requires h.Valid() && h.shape.T? && h.shape.l.Leaf?
    modifies h
    ensures h.Valid() && h.shape == old(h.shape.r)
    ensures InOrder(h.shape) == old(InOrder(h.shape.l) + InOrder(h.shape.r))
  {
    ghost var m, w := h.mem, h.shape;
    Child(m, w);
    h.SetRoot(h.root.right);
    h.Forget(w.x);
    KeepTree(m, h.mem, w.r);
    h.shape := w.r;
  }

  /** SPLAY_REMOVE when it has one: splaying the left subtree brings up its last entry, which has no right
    child and takes the old right subtree. */
  method MergeChildren(h: Head, probe: Probe)
    requires h.Valid() && h.shape.T? && h.shape.l.T?
    requires Monotone(probe, InOrder(h.shape.l)) && Passed(probe, InOrder(h.shape.l))
    modifies h, Nodes(h.shape)
    ensures h.Valid() && InOrder(h.shape) == old(InOrder(h.shape.l) + InOrder(h.shape.r))
  {
    ghost var m, w := h.mem, h.shape;
    var tmp := Detach(h);
    Splay(h, probe);
    LastOnTop(probe, h.shape);
    Attach(h, tmp, m, w.r);
  }

  /** Leaves only the left subtree in the tree. */
  method Detach(h: Head) returns (tmp: Entry?)
    requires h.Valid() && h.shape.T? && h.shape.l.T?
    modifies h
    ensures h.Valid() && h.shape == old(h.shape.l) && tmp == Root(old(h.shape.r))
  {
    ghost var m, w := h.mem, h.shape;
    Child(m, w);
    tmp := h.root.right;
    h.SetRoot(h.root.left);
    ForgetAll(h, Nodes(w.r) + {w.x});
    KeepTree(m, h.mem, w.l);
    h.shape := w.l;
  }

  /** Puts a tree that was detached under the root, on the right. */
  method Attach(h: Head, tmp: Entry?, ghost m: Mem, ghost r: Tree)
    requires h.Valid() && h.shape.T? && h.shape.r.Leaf? && tmp == Root(r)
    requires IsTree(m, r) && Apart(r) && Nodes(r) !! Nodes(h.shape) && Nodes(r) <= m.cells.Keys
    requires forall x <- Nodes(r) :: m.cells[x] == Cell(x.left, x.right)
    modifies h, Nodes(h.shape)
    ensures h.Valid() && InOrder(h.shape) == old(InOrder(h.shape)) + InOrder(r)
  {
    hide IsTree, Nodes, Apart, InOrder;
    ghost var m1, w := h.mem, h.shape;
    RightNodes(w, r);
    RootInNodes(w);
    Graft(h, tmp, map x | x in Nodes(r) :: m.cells[x]);
    RightAttached(m, m1, h.mem, w, r);
    h.shape := T(w.l, w.x, r);
  }

  /** When everything in the tree is passed, the splayed root is the last entry in order. */
  lemma LastOnTop(probe: Probe, w: Tree)
    requires Splayed(probe, w) && Passed(probe, InOrder(w))
    ensures w.r.Leaf?
  {
    InOrderNodes(w.r);
    RootInNodes(w.r);
  }

  method Graft(h: Head, tmp: Entry?, ghost back: map<Entry, Cell>)
    requires h.Sync() && h.root != null && h.root in h.mem.cells && back.Keys !! h.mem.cells.Keys
    requires forall x <- back :: back[x] == Cell(x.left, x.right)
    modifies h`mem, h.root
    ensures h.Sync() && h.mem.cells.Keys == old(h.mem.cells.Keys) + back.Keys
    ensures h.mem.cells[h.root] == Cell(old(h.root.left), tmp)
    ensures Agree(old(h.mem), h.mem, old(h.mem.cells.Keys) - {h.root})
    ensures forall x <- back :: h.mem.cells[x] == back[x]
  {
    FollowAll(h, back);
    h.SetRight(h.root, tmp);
  }

  lemma RightNodes(w: Tree, r: Tree)
    requires w.T? && w.r.Leaf? && Apart(w) && Apart(r) && Nodes(r) !! Nodes(w)
    ensures var w' := T(w.l, w.x, r);
      Apart(w') && Nodes(w') == Nodes(w) + Nodes(r) && InOrder(w') == InOrder(w) + InOrder(r)
  {
    assert InOrder(w) == InOrder(w.l) + [w.x];
  }

  lemma RightAttached(m: Mem, m1: Mem, m': Mem, w: Tree, r: Tree)
    requires w.T? && w.r.Leaf? && IsTree(m1, w) && Apart(w) && m1.cells.Keys == Nodes(w)
    requires IsTree(m, r) && Nodes(r) !! Nodes(w)
    requires Agree(m, m', Nodes(r)) && Agree(m1, m', Nodes(w) - {w.x})
    requires w.x in m'.cells && m'.cells[w.x] == Cell(m1.cells[w.x].left, Root(r))
    ensures IsTree(m', T(w.l, w.x, r))
  {
    KeepTree(m, m', r);
    KeepTree(m1, m', w.l);
  }
}
