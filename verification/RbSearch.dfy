/** RB_FIND, RB_NFIND, RB_MINMAX and RB_NEXT: the read-only loops over a red-black tree. */
module RbSearch {
  import opened Paging
  import opened RbNodes
  import opened RbRules
  import opened RbProbe
  import RbRotate
  import RbRemove

  /** The ordinary comparison of keys. */
  function Compare(key: int): int -> int {
    (k: int) => if key < k then -1 else if key > k then 1 else 0
  }

  /** slab_entry_compare_by_maddr in the search mode SE_SEARCH_MADDR. */
  function ComparePage(maddr: int): int -> int {
    (k: int) => if maddr < k then -1 else if maddr >= k + PAGE_SIZE then 1 else 0
  }

  /** RB_FIND: a node that compares equal, if there is one. */
  method Find(h: Head, probe: int -> int) returns (r: Node?)
    requires h.Valid() && Monotone(probe, InOrder(h.shape))
    ensures r != null ==> r in Nodes(h.shape) && probe(r.key) == 0
    ensures r == null ==> forall x <- Nodes(h.shape) :: probe(x.key) != 0
  {
    var tmp := h.root;
    ghost var k, t := Top, h.shape;
    while tmp != null
      invariant At(h.mem, k, t) && Plug(k, t) == h.shape && tmp == Root(t)
      invariant Passed(probe, Pre(k)) && Ahead(probe, Post(k))
      decreases t
    {
      var comp := probe(tmp.key);
      Narrow(probe, k, t);
      Here(h.mem, k, t);
      if comp < 0 {
        tmp := tmp.left;
        k, t := Lf(t.c, t.x, t.r, k), t.l;
      } else if comp > 0 {
        tmp := tmp.right;
        k, t := Rt(t.c, t.l, t.x, k), t.r;
      } else {
        PlugNodes(k, t);
        return tmp;
      }
      Lower(h.mem, k, t);
    }
    Missing(probe, k, h.shape);
    return null;
  }

  /** The first node of a sequence that does not compare as smaller. */
  ghost predicate FirstFrom(probe: int -> int, s: seq<Node>, r: Node?) {
    if r == null then Passed(probe, s)
    else exists i :: 0 <= i < |s| && s[i] == r && Passed(probe, s[..i]) && probe(r.key) <= 0
  }

  lemma FirstOfPost(probe: int -> int, k: Ctx, res: Node?)
    requires Passed(probe, Pre(k)) && Ahead(probe, Post(k)) && res == if Post(k) == [] then null else Post(k)[0]
    ensures FirstFrom(probe, InOrder(Plug(k, Leaf)), res)
  {
    PlugInOrder(k, Leaf);
    var s := InOrder(Plug(k, Leaf));
    assert s == Pre(k) + Post(k);
    assert s[..|Pre(k)|] == Pre(k);
  }

  /** RB_NFIND: a node that compares equal or, failing that, the first one that is greater. */
  method NFind(h: Head, probe: int -> int) returns (res: Node?)
    requires h.Valid() && Monotone(probe, InOrder(h.shape))
    ensures (res != null && res in Nodes(h.shape) && probe(res.key) == 0) || FirstFrom(probe, InOrder(h.shape), res)
    ensures (exists x <- Nodes(h.shape) :: probe(x.key) == 0) ==> res != null && probe(res.key) == 0
  {
    var tmp := h.root;
    res := null;
    ghost var k, t := Top, h.shape;
    while tmp != null
      invariant At(h.mem, k, t) && Plug(k, t) == h.shape && tmp == Root(t)
      invariant Passed(probe, Pre(k)) && Ahead(probe, Post(k))
      invariant res == if Post(k) == [] then null else Post(k)[0]
      decreases t
    {
      var comp := probe(tmp.key);
      Narrow(probe, k, t);
      Here(h.mem, k, t);
      if comp < 0 {
        res := tmp;
        tmp := tmp.left;
        k, t := Lf(t.c, t.x, t.r, k), t.l;
      } else if comp > 0 {
        tmp := tmp.right;
        k, t := Rt(t.c, t.l, t.x, k), t.r;
      } else {
        PlugNodes(k, t);
        return tmp;
      }
      Lower(h.mem, k, t);
    }
    Missing(probe, k, h.shape);
    FirstOfPost(probe, k, res);
  }

  /** The comparison of keys is monotone on a search tree, and only the key itself compares equal. */
  lemma CompareMonotone(key: int, s: seq<Node>)
    requires Sorted(s)
    ensures Monotone(Compare(key), s)
    ensures forall x <- s :: Compare(key)(x.key) == 0 <==> x.key == key
    ensures forall x, y :: x in s && y in s && Compare(key)(x.key) == 0 && Compare(key)(y.key) == 0 ==> x == y
  {
  }

  /** Pages in the order of their addresses that do not overlap. */
  ghost predicate PagesApart(s: seq<Node>) {
    forall i, j :: 0 <= i < j < |s| ==> s[i].key + PAGE_SIZE <= s[j].key
  }

  /** They are searched monotonically by address, and the page that compares equal is the one that holds the address. */
  lemma ComparePageMonotone(maddr: int, s: seq<Node>)
    requires PagesApart(s)
    ensures Monotone(ComparePage(maddr), s)
    ensures forall x <- s :: ComparePage(maddr)(x.key) == 0 <==> x.key <= maddr < x.key + PAGE_SIZE
    ensures forall x, y :: x in s && y in s && ComparePage(maddr)(x.key) == 0 && ComparePage(maddr)(y.key) == 0 ==> x == y
  {
  }

  /** What RB_FIND answers is the one page that holds the address. */
  lemma OnePage(maddr: int, t: Tree, se: Node?)
    requires PagesApart(InOrder(t))
    requires se != null ==> se in Nodes(t) && ComparePage(maddr)(se.key) == 0
    requires se == null ==> forall x <- Nodes(t) :: ComparePage(maddr)(x.key) != 0
    ensures forall x <- Nodes(t) :: x.key <= maddr < x.key + PAGE_SIZE <==> x == se
  {
    hide ComparePage, PagesApart, InOrder, Nodes, Monotone;
    InOrderNodes(t);
    ComparePageMonotone(maddr, InOrder(t));
  }

  /** slab_find: the one data page of the slab that holds an address, which need not be the start of the page; NULL
    exactly if none does. */
  method FindPage(h: Head, maddr: int) returns (se: Node?)
    requires h.Valid() && PagesApart(InOrder(h.shape))
    ensures se != null ==> se in Nodes(h.shape) && se.key <= maddr < se.key + PAGE_SIZE
    ensures forall x <- Nodes(h.shape) :: x.key <= maddr < x.key + PAGE_SIZE ==> x == se
    ensures se == null <==> forall x <- Nodes(h.shape) :: !(x.key <= maddr < x.key + PAGE_SIZE)
  {
    hide ComparePage, PagesApart, InOrder, Nodes, Monotone;
    ComparePageMonotone(maddr, InOrder(h.shape));
    se := Find(h, ComparePage(maddr));
    OnePage(maddr, h.shape, se);
  }

  /** RB_MINMAX: the first node in order for a negative `val`, the last otherwise. */
  method MinMax(h: Head, val: int) returns (parent: Node?)
    requires h.Valid()
    ensures var s := InOrder(h.shape);
      parent == if s == [] then null else if val < 0 then s[0] else s[|s| - 1]
  {
    var tmp := h.root;
    parent := null;
    ghost var k, t := Top, h.shape;
    while tmp != null
      invariant At(h.mem, k, t) && Plug(k, t) == h.shape && tmp == Root(t) && parent == ParentOf(k)
      invariant val < 0 ==> Pre(k) == [] && (!k.Top? ==> Post(k) != [] && Post(k)[0] == k.x)
      invariant val >= 0 ==> Post(k) == [] && (!k.Top? ==> Pre(k) != [] && Pre(k)[|Pre(k)| - 1] == k.x)
      decreases t
    {
      parent := tmp;
      Here(h.mem, k, t);
      if val < 0 {
        tmp := tmp.left;
        k, t := Lf(t.c, t.x, t.r, k), t.l;
      } else {
        tmp := tmp.right;
        k, t := Rt(t.c, t.l, t.x, k), t.r;
      }
      Lower(h.mem, k, t);
    }
    PlugInOrder(k, Leaf);
  }

  /** `r` follows `elm` in a sequence, or `elm` is the last. */
  ghost predicate Follows(s: seq<Node>, elm: Node, r: Node?) {
    exists i :: 0 <= i < |s| && s[i] == elm && (i + 1 == |s| ==> r == null) && (i + 1 < |s| ==> r == s[i + 1])
  }

  lemma FollowsIn(a: seq<Node>, x: Node, b: seq<Node>)
    ensures Follows(a + [x] + b, x, if b == [] then null else b[0])
  {
    var s := a + [x] + b;
    assert s[|a|] == x && (b != [] ==> s[|a| + 1] == b[0]);
  }

  lemma FollowsHead(k: Ctx, t: Tree, r: Node?)
    requires t.T? && r == if InOrder(t.r) + Post(k) == [] then null else (InOrder(t.r) + Post(k))[0]
    ensures Follows(InOrder(Plug(k, t)), t.x, r)
  {
    Around(k, t);
    FollowsIn(Before(k, t), t.x, After(k, t));
  }

  /** RB_NEXT: the next node in order. */
  method Next(h: Head, elm0: Node) returns (elm: Node?)
    requires h.Valid() && elm0 in Nodes(h.shape)
    ensures Follows(InOrder(h.shape), elm0, elm)
  {
    ghost var k, t := RbRemove.Find(Top, h.shape, elm0);
    Unzip(h.mem, k, t);
    Here(h.mem, k, t);
    if elm0.right != null {
      ghost var ci, s;
      elm, ci, s := RbRemove.Successor(h, elm0, k, t);
      RbRemove.HeadOf(ci, s);
      FollowsHead(k, t, elm);
    } else {
      elm := FirstAbove(h, elm0, k, t);
      FollowsHead(k, t, elm);
    }
  }

  lemma Link(m: Mem, k: Ctx, t: Tree)
    requires At(m, k, t) && t.T? && !k.Top?
    ensures k.x in m.cells && (m.cells[k.x].left == t.x <==> k.Lf?) && (m.cells[k.x].right == t.x <==> k.Rt?)
  {
    RbRotate.RootInNodes(if k.Lf? then k.r else k.l);
  }

  /** The climbing half of RB_NEXT. */
  method FirstAbove(h: Head, elm0: Node, ghost k0: Ctx, ghost t0: Tree) returns (elm: Node?)
    requires h.Sync() && At(h.mem, k0, t0) && t0.T? && elm0 == t0.x
    ensures elm == if Post(k0) == [] then null else Post(k0)[0]
  {
    elm := elm0;
    ghost var k, t := k0, t0;
    Here(h.mem, k, t);
    if !k.Top? { Link(h.mem, k, t); }
    if elm.parent != null && elm == elm.parent.left {
      elm := elm.parent;
    } else {
      while elm.parent != null && elm == elm.parent.right
        invariant At(h.mem, k, t) && t.T? && elm == t.x && Post(k) == Post(k0)
        invariant elm in h.mem.cells && elm.parent == ParentOf(k)
        decreases k
      {
        Link(h.mem, k, t);
        elm := elm.parent;
        Raise(h.mem, k, t);
        k, t := k.up, Fill(k, t);
        Here(h.mem, k, t);
      }
      if !k.Top? { Link(h.mem, k, t); }
      elm := elm.parent;
    }
  }

  /** `r` is before `elm` in a sequence, or `elm` is the first. */
  ghost predicate Precedes(s: seq<Node>, elm: Node, r: Node?) {
    exists i :: 0 <= i < |s| && s[i] == elm && (i == 0 ==> r == null) && (i > 0 ==> r == s[i - 1])
  }

  lemma PrecedesIn(a: seq<Node>, x: Node, b: seq<Node>)
    ensures Precedes(a + [x] + b, x, if a == [] then null else a[|a| - 1])
  {
    var s := a + [x] + b;
    assert s[|a|] == x && (a != [] ==> s[|a| - 1] == a[|a| - 1]);
  }

  lemma PrecedesHead(k: Ctx, t: Tree, r: Node?)
    requires t.T? && r == if Pre(k) + InOrder(t.l) == [] then null else (Pre(k) + InOrder(t.l))[|Pre(k) + InOrder(t.l)| - 1]
    ensures Precedes(InOrder(Plug(k, t)), t.x, r)
  {
    Around(k, t);
    PrecedesIn(Before(k, t), t.x, After(k, t));
  }

  /** RB_PREV: the previous node in order. */
  method Prev(h: Head, elm0: Node) returns (elm: Node?)
    requires h.Valid() && elm0 in Nodes(h.shape)
    ensures Precedes(InOrder(h.shape), elm0, elm)
  {
    ghost var k, t := RbRemove.Find(Top, h.shape, elm0);
    Unzip(h.mem, k, t);
    Here(h.mem, k, t);
    if elm0.left != null {
      elm := Predecessor(h, elm0, k, t);
      PrecedesHead(k, t, elm);
    } else {
      elm := LastBelow(h, elm0, k, t);
      PrecedesHead(k, t, elm);
    }
  }

  /** The descending half of RB_PREV. */
  method Predecessor(h: Head, elm0: Node, ghost k0: Ctx, ghost t0: Tree) returns (elm: Node)
    requires h.Sync() && At(h.mem, k0, t0) && t0.T? && elm0 == t0.x && t0.l.T? && elm0.left == t0.l.x
    ensures InOrder(t0.l) != [] && elm == InOrder(t0.l)[|InOrder(t0.l)| - 1]
  {
    ghost var k, t := Lf(t0.c, t0.x, t0.r, k0), t0.l;
    Lower(h.mem, k, t);
    elm := elm0.left;
    Here(h.mem, k, t);
    while elm.right != null
      invariant At(h.mem, k, t) && t.T? && elm == t.x && elm in h.mem.cells && elm.right == Root(t.r)
      invariant InOrder(t0.l) != [] && InOrder(t) != [] && InOrder(t0.l)[|InOrder(t0.l)| - 1] == InOrder(t)[|InOrder(t)| - 1]
      decreases t
    {
      elm := elm.right;
      k, t := Rt(t.c, t.l, t.x, k), t.r;
      Lower(h.mem, k, t);
      Here(h.mem, k, t);
    }
  }

  /** The climbing half of RB_PREV. */
  method LastBelow(h: Head, elm0: Node, ghost k0: Ctx, ghost t0: Tree) returns (elm: Node?)
    requires h.Sync() && At(h.mem, k0, t0) && t0.T? && elm0 == t0.x
    ensures elm == if Pre(k0) == [] then null else Pre(k0)[|Pre(k0)| - 1]
  {
    elm := elm0;
    ghost var k, t := k0, t0;
    Here(h.mem, k, t);
    if !k.Top? { Link(h.mem, k, t); }
    if elm.parent != null && elm == elm.parent.right {
      elm := elm.parent;
    } else {
      while elm.parent != null && elm == elm.parent.left
        invariant At(h.mem, k, t) && t.T? && elm == t.x && Pre(k) == Pre(k0)
        invariant elm in h.mem.cells && elm.parent == ParentOf(k)
        decreases k
      {
        Link(h.mem, k, t);
        elm := elm.parent;
        Raise(h.mem, k, t);
        k, t := k.up, Fill(k, t);
        Here(h.mem, k, t);
      }
      if !k.Top? { Link(h.mem, k, t); }
      elm := elm.parent;
    }
  }

  /** RB_FOREACH: from the first node to the last, in the order of the keys. */
  method ForEach(h: Head) returns (nodes: seq<Node>)
    requires h.Valid() && Sorted(InOrder(h.shape))
    ensures nodes == InOrder(h.shape)
  {
    hide Sorted, Follows, At;
    ghost var s := InOrder(h.shape);
    nodes := [];
    var x := MinMax(h, -1);
    while x != null
      invariant |nodes| <= |s| && nodes == s[..|nodes|] && x == if |nodes| == |s| then null else s[|nodes|]
      decreases |s| - |nodes|
    {
      ghost var n := |nodes|;
      InTree(h.shape, n);
      nodes := nodes + [x];
      x := Next(h, x);
      NextIndex(s, n, x);
    }
  }

  lemma InTree(t: Tree, n: nat)
    requires n < |InOrder(t)|
    ensures InOrder(t)[n] in Nodes(t)
  {
    InOrderNodes(t);
  }

  lemma NextIndex(s: seq<Node>, n: nat, r: Node?)
    requires Sorted(s) && n < |s| && Follows(s, s[n], r)
    ensures r == if n + 1 == |s| then null else s[n + 1]
  {
    var i :| 0 <= i < |s| && s[i] == s[n] && (i + 1 == |s| ==> r == null) && (i + 1 < |s| ==> r == s[i + 1]);
    assert i == n;
  }
}
