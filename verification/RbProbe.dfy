/** The comparison of a search or an insertion with the nodes of a red-black tree. */
module RbProbe {
  import opened RbNodes
  import opened RbRules

  /** A search comparison, as a function of the key of the node it is compared with. Along the in-order
    sequence its sign goes from positive over zero to negative. */
  ghost predicate Monotone(probe: int -> int, s: seq<Node>) {
    forall i, j :: 0 <= i < j < |s| ==>
      (probe(s[i].key) < 0 ==> probe(s[j].key) < 0) && (probe(s[j].key) > 0 ==> probe(s[i].key) > 0)
  }

  /** The elements of a sequence around one of them, by index. */
  lemma Parts<X>(a: seq<X>, x: X, b: seq<X>)
    ensures var s := a + [x] + b;
      && |s| == |a| + 1 + |b| && s[|a|] == x
      && (forall i {:trigger a[i]} :: 0 <= i < |a| ==> s[i] == a[i])
      && (forall i {:trigger b[i]} :: 0 <= i < |b| ==> s[|a| + 1 + i] == b[i])
  {
  }

  ghost predicate Passed(probe: int -> int, s: seq<Node>) {
    forall x <- s :: probe(x.key) > 0
  }

  ghost predicate Ahead(probe: int -> int, s: seq<Node>) {
    forall x <- s :: probe(x.key) < 0
  }

  lemma PassedBoth(probe: int -> int, a: seq<Node>, b: seq<Node>)
    ensures Passed(probe, a + b) <==> Passed(probe, a) && Passed(probe, b)
    ensures Ahead(probe, a + b) <==> Ahead(probe, a) && Ahead(probe, b)
  {
    assert forall i | 0 <= i < |a| :: (a + b)[i] == a[i];
    assert forall i | 0 <= i < |b| :: (a + b)[|a| + i] == b[i];
  }

  lemma Pivot(probe: int -> int, a: seq<Node>, x: Node, b: seq<Node>)
    requires Monotone(probe, a + [x] + b)
    ensures probe(x.key) > 0 ==> Passed(probe, a)
    ensures probe(x.key) < 0 ==> Ahead(probe, b)
  {
    Parts(a, x, b);
  }

  lemma Narrow(probe: int -> int, k: Ctx, t: Tree)
    requires t.T? && Monotone(probe, InOrder(Plug(k, t))) && Passed(probe, Pre(k)) && Ahead(probe, Post(k))
    ensures probe(t.x.key) < 0 ==> Ahead(probe, Post(Lf(t.c, t.x, t.r, k)))
    ensures probe(t.x.key) > 0 ==> Passed(probe, Pre(Rt(t.c, t.l, t.x, k)))
  {
    Around(k, t);
    Pivot(probe, Before(k, t), t.x, After(k, t));
    PassedBoth(probe, Pre(k), InOrder(t.l));
    PassedBoth(probe, InOrder(t.l), [t.x]);
    PassedBoth(probe, Pre(k), InOrder(t.l) + [t.x]);
    PassedBoth(probe, InOrder(t.r), Post(k));
    PassedBoth(probe, [t.x], InOrder(t.r));
    PassedBoth(probe, [t.x] + InOrder(t.r), Post(k));
  }

  lemma Missing(probe: int -> int, k: Ctx, w: Tree)
    requires Plug(k, Leaf) == w && Passed(probe, Pre(k)) && Ahead(probe, Post(k))
    ensures forall x <- Nodes(w) :: probe(x.key) != 0
  {
    PlugInOrder(k, Leaf);
    InOrderNodes(w);
  }
}
