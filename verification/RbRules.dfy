/** The red-black rules on shapes, and on contexts relative to what may be plugged into their hole. */
module RbRules {
  import opened RbNodes

  ghost function RootColor(t: Tree): Color {
    if t.Leaf? then Black else t.c
  }

  ghost function Weight(c: Color): nat {
    if c.Black? then 1 else 0
  }

  /** The number of black nodes on the leftmost path; on every path, when `Balanced`. */
  ghost function BlackHeight(t: Tree): nat {
    match t
    case Leaf => 0
    case T(c, l, _, _) => BlackHeight(l) + Weight(c)
  }

  /** Every path from the root to a leaf has the same number of black nodes. */
  ghost predicate Balanced(t: Tree) {
    match t
    case Leaf => true
    case T(_, l, _, r) => BlackHeight(l) == BlackHeight(r) && Balanced(l) && Balanced(r)
  }

  /** No red node has a red child. */
  ghost predicate NoRedRed(t: Tree) {
    match t
    case Leaf => true
    case T(c, l, _, r) =>
      (c.Red? ==> RootColor(l).Black? && RootColor(r).Black?) && NoRedRed(l) && NoRedRed(r)
  }

  ghost predicate Sorted(s: seq<Node>) {
    forall i, j :: 0 <= i < j < |s| ==> s[i].key < s[j].key
  }

  /** The colour rules that a subtree must keep on its own. */
  ghost predicate Sub(t: Tree) {
    Balanced(t) && NoRedRed(t)
  }

  /** A tree that keeps the colour rules. */
  ghost predicate Colored(t: Tree) {
    Sub(t) && RootColor(t).Black?
  }

  /** A red-black search tree, by keys. */
  ghost predicate RedBlack(t: Tree) {
    Colored(t) && Sorted(InOrder(t))
  }

  /** The context accepts a subtree with root colour `c` and black height `n`. */
  ghost predicate Accepts(k: Ctx, c: Color, n: nat)
    decreases k
  {
    match k
    case Top => c.Black?
    case Lf(pc, _, r, up) =>
      && Sub(r) && BlackHeight(r) == n
      && (pc.Red? ==> c.Black? && RootColor(r).Black?)
      && Accepts(up, pc, n + Weight(pc))
    case Rt(pc, l, _, up) =>
      && Sub(l) && BlackHeight(l) == n
      && (pc.Red? ==> c.Black? && RootColor(l).Black?)
      && Accepts(up, pc, n + Weight(pc))
  }

  /** A plugged tree keeps the colour rules exactly when the context accepts the subtree. */
  lemma {:induction false} PlugRules(k: Ctx, t: Tree)
    ensures Sub(Plug(k, t)) && RootColor(Plug(k, t)).Black?
       <==> Sub(t) && Accepts(k, RootColor(t), BlackHeight(t))
    decreases k
  {
    match k
    case Top =>
    case Lf(c, x, r, up) => PlugRules(up, T(c, t, x, r));
    case Rt(c, l, x, up) => PlugRules(up, T(c, l, x, t));
  }

  // Height.

  ghost function Height(t: Tree): nat {
    match t
    case Leaf => 0
    case T(_, l, _, r) => 1 + if Height(l) < Height(r) then Height(r) else Height(l)
  }

  ghost function Pow2(n: nat): nat {
    if n == 0 then 1 else 2 * Pow2(n - 1)
  }

  lemma {:induction false} Pow2Add(a: nat, b: nat)
    ensures Pow2(a + b) == Pow2(a) * Pow2(b)
    decreases a
  {
    if a > 0 { Pow2Add(a - 1, b); }
  }

  lemma {:induction false} Pow2Monotone(a: nat, b: nat)
    requires a <= b
    ensures Pow2(a) <= Pow2(b)
    decreases b
  {
    if a < b { Pow2Monotone(a, b - 1); }
  }

  lemma {:induction false} BlackHeightBounds(t: Tree)
    requires Sub(t)
    ensures Height(t) <= 2 * BlackHeight(t) + 1 - Weight(RootColor(t))
    ensures Pow2(BlackHeight(t)) <= |InOrder(t)| + 1
  {
    match t
    case Leaf =>
    case T(c, l, x, r) => BlackHeightBounds(l); BlackHeightBounds(r);
  }

  /** The maximum height is 2 log2(n + 1). */
  lemma {:induction false} HeightBound(t: Tree)
    requires Colored(t)
    ensures Pow2(Height(t)) <= (|InOrder(t)| + 1) * (|InOrder(t)| + 1)
  {
    BlackHeightBounds(t);
    Pow2Monotone(Height(t), BlackHeight(t) + BlackHeight(t));
    Pow2Add(BlackHeight(t), BlackHeight(t));
    Square(Pow2(BlackHeight(t)), |InOrder(t)| + 1);
  }

  lemma Square(b: nat, m: nat)
    requires b <= m
    ensures b * b <= m * m
  {
    assert b * b <= b * m;
  }
}
