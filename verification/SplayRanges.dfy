/** The splay tree as LibPM uses it: allocations compared by address range. */
module SplayRanges {
  import opened SplayNodes
  import opened SplayTree
  import SplayMap

  /** mallocat_entry_cpm: the comparison of an address with the range of an allocation. */
  function Compare(addr: int): Probe {
    (b: Entry) => if addr < b.addr then -1 else if addr >= b.addr + b.size then 1 else 0
  }

  /** Non-empty allocations in address order that do not overlap. */
  ghost predicate Disjoint(s: seq<Entry>) {
    && (forall i :: 0 <= i < |s| ==> s[i].size > 0)
    && (forall i, j :: 0 <= i < j < |s| ==> s[i].addr + s[i].size <= s[j].addr)
  }

  ghost predicate Contains(e: Entry, addr: int) {
    e.addr <= addr < e.addr + e.size
  }

  ghost predicate Overlap(a: Entry, b: Entry) {
    a.addr < b.addr + b.size && b.addr < a.addr + a.size
  }

  lemma CompareMonotone(addr: int, s: seq<Entry>)
    requires Disjoint(s)
    ensures Monotone(Compare(addr), s) && SplayMap.Decides(Compare(addr), s)
  {
  }

  /** `e` is the only allocation that contains the address; null if none does. */
  ghost predicate Holder(s: seq<Entry>, addr: int, e: Entry?) {
    if e == null then forall x <- s :: !Contains(x, addr) else forall x <- s :: Contains(x, addr) <==> x == e
  }

  /** SPLAY_FIND with an address answers which allocation contains it, and only one does. */
  method Lookup(h: Head, addr: int) returns (e: Entry?)
    requires h.Valid() && Disjoint(InOrder(h.shape))
    modifies h, Nodes(h.shape)
    ensures h.Valid() && InOrder(h.shape) == old(InOrder(h.shape)) && Holder(InOrder(h.shape), addr, e)
  {
    hide Head.Valid, Nodes, InOrder, Disjoint, Monotone, Holder;
    CompareMonotone(addr, InOrder(h.shape));
    e := SplayMap.Find(h, Compare(addr));
    Answered(h.shape, addr, e);
  }

  lemma Answered(t: Tree, addr: int, e: Entry?)
    requires Disjoint(InOrder(t))
    requires if e == null then forall x <- Nodes(t) :: Compare(addr)(x) != 0 else e in Nodes(t) && Compare(addr)(e) == 0
    ensures Holder(InOrder(t), addr, e)
  {
    hide Nodes, InOrder, Disjoint;
    InOrderNodes(t);
    OnlyOne(addr, InOrder(t));
    assert forall x <- InOrder(t) :: Compare(addr)(x) == 0 <==> Contains(x, addr);
  }

  lemma OnlyOne(addr: int, s: seq<Entry>)
    requires Disjoint(s)
    ensures forall x, y :: x in s && y in s && Contains(x, addr) && Contains(y, addr) ==> x == y
  {
  }

  /** `x` fits between two stretches of allocations. */
  ghost predicate Fits(a: seq<Entry>, x: Entry, b: seq<Entry>) {
    (forall y <- a :: y.addr + y.size <= x.addr) && (forall y <- b :: x.addr + x.size <= y.addr)
  }

  lemma FitsDisjoint(a: seq<Entry>, x: Entry, b: seq<Entry>)
    requires Disjoint(a + b) && x.size > 0 && Fits(a, x, b)
    ensures Disjoint(a + [x] + b)
  {
    var s, s' := a + b, a + [x] + b;
    forall i, j | 0 <= i < j < |s'| ensures s'[i].addr + s'[i].size <= s'[j].addr {
      if i != |a| && j != |a| {
        assert s'[i] == s[if i < |a| then i else i - 1] && s'[j] == s[if j < |a| then j else j - 1];
      }
    }
    assert forall i | 0 <= i < |s'| && i != |a| :: s'[i] == s[if i < |a| then i else i - 1];
  }

  lemma DisjointFits(a: seq<Entry>, x: Entry, b: seq<Entry>)
    requires Disjoint(a + [x] + b)
    ensures Fits(a, x, b)
  {
    var s' := a + [x] + b;
    assert s'[|a|] == x;
    assert forall i {:trigger a[i]} | 0 <= i < |a| :: s'[i] == a[i];
    assert forall i {:trigger b[i]} | 0 <= i < |b| :: s'[|a| + 1 + i] == b[i];
  }

  /** With the place decided by the start address, fitting is not overlapping. */
  lemma FitsApart(a: seq<Entry>, x: Entry, b: seq<Entry>)
    requires x.size > 0 && Passed(Compare(x.addr), a) && Ahead(Compare(x.addr), b)
    requires (forall y <- a :: y.size > 0) && (forall y <- b :: y.size > 0)
    ensures Fits(a, x, b) <==> (forall y <- a :: !Overlap(y, x)) && (forall y <- b :: !Overlap(y, x))
  {
  }

  lemma InBoth(a: seq<Entry>, b: seq<Entry>)
    ensures forall x :: x in a + b <==> x in a || x in b
  {
  }

  /** The place of a new allocation depends on its address alone; its size decides whether the ranges stay
    disjoint, because the comparison looks at the size of the entry in the tree only. */
  lemma PlacedDisjoint(s: seq<Entry>, s': seq<Entry>, elm: Entry)
    requires Disjoint(s) && SplayMap.Placed(Compare(elm.addr), s, s', elm) && elm.size > 0
    ensures Disjoint(s') <==> forall x <- s :: !Overlap(x, elm)
  {
    var i :| 0 <= i <= |s| && s' == s[..i] + [elm] + s[i..]
      && Passed(Compare(elm.addr), s[..i]) && Ahead(Compare(elm.addr), s[i..]);
    var a, b := s[..i], s[i..];
    assert s == a + b;
    InBoth(a, b);
    FitsApart(a, elm, b);
    if Disjoint(s') { DisjointFits(a, elm, b); }
    if Fits(a, elm, b) { FitsDisjoint(a, elm, b); }
  }

  /** For example, an allocation of 10 bytes at 5, when 4 bytes at 10 are registered. */
  lemma OverlapPlaced(a: Entry, elm: Entry)
    requires a.addr == 10 && a.size == 4 && elm.addr == 5 && elm.size == 10
    ensures Disjoint([a]) && SplayMap.Placed(Compare(elm.addr), [a], [elm, a], elm)
    ensures Overlap(a, elm) && !Disjoint([elm, a])
  {
    var s, s' := [a], [elm, a];
    assert s' == s[..0] + [elm] + s[0..] && s'[0].addr + s'[0].size > s'[1].addr;
  }

  /** SPLAY_INSERT links it in, and the tree then holds two allocations that overlap. */
  method RegisterOverlap(h: Head, a: Entry, elm: Entry) returns (r: Entry?)
    requires h.Valid() && InOrder(h.shape) == [a] && elm !in Nodes(h.shape)
    requires a.addr == 10 && a.size == 4 && elm.addr == 5 && elm.size == 10
    modifies h, Nodes(h.shape), elm
    ensures h.Valid() && r == null && InOrder(h.shape) == [elm, a] && !Disjoint(InOrder(h.shape))
  {
    hide Nodes, Disjoint, IsTree, Apart, InOrder, Monotone;
    OverlapPlaced(a, elm);
    CompareMonotone(elm.addr, [a]);
    InOrderNodes(h.shape);
    r := SplayMap.Insert(h, elm, Compare(elm.addr));
    InOrderNodes(h.shape);
    if r == null { OnlyPlace(a, elm, InOrder(h.shape)); }
  }

  lemma OnlyPlace(a: Entry, elm: Entry, s: seq<Entry>)
    requires elm.addr < a.addr && SplayMap.Placed(Compare(elm.addr), [a], s, elm)
    ensures s == [elm, a]
  {
    var i :| 0 <= i <= 1 && s == [a][..i] + [elm] + [a][i..] && Passed(Compare(elm.addr), [a][..i]);
    assert i == 0 by { assert [a][..1] == [a] && a in [a]; }
    assert [a][..0] == [] && [a][0..] == [a];
  }

  lemma NoneEqual(t: Tree, elm: Entry, r: Entry?)
    requires elm.size > 0 && forall x <- InOrder(t) :: !Overlap(x, elm)
    ensures r == null || r !in Nodes(t) || Compare(elm.addr)(r) != 0
  {
    InOrderNodes(t);
    hide Nodes, InOrder;
  }

  /** SPLAY_INSERT of an allocation that overlaps none of those registered. */
  method Register(h: Head, elm: Entry) returns (r: Entry?)
    requires h.Valid() && Disjoint(InOrder(h.shape)) && elm.size > 0 && elm !in Nodes(h.shape)
    requires forall x <- InOrder(h.shape) :: !Overlap(x, elm)
    modifies h, Nodes(h.shape), elm
    ensures h.Valid() && Disjoint(InOrder(h.shape)) && r == null
    ensures SplayMap.Placed(Compare(elm.addr), old(InOrder(h.shape)), InOrder(h.shape), elm)
  {
    hide Head.Valid, Nodes, InOrder, Disjoint, Monotone;
    ghost var t := h.shape;
    CompareMonotone(elm.addr, InOrder(t));
    r := SplayMap.Insert(h, elm, Compare(elm.addr));
    if r != null { NoneEqual(h.shape, elm, r); }
    PlacedDisjoint(InOrder(t), InOrder(h.shape), elm);
  }
}
