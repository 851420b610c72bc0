/** tpl_pack and the size accounting: tpl_ser_osz. */
module TplPack {
  import opened Wrappers
  import opened Bytes
  import opened TplWords
  import opened TplFormat

  // Sizes, as the packing code adds them up.

  function StrSize(s: Option<seq<byte>>): nat {
    4 + if s.Some? then |s.value| else 0
  }

  function StrsSize(ss: seq<Option<seq<byte>>>): nat {
    if ss == [] then 0 else StrsSize(ss[..|ss| - 1]) + StrSize(ss[|ss| - 1])
  }

  lemma {:induction false} StrsSizeEnc(o: Order, ss: seq<Option<seq<byte>>>)
    ensures StrsSize(ss) == |EncStrs(o, ss)|
  {
    if ss != [] { StrsSizeEnc(o, ss[..|ss| - 1]); }
  }

  lemma Distribute(sz: nat, n: nat)
    ensures sz * (n + 1) == sz * n + sz
  {
  }

  lemma {:induction false} NumsSizeEnc(o: Order, ns: seq<seq<byte>>, sz: nat)
    requires forall n <- ns :: |n| == sz
    ensures sz * |ns| == |EncNums(o, ns)|
  {
    if ns != [] {
      hide NumberIn;
      var n := |ns| - 1;
      NumsSizeEnc(o, ns[..n], sz);
      assert |ns[n]| == sz by { assert ns[n] in ns; }
      Distribute(sz, n);
    }
  }

  const NATIVE := Order(false, false)

  function Size(vals: seq<Val>): nat {
    |EncVals(NATIVE, vals)|
  }

  function SizeRows(rows: seq<Row>): nat {
    |EncRows(NATIVE, rows)|
  }

  // What packing produces.

  /** The value of a child in a new element: what the program set, or the elements packed so far. */
  function Taken(c: Child, addr: Val, elems: seq<seq<Row>>): Val
  {
    if c.Ary? && c.idx < |elems| then Elems(elems[c.idx]) else addr
  }

  /** The values of the first `n` children. */
  function TakenAll(cs: seq<Child>, addrs: seq<Val>, elems: seq<seq<Row>>, n: nat): (vals: seq<Val>)
    requires n <= |addrs| == |cs|
    ensures |vals| == n
  {
    if n == 0 then [] else TakenAll(cs, addrs, elems, n - 1) + [Taken(cs[n - 1], addrs[n - 1], elems)]
  }

  /** What is left of the arrays when the first `n` children have been packed: theirs are empty again. */
  function Cleared(cs: seq<Child>, elems: seq<seq<Row>>, n: nat): (r: seq<seq<Row>>)
    requires n <= |cs|
    ensures |r| == |elems|
  {
    if n == 0 then elems else ClearOne(cs[n - 1], Cleared(cs, elems, n - 1))
  }

  function ClearOne(c: Child, elems: seq<seq<Row>>): (r: seq<seq<Row>>)
    ensures |r| == |elems|
  {
    if c.Ary? && c.idx < |elems| then elems[c.idx := []] else elems
  }

  lemma {:induction false} TakenAt(cs: seq<Child>, addrs: seq<Val>, elems: seq<seq<Row>>, n: nat, k: nat)
    requires k < n <= |addrs| == |cs|
    ensures TakenAll(cs, addrs, elems, n)[k] == Taken(cs[k], addrs[k], elems)
  {
    if k < n - 1 { TakenAt(cs, addrs, elems, n - 1, k); }
  }

  lemma {:induction false} ClearedAt(cs: seq<Child>, elems: seq<seq<Row>>, n: nat, j: nat)
    requires j < |elems| && n <= |cs|
    ensures Cleared(cs, elems, n)[j] == if Ary(j) in cs[..n] then [] else elems[j]
  {
    if n > 0 {
      ClearedAt(cs, elems, n - 1, j);
      assert cs[..n] == cs[..n - 1] + [cs[n - 1]];
    }
  }

  /** What tpl_pack needs of a child: a leaf must hold a value of its type, and an array not more elements than
    a reader can count. */
  ghost predicate FitsLeaf(f: Format, c: Child, v: Val, elems: seq<seq<Row>>) {
    if c.Ary? then c.idx < |elems| ==> 2 * |elems[c.idx]| < LIMIT else Fits(f, c, v)
  }

  ghost predicate FitsLeaves(f: Format, cs: seq<Child>, addr: seq<Val>, elems: seq<seq<Row>>) {
    |addr| == |cs| && forall k :: 0 <= k < |cs| ==> FitsLeaf(f, cs[k], addr[k], elems)
  }

  ghost predicate FitsSome(f: Format, cs: seq<Child>, vals: seq<Val>) {
    |vals| <= |cs| && forall k :: 0 <= k < |vals| ==> Fits(f, cs[k], vals[k])
  }

  ghost predicate FitsAll(f: Format, elems: seq<seq<Row>>) {
    |elems| == |f| && forall j :: 0 <= j < |f| ==> FitsRows(f, f[j], elems[j])
  }

  /** A mapped tpl that is being packed. */
  class Tpl {
    const f: Format
    var root: seq<Val>            // the data of the root's own children; array children live in `elems`
    var elems: seq<seq<Row>>      // the backbone of each A(...) node
    var serOsz: seq<nat>          // ser_osz of each A(...) node

    /** Every node's size is the serialized size of what it holds. */
    ghost predicate Valid()
      reads this
    {
      && WellFormed(f) && |elems| == |serOsz| == |f| && |root| == |f[0]| && FitsAll(f, elems)
      && forall j :: 0 <= j < |f| ==> serOsz[j] == SizeRows(elems[j])
    }

    constructor (f: Format, root: seq<Val>)
      requires WellFormed(f) && |root| == |f[0]|
      ensures Valid() && this.f == f && this.root == root && forall j :: 0 <= j < |f| ==> elems[j] == []
    {
      this.f, this.root := f, root;
      elems := seq(|f|, j => []);
      serOsz := seq(|f|, j => 0);
    }

    /** tpl_pack of packable `i`; `addr` holds what the program has stored for each child. */
    method Pack(i: nat, addr: seq<Val>) returns (rc: int)
      requires Valid() && (i < |f| ==> FitsLeaves(f, f[i], addr, elems))
      modifies this
      ensures Valid() && rc == if i < |f| then 0 else -1
      ensures i >= |f| ==> elems == old(elems) && root == old(root)
      ensures i == 0 ==> elems == old(elems) && forall k :: 0 <= k < |root| ==> root[k] == if f[0][k].Ary? then old(root)[k] else addr[k]
      ensures 0 < i < |f| ==> root == old(root)
      ensures 0 < i < |f| ==> elems == Packed(f[i], addr, old(elems), i)
    {
      if i >= |f| {
        return -1;
      }
      if i == 0 {
        PackRoot(addr);
      } else {
        PackArray(i, addr);
      }
      return 0;
    }

    method PackRoot(addr: seq<Val>)
      requires Valid() && |addr| == |f[0]|
      modifies this`root
      ensures Valid() && forall k :: 0 <= k < |root| ==> root[k] == if f[0][k].Ary? then old(root)[k] else addr[k]
    {
      var k := 0;
      while k < |f[0]|
        invariant 0 <= k <= |f[0]| && |root| == |f[0]|
        invariant forall l :: 0 <= l < k ==> root[l] == if f[0][l].Ary? then old(root)[l] else addr[l]
        invariant forall l :: k <= l < |root| ==> root[l] == old(root)[l]
      {
        if !f[0][k].Ary? {
          root := root[k := addr[k]];
        }
        k := k + 1;
      }
    }

    /** The sizes while packable `i` is being packed: its own includes the values `vals` of the new element. */
    ghost predicate Packing(i: nat, e0: seq<seq<Row>>, vals: seq<Val>)
      reads this
    {
      && i < |f| == |elems| == |serOsz| == |e0| && elems[i] == e0[i]
      && FitsAll(f, elems) && FitsSome(f, f[i], vals)
      && (forall j :: 0 <= j < |f| && j != i ==> serOsz[j] == SizeRows(elems[j]))
      && serOsz[i] == SizeRows(e0[i]) + Size(vals)
    }

    method PackArray(i: nat, addr: seq<Val>)
      requires Valid() && 0 < i < |f| && FitsLeaves(f, f[i], addr, elems)
      modifies this`elems, this`serOsz
      ensures Valid() && elems == Packed(f[i], addr, old(elems), i)
    {
      hide FitsLeaf, Taken, ClearOne, SizeRows, Size, FitsRows, WellFormed;
      var cs := f[i];
      var vals: seq<Val> := [];
      ghost var e0 := elems;
      NoSize();
      var k := 0;
      while k < |cs|
        invariant 0 <= k <= |cs|
        invariant Packing(i, e0, vals)
        invariant vals == TakenAll(cs, addr, e0, k)
        invariant elems == Cleared(cs, e0, k)
      {
        vals := PackChild(i, k, cs[k], addr[k], vals, e0);
        k := k + 1;
      }
      FitsGrown(f, elems, i, vals);
      elems := elems[i := elems[i] + [Row(vals)]];
      RowSize(e0[i], vals);
    }

    /** One child of an array node: its value joins the new element and its size the node's. */
    method PackChild(i: nat, ghost k: nat, c: Child, addr: Val, vals0: seq<Val>, ghost e0: seq<seq<Row>>) returns (vals: seq<Val>)
      requires WellFormed(f) && 0 < i < |f| && k < |f[i]| && c == f[i][k] && FitsLeaf(f, c, addr, e0)
      requires Packing(i, e0, vals0) && |vals0| == k && FitsAll(f, e0) && elems == Cleared(f[i], e0, k)
      modifies this`elems, this`serOsz
      ensures vals == vals0 + [Taken(c, addr, e0)] && elems == ClearOne(c, old(elems))
      ensures Packing(i, e0, vals)
    {
      hide Cleared, WellFormed, SizeRows, Size;
      match c
      case Num(sz, num) =>
        vals := PackNum(i, sz, num, addr, vals0, e0);
      case Bin =>
        vals := vals0 + [addr];
        serOsz := serOsz[i := serOsz[i] + 4 + |addr.b|];
        SizeNext(vals0, addr);
      case Str(num) =>
        vals := PackStr(i, num, addr, vals0, e0);
      case Ary(j) =>
        NotEarlier(f, i, k);
        vals := PackSub(i, k, j, vals0, e0);
    }

    method PackNum(i: nat, sz: nat, num: nat, addr: Val, vals0: seq<Val>, ghost e0: seq<seq<Row>>) returns (vals: seq<Val>)
      requires Packing(i, e0, vals0) && |vals0| < |f[i]| && f[i][|vals0|] == Num(sz, num) && Fits(f, Num(sz, num), addr)
      modifies this`serOsz
      ensures Packing(i, e0, vals) && vals == vals0 + [addr]
    {
      hide SizeRows, Size;
      NumsSizeEnc(NATIVE, addr.ns, sz);
      vals := vals0 + [addr];
      serOsz := serOsz[i := serOsz[i] + sz * num];
      SizeNext(vals0, addr);
    }

    method PackStr(i: nat, num: nat, addr: Val, vals0: seq<Val>, ghost e0: seq<seq<Row>>) returns (vals: seq<Val>)
      requires Packing(i, e0, vals0) && |vals0| < |f[i]| && f[i][|vals0|] == Str(num) && Fits(f, Str(num), addr)
      modifies this`serOsz
      ensures Packing(i, e0, vals) && vals == vals0 + [addr]
    {
      hide SizeRows, Size, FitsAll;
      vals := vals0 + [addr];
      AddStrs(i, addr.ss);
      StrsSizeEnc(NATIVE, addr.ss);
      SizeNext(vals0, addr);
    }

    method AddStrs(i: nat, ss: seq<Option<seq<byte>>>)
      requires i < |serOsz|
      modifies this`serOsz
      ensures serOsz == old(serOsz)[i := old(serOsz[i]) + StrsSize(ss)]
    {
      var fidx := 0;
      while fidx < |ss|
        invariant 0 <= fidx <= |ss|
        invariant serOsz == old(serOsz)[i := old(serOsz[i]) + StrsSize(ss[..fidx])]
      {
        var slen := if ss[fidx].Some? then |ss[fidx].value| + 1 else 0;
        assert ss[..fidx + 1][..fidx] == ss[..fidx];
        serOsz := serOsz[i := serOsz[i] + 4 + if slen > 1 then slen - 1 else 0];
        fidx := fidx + 1;
      }
      assert ss[..fidx] == ss;
    }

    method PackSub(i: nat, ghost k: nat, j: nat, vals0: seq<Val>, ghost e0: seq<seq<Row>>) returns (vals: seq<Val>)
      requires WellFormed(f) && 0 < i < j < |f| && k < |f[i]| && f[i][k] == Ary(j)
      requires Packing(i, e0, vals0) && |vals0| == k && FitsAll(f, e0) && elems == Cleared(f[i], e0, k)
      requires 2 * |e0[j]| < LIMIT
      modifies this`elems, this`serOsz
      ensures Packing(i, e0, vals) && vals == vals0 + [Elems(e0[j])] && elems == old(elems)[j := []]
    {
      hide SizeRows, Size, Cleared;
      NotEarlier(f, i, k);
      ClearedAt(f[i], e0, k, j);
      vals := vals0 + [Elems(elems[j])];
      serOsz := serOsz[i := serOsz[i] + 4 + serOsz[j]];
      ElemsSize(elems[j]);
      SizeNext(vals0, Elems(elems[j]));
      elems := elems[j := []];
      serOsz := serOsz[j := 0];
      NoSize();
    }
  }

  /** The arrays after packable `i` has been packed: one more element, its own array children empty again. */
  function Packed(cs: seq<Child>, addr: seq<Val>, elems: seq<seq<Row>>, i: nat): seq<seq<Row>>
    requires i < |elems| && |addr| == |cs|
  {
    Cleared(cs, elems, |cs|)[i := elems[i] + [Row(TakenAll(cs, addr, elems, |cs|))]]
  }

  lemma FitsGrown(f: Format, elems: seq<seq<Row>>, i: nat, vals: seq<Val>)
    requires FitsAll(f, elems) && i < |f| && FitsSome(f, f[i], vals) && |vals| == |f[i]|
    ensures FitsAll(f, elems[i := elems[i] + [Row(vals)]])
  {
    hide Fits;
    assert FitsVals(f, f[i], vals);
  }

  lemma NotEarlier(f: Format, i: nat, k: nat)
    requires WellFormed(f) && i < |f| && k < |f[i]| && f[i][k].Ary?
    ensures i < f[i][k].idx < |f| && f[i][k] !in f[i][..k]
  {
  }

  lemma RowSize(rows: seq<Row>, vals: seq<Val>)
    ensures SizeRows(rows + [Row(vals)]) == SizeRows(rows) + Size(vals)
  {
    assert (rows + [Row(vals)])[..|rows|] == rows;
  }

  lemma SizeNext(vals: seq<Val>, v: Val)
    ensures Size(vals + [v]) == Size(vals) + |Enc(NATIVE, v)|
  {
    assert (vals + [v])[..|vals|] == vals;
  }

  lemma ElemsSize(rows: seq<Row>)
    ensures |Enc(NATIVE, Elems(rows))| == 4 + SizeRows(rows)
  {
  }

  lemma NoSize()
    ensures Size([]) == 0 && SizeRows([]) == 0
  {
  }
}
