/** Whole runs: any values are packed through tpl_pack, dumped, loaded on a machine of either byte order, and
  unpacked through tpl_unpack. */
module TplRoundTrip {
  import opened Wrappers
  import opened Bytes
  import opened TplWords
  import opened TplFormat
  import opened TplPack
  import opened TplImage
  import opened TplDump
  import opened TplSize
  import opened TplSanity
  import opened TplDecode
  import opened TplUnpack

  // The subtree of a packable.

  ghost predicate Under(f: Format, j: nat, d: nat)
    decreases d
  {
    d == j || exists p: nat :: p < d && IsChild(f, p, d) && Under(f, j, p)
  }

  lemma {:induction false} UnderAbove(f: Format, j: nat, d: nat)
    requires Under(f, j, d)
    ensures j <= d
    decreases d
  {
    if d != j {
      var p: nat :| p < d && IsChild(f, p, d) && Under(f, j, p);
      UnderAbove(f, j, p);
    }
  }

  lemma {:induction false} UnderParent(f: Format, i: nat, j: nat, d: nat)
    requires WellFormed(f) && IsChild(f, i, j) && Under(f, j, d)
    ensures Under(f, i, d)
    decreases d
  {
    if d != j {
      var p: nat :| p < d && IsChild(f, p, d) && Under(f, j, p);
      UnderParent(f, i, j, p);
    } else {
      assert Under(f, i, i);
    }
  }

  /** Neither a packable nor another of its array children lies under one of its array children. */
  lemma Apart(f: Format, i: nat, j: nat, j': nat)
    requires WellFormed(f) && IsChild(f, i, j)
    ensures !Under(f, j, i)
    ensures IsChild(f, i, j') && j' != j ==> !Under(f, j, j')
  {
    if Under(f, j, i) { UnderAbove(f, j, i); }
  }

  // What opening and clearing do to each child.

  lemma Distinct(f: Format, i: nat, k: nat, n: nat)
    requires WellFormed(f) && i < |f| && k < n <= |f[i]| && f[i][k].Ary?
    ensures IsChild(f, i, f[i][k].idx) && i < f[i][k].idx < |f|
    ensures f[i][k] !in f[i][k + 1..n] && f[i][k] !in f[i][..k]
  {
  }

  lemma {:induction false} OpenedAt(f: Format, i: nat, vals: seq<Val>, rest: seq<seq<Row>>, n: nat, k: nat)
    requires WellFormed(f) && i < |f| == |rest| && k < n <= |f[i]| == |vals| && f[i][k].Ary? && vals[k].Elems?
    ensures f[i][k].idx < |rest| && Opened(f[i], vals, rest, n)[f[i][k].idx] == vals[k].rows
  {
    hide WellFormed;
    Distinct(f, i, k, n);
    if k < n - 1 {
      OpenedAt(f, i, vals, rest, n - 1, k);
      assert f[i][n - 1] in f[i][k + 1..n];
    }
  }

  // Reading everything.

  /** Only the subtree of packable `i` has been touched. */
  ghost predicate Beside(f: Format, i: nat, a: seq<seq<Row>>, b: seq<seq<Row>>) {
    |a| == |b| == |f| && forall d :: 0 <= d < |f| && !Under(f, i, d) ==> a[d] == b[d]
  }

  /** The children before `k` of an element have been collected; the arrays of the others are open. */
  ghost predicate Collected(f: Format, i: nat, row: seq<Val>, got: seq<Val>, rest: seq<seq<Row>>, k: nat) {
    && i < |f| == |rest| && k <= |f[i]| == |row| == |got|
    && (forall l :: 0 <= l < |row| && (l < k || !f[i][l].Ary?) ==> got[l] == row[l])
    && (forall l :: k <= l < |row| && f[i][l].Ary? ==> row[l].Elems? && f[i][l].idx < |f| && rest[f[i][l].idx] == row[l].rows)
  }

  lemma JustOpened(f: Format, i: nat, row: seq<Val>, before: seq<Val>, got: seq<Val>, rest: seq<seq<Row>>)
    requires WellFormed(f) && i < |f| == |rest| && FitsVals(f, f[i], row)
    requires Received(f[i], before, row, got, |f[i]|)
    ensures Collected(f, i, row, got, Opened(f[i], row, rest, |f[i]|), 0)
    ensures Opened(f[i], row, rest, |f[i]|)[i] == rest[i]
    ensures Beside(f, i, rest, Opened(f[i], row, rest, |f[i]|))
  {
    hide Opened, WellFormed;
    forall l | 0 <= l < |row| && f[i][l].Ary?
      ensures row[l].Elems? && f[i][l].idx < |f| && Opened(f[i], row, rest, |f[i]|)[f[i][l].idx] == row[l].rows
    {
      OpenedAt(f, i, row, rest, |f[i]|, l);
    }
    NotOwnChild(f, i);
    OpenedOther(f[i], row, rest, |f[i]|, i);
    forall d: nat | d < |f| && !Under(f, i, d)
      ensures Opened(f[i], row, rest, |f[i]|)[d] == rest[d]
    {
      ChildrenUnder(f, i, d);
      OpenedOther(f[i], row, rest, |f[i]|, d);
    }
  }

  lemma ChildrenUnder(f: Format, i: nat, d: nat)
    requires WellFormed(f) && i < |f|
    ensures !Under(f, i, d) ==> Ary(d) !in f[i][..|f[i]|]
  {
    if Ary(d) in f[i][..|f[i]|] {
      assert IsChild(f, i, d);
      assert Under(f, i, i);
    }
  }

  /** One array child has been collected; its subtree holds none of the others. */
  lemma CollectedNext(f: Format, i: nat, row: seq<Val>, got: seq<Val>, rest: seq<seq<Row>>, rest': seq<seq<Row>>, k: nat)
    requires WellFormed(f) && Collected(f, i, row, got, rest, k) && k < |row| && f[i][k].Ary?
    requires Beside(f, f[i][k].idx, rest, rest')
    ensures Collected(f, i, row, got[k := row[k]], rest', k + 1)
    ensures rest'[i] == rest[i] && Beside(f, i, rest, rest')
  {
    hide Under, WellFormed;
    var j := f[i][k].idx;
    Distinct(f, i, k, |f[i]|);
    Apart(f, i, j, i);
    forall l | k < l < |row| && f[i][l].Ary?
      ensures rest'[f[i][l].idx] == rest[f[i][l].idx]
    {
      Distinct(f, i, l, |f[i]|);
      assert f[i][l] in f[i][k + 1..|f[i]|];
      Apart(f, i, j, f[i][l].idx);
    }
    forall d: nat | d < |f| && !Under(f, i, d)
      ensures rest'[d] == rest[d]
    {
      if Under(f, j, d) { UnderParent(f, i, j, d); }
    }
  }

  /** The program's loop over one array: while (tpl_unpack(tn, i) > 0), with a loop like it for each array inside.
    The results of tpl_unpack count the elements down to zero. */
  method Collect(r: Reader, i: nat) returns (rows: seq<Row>, rcs: seq<int>)
    requires r.Valid() && 0 < i < |r.m.f|
    modifies r`num, r`cur, r`rest
    ensures r.Valid() && rows == old(r.rest)[i] && r.rest[i] == [] && Beside(r.m.f, i, old(r.rest), r.rest)
    ensures |rcs| == |rows| + 1 && forall t :: 0 <= t <= |rows| ==> rcs[t] == |rows| - t
    decreases |r.m.f| - i, 2
  {
    hide Cursors, HoldsData, Beside, Under;
    ghost var f := r.m.f;
    var addr := seq(|r.m.f[i]|, _ => Buf([]));
    rows, rcs := [], [];
    Sized(r);
    BesideSame(f, i, r.rest);
    var rc := 1;
    while rc > 0
      invariant r.Valid() && |r.rest| == |f| && rows + r.rest[i] == old(r.rest)[i] && Beside(f, i, old(r.rest), r.rest)
      invariant rc <= 0 ==> r.rest[i] == []
      invariant |rcs| == |rows| + if rc > 0 then 0 else 1
      invariant forall t :: 0 <= t < |rcs| ==> rcs[t] == |old(r.rest)[i]| - t
      decreases |r.rest[i]|, rc
    {
      ghost var before := r.rest;
      var row;
      rc, row := CollectElement(r, i, addr);
      BesideBoth(f, i, old(r.rest), before, r.rest);
      rcs := rcs + [rc];
      if rc > 0 {
        rows := rows + [Row(row)];
      }
    }
  }

  /** One round of the loop. */
  method CollectElement(r: Reader, i: nat, addr: seq<Val>) returns (rc: int, row: seq<Val>)
    requires r.Valid() && 0 < i < |r.m.f| == |r.rest| && |addr| == |r.m.f[i]|
    modifies r`num, r`cur, r`rest
    ensures r.Valid() && |r.rest| == |r.m.f| && rc == |old(r.rest)[i]|
    ensures Beside(r.m.f, i, old(r.rest), r.rest)
    ensures rc == 0 ==> r.rest == old(r.rest)
    ensures rc > 0 ==> Row(row) == old(r.rest)[i][0] && r.rest[i] == old(r.rest)[i][1..]
    decreases |r.m.f| - i, 1
  {
    hide Cursors, HoldsData, Beside, Collected, Under, Opened, Received, WellFormed;
    ghost var f, rest0 := r.m.f, r.rest;
    Sized(r);
    BesideSame(f, i, rest0);
    var got;
    if rest0[i] != [] { FirstFits(r, i); }
    rc, got := r.Unpack(i, addr);
    row := got;
    if rc > 0 {
      ghost var el, rest1 := rest0[i][0].vals, rest0[i := rest0[i][1..]];
      JustOpened(f, i, el, addr, got, rest1);
      BesideTail(f, i, rest0);
      BesideBoth(f, i, rest0, rest1, r.rest);
      ghost var rest2 := r.rest;
      row := CollectRow(r, i, el, got);
      BesideBoth(f, i, rest0, rest2, r.rest);
      Sized(r);
    }
  }

  lemma FirstFits(r: Reader, i: nat)
    requires r.Valid() && i < |r.m.f| == |r.rest| && r.rest[i] != []
    ensures FitsVals(r.m.f, r.m.f[i], r.rest[i][0].vals)
  {
    hide HoldsData, FitsVals;
  }

  lemma BesideTail(f: Format, i: nat, a: seq<seq<Row>>)
    requires i < |a| == |f| && a[i] != []
    ensures Beside(f, i, a, a[i := a[i][1..]])
  {
  }

  lemma BesideSame(f: Format, i: nat, a: seq<seq<Row>>)
    requires |a| == |f|
    ensures Beside(f, i, a, a)
  {
  }

  lemma BesideBoth(f: Format, i: nat, a: seq<seq<Row>>, b: seq<seq<Row>>, c: seq<seq<Row>>)
    requires Beside(f, i, a, b) && Beside(f, i, b, c)
    ensures Beside(f, i, a, c)
  {
  }

  method CollectRow(r: Reader, i: nat, ghost row: seq<Val>, got0: seq<Val>) returns (got: seq<Val>)
    requires r.Valid() && i < |r.m.f| && Collected(r.m.f, i, row, got0, r.rest, 0)
    modifies r`num, r`cur, r`rest
    ensures r.Valid() && got == row && r.rest[i] == old(r.rest)[i] && Beside(r.m.f, i, old(r.rest), r.rest)
    decreases |r.m.f| - i, 0
  {
    hide Cursors, HoldsData, Beside, Under, WellFormed;
    ghost var f := r.m.f;
    got := got0;
    assert |r.rest| == |f| by { Sized(r); }
    BesideSame(f, i, r.rest);
    var k := 0;
    while k < |r.m.f[i]|
      invariant 0 <= k <= |r.m.f[i]| && r.Valid() && |r.rest| == |f|
      invariant Collected(f, i, row, got, r.rest, k)
      invariant r.rest[i] == old(r.rest)[i] && Beside(f, i, old(r.rest), r.rest)
    {
      if r.m.f[i][k].Ary? {
        ghost var before := r.rest;
        Later(r, i, k);
        var sub, _ := Collect(r, r.m.f[i][k].idx);
        CollectedNext(f, i, row, got, before, r.rest, k);
        BesideBoth(f, i, old(r.rest), before, r.rest);
        got := got[k := Elems(sub)];
        Sized(r);
      }
      k := k + 1;
    }
  }

  /** Everything: the root, and every array below it. */
  method CollectAll(r: Reader) returns (vals: seq<Val>)
    requires r.Valid()
    modifies r`num, r`cur, r`rest
    ensures r.Valid() && vals == r.vals
  {
    hide Cursors, Beside, Collected, Under, Opened, Received, WellFormed, Holds, Octothorpes;
    ghost var rest0 := r.rest;
    Sized(r);
    var addr := seq(|r.m.f[0]|, _ => Buf([]));
    var rc, got := r.Unpack(0, addr);
    JustOpened(r.m.f, 0, r.vals, addr, got, rest0);
    vals := CollectRow(r, 0, r.vals, got);
  }

  lemma Sized(r: Reader)
    requires r.Valid()
    ensures |r.rest| == |r.m.f| && WellFormed(r.m.f)
  {
  }

  lemma Later(r: Reader, i: nat, k: nat)
    requires r.Valid() && i < |r.m.f| && k < |r.m.f[i]| && r.m.f[i][k].Ary?
    ensures i < r.m.f[i][k].idx < |r.m.f| && WellFormed(r.m.f)
  {
  }

  // Packing everything.

  /** Nothing is packed below packable `i`. */
  ghost predicate Bare(f: Format, i: nat, elems: seq<seq<Row>>) {
    |elems| == |f| && forall d :: 0 <= d < |f| && d != i && Under(f, i, d) ==> elems[d] == []
  }

  /** The array children before `k` hold the arrays of an element. */
  ghost predicate Filled(f: Format, i: nat, row: seq<Val>, elems: seq<seq<Row>>, k: nat) {
    && i < |f| == |elems| && k <= |f[i]| == |row|
    && forall l :: 0 <= l < k && f[i][l].Ary? ==> row[l].Elems? && f[i][l].idx < |f| && elems[f[i][l].idx] == row[l].rows
  }

  /** ... and everything else below `i` is bare. */
  ghost predicate BareBut(f: Format, i: nat, elems: seq<seq<Row>>, k: nat) {
    && i < |f| == |elems| && k <= |f[i]|
    && forall d :: 0 <= d < |f| && d != i && Under(f, i, d) && Ary(d) !in f[i][..k] ==> elems[d] == []
  }

  lemma BareChild(f: Format, i: nat, elems: seq<seq<Row>>, k: nat)
    requires WellFormed(f) && BareBut(f, i, elems, k) && k < |f[i]| && f[i][k].Ary?
    ensures Bare(f, f[i][k].idx, elems) && elems[f[i][k].idx] == []
  {
    hide WellFormed;
    var j := f[i][k].idx;
    Distinct(f, i, k, |f[i]|);
    assert Under(f, i, i);
    assert Under(f, i, j);
    forall d: nat | d < |f| && d != j && Under(f, j, d)
      ensures elems[d] == []
    {
      UnderParent(f, i, j, d);
      UnderAbove(f, j, d);
      NotSibling(f, i, j, d, k);
    }
  }

  lemma NotSibling(f: Format, i: nat, j: nat, d: nat, k: nat)
    requires WellFormed(f) && IsChild(f, i, j) && Under(f, j, d) && d != j && k <= |f[i]|
    ensures Ary(d) !in f[i][..k]
  {
    if Ary(d) in f[i][..k] {
      assert IsChild(f, i, d);
      Apart(f, i, j, d);
    }
  }

  lemma FilledNext(f: Format, i: nat, row: seq<Val>, elems: seq<seq<Row>>, elems': seq<seq<Row>>, k: nat)
    requires WellFormed(f) && Filled(f, i, row, elems, k) && BareBut(f, i, elems, k) && k < |row| && f[i][k].Ary? && row[k].Elems?
    requires f[i][k].idx < |elems'| && Beside(f, f[i][k].idx, elems, elems') && elems'[f[i][k].idx] == row[k].rows && Bare(f, f[i][k].idx, elems')
    ensures Filled(f, i, row, elems', k + 1) && BareBut(f, i, elems', k + 1)
    ensures elems'[i] == elems[i] && Beside(f, i, elems, elems')
  {
    hide Under, WellFormed;
    var j := f[i][k].idx;
    Distinct(f, i, k, |f[i]|);
    Apart(f, i, j, i);
    forall l | 0 <= l < k && f[i][l].Ary?
      ensures elems'[f[i][l].idx] == elems[f[i][l].idx]
    {
      Distinct(f, i, l, |f[i]|);
      assert f[i][l] in f[i][..k];
      Apart(f, i, j, f[i][l].idx);
    }
    forall d: nat | d < |f| && d != i && Under(f, i, d) && Ary(d) !in f[i][..k + 1]
      ensures elems'[d] == []
    {
      assert f[i][..k + 1] == f[i][..k] + [f[i][k]];
    }
    forall d: nat | d < |f| && !Under(f, i, d)
      ensures elems'[d] == elems[d]
    {
      if Under(f, j, d) { UnderParent(f, i, j, d); }
    }
  }

  lemma FilledSkip(f: Format, i: nat, row: seq<Val>, elems: seq<seq<Row>>, k: nat)
    requires Filled(f, i, row, elems, k) && BareBut(f, i, elems, k) && k < |row| && !f[i][k].Ary?
    ensures Filled(f, i, row, elems, k + 1) && BareBut(f, i, elems, k + 1)
  {
    assert f[i][..k + 1] == f[i][..k] + [f[i][k]];
  }

  lemma {:induction false} TakenIs(f: Format, i: nat, row: seq<Val>, elems: seq<seq<Row>>, n: nat)
    requires Filled(f, i, row, elems, |row|) && n <= |row|
    ensures TakenAll(f[i], row, elems, n) == row[..n]
  {
    if n > 0 {
      TakenIs(f, i, row, elems, n - 1);
      assert row[..n] == row[..n - 1] + [row[n - 1]];
    }
  }

  /** Packing the element leaves everything below it bare again. */
  lemma ClearedBare(f: Format, i: nat, elems: seq<seq<Row>>, elems': seq<seq<Row>>)
    requires WellFormed(f) && i < |f| && BareBut(f, i, elems, |f[i]|)
    requires |elems'| == |elems| && forall d :: 0 <= d < |elems| && d != i ==> elems'[d] == Cleared(f[i], elems, |f[i]|)[d]
    ensures Bare(f, i, elems') && Beside(f, i, elems, elems')
  {
    hide Under, Cleared, WellFormed;
    SelfUnder(f, i);
    forall d: nat | d < |f| && d != i
      ensures Under(f, i, d) ==> elems'[d] == []
      ensures !Under(f, i, d) ==> elems'[d] == elems[d]
    {
      ClearedAt(f[i], elems, |f[i]|, d);
      ChildrenUnder(f, i, d);
    }
  }

  lemma SelfUnder(f: Format, i: nat)
    ensures Under(f, i, i)
  {
  }

  /** For each element, the arrays inside it are packed first. */
  method PackRows(t: Tpl, i: nat, rows: seq<Row>)
    requires t.Valid() && 0 < i < |t.f| && FitsRows(t.f, t.f[i], rows) && Bare(t.f, i, t.elems)
    modifies t
    ensures t.Valid() && t.root == old(t.root)
    ensures t.elems[i] == old(t.elems)[i] + rows && Bare(t.f, i, t.elems) && Beside(t.f, i, old(t.elems), t.elems)
    decreases rows, 2
  {
    hide Beside, Bare, Under, FitsAll, FitsVals, SizeRows;
    var n := 0;
    BesideSame(t.f, i, t.elems);
    while n < |rows|
      invariant 0 <= n <= |rows| && t.Valid() && t.root == old(t.root)
      invariant t.elems[i] == old(t.elems)[i] + rows[..n] && Bare(t.f, i, t.elems) && Beside(t.f, i, old(t.elems), t.elems)
    {
      ghost var before := t.elems;
      PackElement(t, i, rows[n].vals);
      BesideBoth(t.f, i, old(t.elems), before, t.elems);
      n := n + 1;
    }
  }

  method PackElement(t: Tpl, i: nat, row: seq<Val>)
    requires t.Valid() && 0 < i < |t.f| && FitsVals(t.f, t.f[i], row) && Bare(t.f, i, t.elems)
    modifies t
    ensures t.Valid() && t.root == old(t.root)
    ensures t.elems[i] == old(t.elems)[i] + [Row(row)] && Bare(t.f, i, t.elems) && Beside(t.f, i, old(t.elems), t.elems)
    decreases row, 3
  {
    hide Beside, Bare, Under, FitsAll, SizeRows, Cleared, BareBut, WellFormed, FitsVals, FitsLeaves, TakenAll;
    PackArrays(t, i, row);
    ghost var before := t.elems;
    FilledFits(t.f, i, row, before);
    TakenIs(t.f, i, row, before, |row|);
    assert row[..|row|] == row;
    var rc := t.Pack(i, row);
    ClearedBare(t.f, i, before, t.elems);
    BesideBoth(t.f, i, old(t.elems), before, t.elems);
  }

  lemma FilledFits(f: Format, i: nat, row: seq<Val>, elems: seq<seq<Row>>)
    requires Filled(f, i, row, elems, |row|) && FitsVals(f, f[i], row)
    ensures FitsLeaves(f, f[i], row, elems)
  {
    hide FitsRows;
  }

  method PackArrays(t: Tpl, i: nat, row: seq<Val>)
    requires t.Valid() && i < |t.f| && FitsVals(t.f, t.f[i], row) && Bare(t.f, i, t.elems)
    modifies t
    ensures t.Valid() && t.root == old(t.root) && t.elems[i] == old(t.elems)[i]
    ensures Filled(t.f, i, row, t.elems, |row|) && BareBut(t.f, i, t.elems, |t.f[i]|) && Beside(t.f, i, old(t.elems), t.elems)
    decreases row, 2
  {
    hide Beside, Under, FitsAll, SizeRows, FitsRows, FitsStr, WellFormed;
    var k := 0;
    BesideSame(t.f, i, t.elems);
    while k < |row|
      invariant 0 <= k <= |row| && t.Valid() && t.root == old(t.root) && t.elems[i] == old(t.elems)[i]
      invariant Filled(t.f, i, row, t.elems, k) && BareBut(t.f, i, t.elems, k) && Beside(t.f, i, old(t.elems), t.elems)
    {
      if t.f[i][k].Ary? {
        ghost var before, j := t.elems, t.f[i][k].idx;
        Distinct(t.f, i, k, |t.f[i]|);
        BareChild(t.f, i, t.elems, k);
        assert Fits(t.f, t.f[i][k], row[k]);
        PackRows(t, t.f[i][k].idx, row[k].rows);
        assert t.elems[j] == row[k].rows;
        FilledNext(t.f, i, row, before, t.elems, k);
        BesideBoth(t.f, i, old(t.elems), before, t.elems);
      } else {
        FilledSkip(t.f, i, row, t.elems, k);
      }
      k := k + 1;
    }
  }

  /** The whole tpl: the arrays, then the root. */
  method PackAll(t: Tpl, m: Map, vals: seq<Val>)
    requires t.Valid() && Mapped(m) && t.f == m.f && FitsVals(m.f, m.f[0], vals) && Bare(m.f, 0, t.elems)
    modifies t
    ensures Dumpable(t, m) && RootVals(t) == vals
  {
    hide Beside, Bare, Under, FitsAll, SizeRows, BareBut, WellFormed, FitsVals, FitsLeaves, TakenAll, Octothorpes, FMT_CHARS;
    WellFormedRefs(m.f);
    PackArrays(t, 0, vals);
    FilledFits(t.f, 0, vals, t.elems);
    var rc := t.Pack(0, vals);
    RootTaken(t.f, vals, t.root, t.elems, |vals|);
    assert vals[..|vals|] == vals;
  }

  lemma {:induction false} RootTaken(f: Format, vals: seq<Val>, root: seq<Val>, elems: seq<seq<Row>>, n: nat)
    requires |f| > 0 && Filled(f, 0, vals, elems, |vals|) && n <= |vals| == |root|
    requires forall k :: 0 <= k < |root| && !f[0][k].Ary? ==> root[k] == vals[k]
    ensures TakenAll(f[0], root, elems, n) == vals[..n]
  {
    if n > 0 {
      RootTaken(f, vals, root, elems, n - 1);
      assert vals[..n] == vals[..n - 1] + [vals[n - 1]];
    }
  }

  // The same values in the memory of a machine of the other kind: every number has its bytes the other way round.

  function MirrorNums(ns: seq<seq<byte>>): (r: seq<seq<byte>>)
    ensures |r| == |ns| && forall k :: 0 <= k < |ns| ==> r[k] == Reverse(ns[k])
  {
    if ns == [] then [] else MirrorNums(ns[..|ns| - 1]) + [Reverse(ns[|ns| - 1])]
  }

  function Mirror(v: Val): (r: Val)
    decreases v, 0
  {
    match v
    case Nums(ns) => Nums(MirrorNums(ns))
    case Elems(rows) => Elems(MirrorRows(rows))
    case _ => v
  }

  function MirrorRows(rows: seq<Row>): (r: seq<Row>)
    ensures |r| == |rows|
    decreases rows, 1
  {
    if rows == [] then [] else MirrorRows(rows[..|rows| - 1]) + [Row(MirrorVals(rows[|rows| - 1].vals))]
  }

  function MirrorVals(vals: seq<Val>): (r: seq<Val>)
    ensures |r| == |vals|
    decreases vals, 1
  {
    if vals == [] then [] else MirrorVals(vals[..|vals| - 1]) + [Mirror(vals[|vals| - 1])]
  }

  lemma {:induction false} MirrorEncNums(o: Order, ns: seq<seq<byte>>)
    ensures EncNums(Order(o.big, !o.x), ns) == EncNums(Order(!o.big, o.x), MirrorNums(ns))
  {
    if ns != [] {
      var n := |ns| - 1;
      MirrorEncNums(o, ns[..n]);
      ReverseTwice(ns[n]);
      var r := MirrorNums(ns);
      assert r[..n] == MirrorNums(ns[..n]) && r[n] == Reverse(ns[n]);
    }
  }

  lemma OtherWord(o: Order, n: nat)
    ensures WordIn(Order(o.big, !o.x), n) == WordIn(Order(!o.big, o.x), n)
  {
    hide LittleEndian, Reverse;
    ReverseTwice(LittleEndian(n % LIMIT));
    ReverseTwice(Reverse(LittleEndian(n % LIMIT)));
  }

  lemma {:induction false} OtherStrs(o: Order, ss: seq<Option<seq<byte>>>)
    ensures EncStrs(Order(o.big, !o.x), ss) == EncStrs(Order(!o.big, o.x), ss)
  {
    hide WordIn;
    if ss != [] {
      OtherStrs(o, ss[..|ss| - 1]);
      var s := ss[|ss| - 1];
      OtherWord(o, if s.Some? then |s.value| + 1 else 0);
    }
  }

  /** Byte-swapping a whole image gives what a machine of the other kind writes for the same values. */
  lemma {:induction false} MirrorEnc(o: Order, v: Val)
    ensures Enc(Order(o.big, !o.x), v) == Enc(Order(!o.big, o.x), Mirror(v))
    decreases v, 0
  {
    hide WordIn;
    match v
    case Nums(ns) => MirrorEncNums(o, ns);
    case Strs(ss) => OtherStrs(o, ss);
    case Buf(b) => OtherWord(o, |b|);
    case Elems(rows) =>
      OtherWord(o, |rows|);
      MirrorEncRows(o, rows);
  }

  lemma {:induction false} MirrorEncRows(o: Order, rows: seq<Row>)
    ensures EncRows(Order(o.big, !o.x), rows) == EncRows(Order(!o.big, o.x), MirrorRows(rows))
    decreases rows, 1
  {
    hide EncVals, MirrorVals;
    if rows != [] {
      var n := |rows| - 1;
      MirrorEncRows(o, rows[..n]);
      MirrorEncVals(o, rows[n].vals);
      var r := MirrorRows(rows);
      assert r[..n] == MirrorRows(rows[..n]) && r[n] == Row(MirrorVals(rows[n].vals));
    }
  }

  lemma {:induction false} MirrorEncVals(o: Order, vals: seq<Val>)
    ensures EncVals(Order(o.big, !o.x), vals) == EncVals(Order(!o.big, o.x), MirrorVals(vals))
    decreases vals, 1
  {
    hide Enc, Mirror;
    if vals != [] {
      var n := |vals| - 1;
      MirrorEncVals(o, vals[..n]);
      MirrorEnc(o, vals[n]);
      var r := MirrorVals(vals);
      assert r[..n] == MirrorVals(vals[..n]) && r[n] == Mirror(vals[n]);
    }
  }

  lemma {:induction false} MirrorFits(f: Format, c: Child, v: Val)
    requires Fits(f, c, v)
    ensures Fits(f, c, Mirror(v))
    decreases v, 0
  {
    match c
    case Num(sz, num) =>
      var r := MirrorNums(v.ns);
      assert forall k :: 0 <= k < |r| ==> |r[k]| == |v.ns[k]| && v.ns[k] in v.ns;
    case Ary(j) => MirrorFitsRows(f, f[j], v.rows);
    case _ =>
  }

  lemma {:induction false} MirrorFitsRows(f: Format, cs: seq<Child>, rows: seq<Row>)
    requires FitsRows(f, cs, rows)
    ensures FitsRows(f, cs, MirrorRows(rows))
    decreases rows, 1
  {
    hide FitsVals;
    if rows != [] {
      var n := |rows| - 1;
      MirrorFitsRows(f, cs, rows[..n]);
      MirrorFitsVals(f, cs, rows[n].vals);
    }
  }

  lemma {:induction false} MirrorFitsVals(f: Format, cs: seq<Child>, vals: seq<Val>)
    requires FitsVals(f, cs, vals)
    ensures FitsVals(f, cs, MirrorVals(vals))
    decreases vals, 1
  {
    hide Fits;
    if vals != [] {
      var n := |vals| - 1;
      MirrorFitsVals(f, cs[..n], vals[..n]);
      MirrorFits(f, cs[n], vals[n]);
    }
  }

  /** The values as the writing machine has them in memory. */
  function AtWriter(vals: seq<Val>, bigWriter: bool, bigReader: bool): seq<Val> {
    if bigWriter == bigReader then vals else MirrorVals(vals)
  }

  lemma WrittenImage(m: Map, vals: seq<Val>, bigWriter: bool, bigReader: bool)
    requires Mapped(m) && FitsVals(m.f, m.f[0], vals)
    ensures FitsVals(m.f, m.f[0], AtWriter(vals, bigWriter, bigReader))
    ensures Image(Order(bigWriter, false), m, AtWriter(vals, bigWriter, bigReader)) == Image(Order(bigReader, bigWriter != bigReader), m, vals)
  {
    hide FitsVals, EncVals, Octothorpes, FMT_CHARS, MirrorVals, WordIn, Flags;
    if bigWriter != bigReader {
      MirrorFitsVals(m.f, m.f[0], vals);
      MirrorEncVals(Order(bigReader, false), vals);
      EncValsLength(NATIVE, Order(bigReader, true), vals);
      EncValsLength(NATIVE, Order(bigWriter, false), MirrorVals(vals));
      OtherWord(Order(bigReader, false), ImageSize(m, vals));
      OtherLens(Order(bigReader, false), m.fxlens);
    }
  }

  lemma {:induction false} OtherLens(o: Order, lens: seq<nat>)
    ensures EncLens(Order(o.big, !o.x), lens) == EncLens(Order(!o.big, o.x), lens)
  {
    hide WordIn;
    if lens != [] {
      OtherLens(o, lens[..|lens| - 1]);
      OtherWord(o, lens[|lens| - 1]);
    }
  }

  /** What can be read from an image is what was put into it. */
  lemma ImageReadable(o: Order, m: Map, vals: seq<Val>)
    requires Mapped(m) && FitsVals(m.f, m.f[0], vals) && Refs(m.f) && |m.f| > 0
    ensures var text := Image(o, m, vals);
      && |text| >= 9 && WayOf(text[3], o.big).o == o && Swapped(text[3], o.big) == o.x
      && Readable(o, text, m) && DataOf(o, text, m) == vals
  {
    hide FitsVals, EncVals, Octothorpes, FMT_CHARS, WordIn, WellFormed, Image, Readable;
    assert Image(o, m, vals) + [] == Image(o, m, vals);
    ImageParts(o, m, vals, []);
    WayOfImage(o, m);
    ReadableExact(o, Image(o, m, vals), m, vals);
  }

  /** Pack, dump, load and unpack: the values come back, whatever the two machines' byte orders. */
  method RoundTrip(m: Map, vals: seq<Val>, bigWriter: bool, bigReader: bool) returns (out: seq<Val>)
    requires Mapped(m) && FitsVals(m.f, m.f[0], vals) && ImageSize(m, vals) < LIMIT
    ensures out == vals
  {
    hide FitsVals, EncVals, Octothorpes, FMT_CHARS, MirrorVals, WordIn, Flags, FitsAll, SizeRows, WellFormed, SaneWith, AtWriter, Image, Readable, WayOf;
    WellFormedRefs(m.f);
    var t := new Tpl(m.f, seq(|m.f[0]|, _ => Buf([])));
    WrittenImage(m, vals, bigWriter, bigReader);
    PackAll(t, m, AtWriter(vals, bigWriter, bigReader));
    var buf, sz := Dump(t, m, bigWriter);
    var r := new Reader(m, bigReader);
    ghost var o := Order(bigReader, bigWriter != bigReader);
    ImageSane(o, m, vals, [], false);
    assert buf[..] == Image(o, m, vals) + [];
    ImageReadable(o, m, vals);
    var rc := r.Load(buf[..], false);
    out := CollectAll(r);
  }
}
