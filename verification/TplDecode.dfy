/** What is read from a buffer, whatever it holds, and which buffers hold serialized values. */
module TplDecode {
  import opened Wrappers
  import opened Bytes
  import opened TplWords
  import opened TplFormat
  import opened TplImage
  import opened TplSize
  import opened TplSanity

  /** tpl_unpack never reads strings in the older form, since tpl_load overwrites the flag for it. */
  function Plus1(o: Order): Way {
    Way(o, false)
  }

  // The values at the cursor. They mean something where `End` and its kin say that the data is inside the buffer.

  function NumsAt(o: Order, text: seq<byte>, sz: nat, num: nat, dv: nat): (r: seq<seq<byte>>)
    decreases num
  {
    if num == 0 || dv + sz > |text| then [] else [NumberIn(o, text[dv..dv + sz])] + NumsAt(o, text, sz, num - 1, dv + sz)
  }

  /** One string: a zero word is NULL, and any other word is the length plus one. */
  function StrAt(o: Order, text: seq<byte>, dv: nat): Option<seq<byte>>
    requires dv + 4 <= |text| && dv + 4 + StrBytes(Plus1(o), ReadAt(o, text, dv)) <= |text|
  {
    var slen := ReadAt(o, text, dv);
    if slen > 0 then Some(text[dv + 4..dv + 4 + (slen - 1)]) else None
  }

  function StrsAt(o: Order, text: seq<byte>, num: nat, dv: nat): (r: seq<Option<seq<byte>>>)
    decreases num
  {
    if num == 0 || dv + 4 > |text| || dv + 4 + StrBytes(Plus1(o), ReadAt(o, text, dv)) > |text| then []
    else [StrAt(o, text, dv)] + StrsAt(o, text, num - 1, dv + 4 + StrBytes(Plus1(o), ReadAt(o, text, dv)))
  }

  function ValAt(o: Order, text: seq<byte>, f: Format, c: Child, i: nat, dv: nat): Val
    requires Refs(f) && (c.Ary? ==> i < c.idx < |f|)
    decreases |f| - i, 0, 0
  {
    match c
    case Num(sz, num) => Nums(NumsAt(o, text, sz, num, dv))
    case Str(num) => Strs(StrsAt(o, text, num, dv))
    case Bin =>
      if dv + 4 > |text| || dv + 4 + ReadAt(o, text, dv) > |text| then Buf([])
      else Buf(text[dv + 4..dv + 4 + ReadAt(o, text, dv)])
    case Ary(j) =>
      if dv + 4 > |text| then Elems([]) else Elems(RowsAt(o, text, f, j, Signed(ReadAt(o, text, dv)), dv + 4))
  }

  function RowsAt(o: Order, text: seq<byte>, f: Format, i: nat, num: int, dv: nat): seq<Row>
    requires Refs(f) && i < |f|
    decreases |f| - i, 2, if num > 0 then num else 0
  {
    if num <= 0 then []
    else
      match EndVals(Plus1(o), text, f, i, 0, dv)
      case None => []
      case Some(e) => [Row(ValsAt(o, text, f, i, 0, dv))] + RowsAt(o, text, f, i, num - 1, e)
  }

  function ValsAt(o: Order, text: seq<byte>, f: Format, i: nat, k: nat, dv: nat): seq<Val>
    requires Refs(f) && i < |f| && k <= |f[i]|
    decreases |f| - i, 1, |f[i]| - k
  {
    if k == |f[i]| then []
    else
      match End(Plus1(o), text, f, i, f[i][k], dv)
      case None => []
      case Some(e) => [ValAt(o, text, f, f[i][k], i, dv)] + ValsAt(o, text, f, i, k + 1, e)
  }

  // What tpl_serlen does not look at: a NUL inside a string, and an array count of 2^31 or more, which it reads as
  // a negative number and takes for 0.

  predicate CleanStrs(o: Order, text: seq<byte>, num: nat, dv: nat)
    decreases num
  {
    num > 0 && dv + 4 <= |text| && dv + 4 + StrBytes(Plus1(o), ReadAt(o, text, dv)) <= |text| ==>
      var e := dv + 4 + StrBytes(Plus1(o), ReadAt(o, text, dv));
      0 !in text[dv + 4..e] && CleanStrs(o, text, num - 1, e)
  }

  predicate Clean(o: Order, text: seq<byte>, f: Format, c: Child, i: nat, dv: nat)
    requires Refs(f) && (c.Ary? ==> i < c.idx < |f|)
    decreases |f| - i, 0, 0
  {
    match c
    case Num(sz, num) => true
    case Str(num) => CleanStrs(o, text, num, dv)
    case Bin => true
    case Ary(j) =>
      dv + 4 <= |text| ==>
        var num := Signed(ReadAt(o, text, dv));
        num >= 0 && CleanRows(o, text, f, j, num, dv + 4)
  }

  predicate CleanRows(o: Order, text: seq<byte>, f: Format, i: nat, num: int, dv: nat)
    requires Refs(f) && i < |f|
    decreases |f| - i, 2, if num > 0 then num else 0
  {
    num > 0 ==>
      && CleanVals(o, text, f, i, 0, dv)
      && var e := EndVals(Plus1(o), text, f, i, 0, dv);
        e.Some? ==> CleanRows(o, text, f, i, num - 1, e.value)
  }

  predicate CleanVals(o: Order, text: seq<byte>, f: Format, i: nat, k: nat, dv: nat)
    requires Refs(f) && i < |f| && k <= |f[i]|
    decreases |f| - i, 1, |f[i]| - k
  {
    k < |f[i]| ==>
      && Clean(o, text, f, f[i][k], i, dv)
      && var e := End(Plus1(o), text, f, i, f[i][k], dv);
        e.Some? ==> CleanVals(o, text, f, i, k + 1, e.value)
  }

  // Clean data is the serialized form of the values read from it.

  lemma OneNum(o: Order, n: seq<byte>, ns: seq<seq<byte>>)
    ensures EncNums(o, [n] + ns) == NumberIn(o, n) + EncNums(o, ns)
  {
    hide NumberIn;
    EncNumsSplit(o, [n], ns);
    assert [n][..0] == [];
    NoEnc(o);
  }

  lemma OneStr(o: Order, s: Option<seq<byte>>, ss: seq<Option<seq<byte>>>)
    ensures EncStrs(o, [s] + ss) == EncStr(o, s) + EncStrs(o, ss)
  {
    hide EncStr;
    EncStrsSplit(o, [s], ss);
    assert [s][..0] == [];
    NoEnc(o);
  }

  lemma OneRow(o: Order, r: Row, rows: seq<Row>)
    ensures EncRows(o, [r] + rows) == EncVals(o, r.vals) + EncRows(o, rows)
  {
    hide EncVals;
    EncRowsSplit(o, [r], rows);
    assert [r][..0] == [];
    NoEnc(o);
  }

  lemma OneVal(o: Order, v: Val, vals: seq<Val>)
    ensures EncVals(o, [v] + vals) == Enc(o, v) + EncVals(o, vals)
  {
    hide Enc;
    EncValsSplit(o, [v], vals);
    assert [v][..0] == [];
    assert EncVals(o, []) == [];
  }

  lemma {:induction false} NumsThere(o: Order, text: seq<byte>, sz: nat, num: nat, dv: nat)
    requires EndNums(text, sz, num, dv).Some? && dv <= |text|
    ensures var ns := NumsAt(o, text, sz, num, dv);
      && |ns| == num && (forall n <- ns :: |n| == sz)
      && Holds(text, dv, EncNums(o, ns)) && EndNums(text, sz, num, dv) == Some(dv + |EncNums(o, ns)|)
    decreases num
  {
    hide NumberIn, EncNums, Holds;
    if num == 0 {
      NoEnc(o);
      NothingThere(text, dv);
    } else {
      NumThere(o, text, dv, sz);
      NumsThere(o, text, sz, num - 1, dv + sz);
      var n, ns := NumberIn(o, text[dv..dv + sz]), NumsAt(o, text, sz, num - 1, dv + sz);
      OneNum(o, n, ns);
      Joined(text, dv, NumberIn(o, n), EncNums(o, ns));
    }
  }

  lemma SliceThere(text: seq<byte>, dv: nat, n: nat)
    requires dv + n <= |text|
    ensures Holds(text, dv, text[dv..dv + n])
  {
  }

  lemma NothingThere(text: seq<byte>, dv: nat)
    requires dv <= |text|
    ensures Holds(text, dv, [])
  {
  }

  lemma NumThere(o: Order, text: seq<byte>, dv: nat, sz: nat)
    requires dv + sz <= |text|
    ensures var n := NumberIn(o, text[dv..dv + sz]); |n| == sz && |NumberIn(o, n)| == sz && Holds(text, dv, NumberIn(o, n))
  {
    NumberTwice(o, text[dv..dv + sz]);
  }

  lemma StrThere(o: Order, text: seq<byte>, dv: nat)
    requires dv + 4 <= |text| && dv + 4 + StrBytes(Plus1(o), ReadAt(o, text, dv)) <= |text|
    requires 0 !in text[dv + 4..dv + 4 + StrBytes(Plus1(o), ReadAt(o, text, dv))]
    ensures var s := StrAt(o, text, dv);
      && FitsStr(s) && Holds(text, dv, EncStr(o, s)) && |EncStr(o, s)| == 4 + StrBytes(Plus1(o), ReadAt(o, text, dv))
  {
    hide WordIn, ReadWord;
    WordThere(o, text, dv);
    var s := StrAt(o, text, dv);
    if s.Some? { Joined(text, dv, WordIn(o, |s.value| + 1), s.value); }
  }

  lemma {:induction false} StrsThere(o: Order, text: seq<byte>, num: nat, dv: nat)
    requires EndStrs(Plus1(o), text, num, dv).Some? && dv <= |text| && CleanStrs(o, text, num, dv)
    ensures var ss := StrsAt(o, text, num, dv);
      && |ss| == num && (forall s <- ss :: FitsStr(s))
      && Holds(text, dv, EncStrs(o, ss)) && EndStrs(Plus1(o), text, num, dv) == Some(dv + |EncStrs(o, ss)|)
    decreases num
  {
    hide EncStr, EncStrs, ReadAt, FitsStr, StrAt;
    if num == 0 {
      NoEnc(o);
    } else {
      var e := dv + 4 + StrBytes(Plus1(o), ReadAt(o, text, dv));
      StrThere(o, text, dv);
      StrsThere(o, text, num - 1, e);
      var s, ss := StrAt(o, text, dv), StrsAt(o, text, num - 1, e);
      OneStr(o, s, ss);
      Joined(text, dv, EncStr(o, s), EncStrs(o, ss));
    }
  }

  lemma {:induction false} ValThere(o: Order, text: seq<byte>, f: Format, c: Child, i: nat, dv: nat)
    requires Refs(f) && i < |f| && c in f[i] && End(Plus1(o), text, f, i, c, dv).Some? && dv <= |text| && Clean(o, text, f, c, i, dv)
    ensures var v := ValAt(o, text, f, c, i, dv);
      && Fits(f, c, v) && Holds(text, dv, Enc(o, v)) && End(Plus1(o), text, f, i, c, dv) == Some(dv + |Enc(o, v)|)
    decreases |f| - i, 0, 0
  {
    hide WordIn, ReadAt, EncNums, EncStrs, EncRows, EndNums, EndStrs, EndRows, CleanStrs, CleanRows, FitsRows, Holds, NumsAt, StrsAt, RowsAt, FitsStr;
    match c
    case Num(sz, num) => NumsThere(o, text, sz, num, dv);
    case Str(num) => StrsThere(o, text, num, dv);
    case Bin =>
      WordThere(o, text, dv);
      SliceThere(text, dv + 4, ReadAt(o, text, dv));
      Joined(text, dv, WordIn(o, ReadAt(o, text, dv)), text[dv + 4..dv + 4 + ReadAt(o, text, dv)]);
    case Ary(j) =>
      WordThere(o, text, dv);
      var num := Signed(ReadAt(o, text, dv));
      RowsThere(o, text, f, j, num, dv + 4);
      Joined(text, dv, WordIn(o, num), EncRows(o, RowsAt(o, text, f, j, num, dv + 4)));
  }

  lemma {:induction false} RowsThere(o: Order, text: seq<byte>, f: Format, i: nat, num: nat, dv: nat)
    requires Refs(f) && i < |f| && EndRows(Plus1(o), text, f, i, num, dv).Some? && dv <= |text| && CleanRows(o, text, f, i, num, dv)
    ensures var rows := RowsAt(o, text, f, i, num, dv);
      && |rows| == num && FitsRows(f, f[i], rows)
      && Holds(text, dv, EncRows(o, rows)) && EndRows(Plus1(o), text, f, i, num, dv) == Some(dv + |EncRows(o, rows)|)
    decreases |f| - i, 2, num
  {
    hide EncVals, EncRows, EndVals, FitsVals, CleanVals;
    if num == 0 {
      NoEnc(o);
    } else {
      var e := EndVals(Plus1(o), text, f, i, 0, dv).value;
      ValsThere(o, text, f, i, 0, dv);
      RowsThere(o, text, f, i, num - 1, e);
      var r, rows := Row(ValsAt(o, text, f, i, 0, dv)), RowsAt(o, text, f, i, num - 1, e);
      OneRow(o, r, rows);
      Joined(text, dv, EncVals(o, r.vals), EncRows(o, rows));
    }
  }

  lemma {:induction false} ValsThere(o: Order, text: seq<byte>, f: Format, i: nat, k: nat, dv: nat)
    requires Refs(f) && i < |f| && k <= |f[i]| && EndVals(Plus1(o), text, f, i, k, dv).Some? && dv <= |text|
    requires CleanVals(o, text, f, i, k, dv)
    ensures var vals := ValsAt(o, text, f, i, k, dv);
      && FitsVals(f, f[i][k..], vals)
      && Holds(text, dv, EncVals(o, vals)) && EndVals(Plus1(o), text, f, i, k, dv) == Some(dv + |EncVals(o, vals)|)
    decreases |f| - i, 1, |f[i]| - k
  {
    hide Enc, EncVals, End, Fits, Clean;
    if k == |f[i]| {
      assert EncVals(o, []) == [] by { NoVals(o, []); }
    } else {
      var e := End(Plus1(o), text, f, i, f[i][k], dv).value;
      ValThere(o, text, f, f[i][k], i, dv);
      ValsThere(o, text, f, i, k + 1, e);
      var v, vals := ValAt(o, text, f, f[i][k], i, dv), ValsAt(o, text, f, i, k + 1, e);
      OneVal(o, v, vals);
      Joined(text, dv, Enc(o, v), EncVals(o, vals));
    }
  }

  // Serialized values are clean, and read as themselves.

  lemma {:induction false} NumsRead(o: Order, text: seq<byte>, sz: nat, ns: seq<seq<byte>>, dv: nat, k: nat)
    requires Holds(text, dv, EncNums(o, ns)) && k <= |ns| && forall n <- ns :: |n| == sz
    ensures NumsAt(o, text, sz, |ns| - k, dv + |EncNums(o, ns[..k])|) == ns[k..]
    decreases |ns| - k
  {
    hide NumberIn, EncNums, Holds;
    if k < |ns| {
      NumsStep(o, ns, k);
      assert ns[k] in ns;
      HoldsBoth(text, dv, EncNums(o, ns[..k]) + NumberIn(o, ns[k]), EncNums(o, ns[k + 1..]));
      HoldsBoth(text, dv, EncNums(o, ns[..k]), NumberIn(o, ns[k]));
      NumRead(o, text, dv + |EncNums(o, ns[..k])|, ns[k]);
      NumsRead(o, text, sz, ns, dv, k + 1);
      assert ns[k..] == [ns[k]] + ns[k + 1..];
    }
  }

  lemma NumRead(o: Order, text: seq<byte>, dv: nat, n: seq<byte>)
    requires Holds(text, dv, NumberIn(o, n))
    ensures dv + |n| <= |text| && NumberIn(o, text[dv..dv + |n|]) == n
  {
    NumberTwice(o, n);
  }

  lemma NumberTwice(o: Order, b: seq<byte>)
    ensures NumberIn(o, NumberIn(o, b)) == b
  {
    ReverseTwice(b);
  }

  /** A string word of zero is a NULL pointer, and any other word is the length plus one. */
  lemma StrRead(o: Order, text: seq<byte>, dv: nat, s: Option<seq<byte>>)
    requires Holds(text, dv, EncStr(o, s)) && FitsStr(s)
    ensures dv + 4 <= |text| && dv + 4 + StrBytes(Plus1(o), ReadAt(o, text, dv)) == dv + |EncStr(o, s)| <= |text|
    ensures StrAt(o, text, dv) == s && 0 !in text[dv + 4..dv + |EncStr(o, s)|]
  {
    hide WordIn, ReadAt;
    var n := if s.Some? then |s.value| + 1 else 0;
    if s.Some? { HoldsBoth(text, dv, WordIn(o, n), s.value); }
    HoldsWord(o, text, dv, n);
  }

  lemma {:induction false} StrsRead(o: Order, text: seq<byte>, ss: seq<Option<seq<byte>>>, dv: nat, k: nat)
    requires Holds(text, dv, EncStrs(o, ss)) && k <= |ss| && forall s <- ss :: FitsStr(s)
    ensures StrsAt(o, text, |ss| - k, dv + |EncStrs(o, ss[..k])|) == ss[k..]
    ensures CleanStrs(o, text, |ss| - k, dv + |EncStrs(o, ss[..k])|)
    decreases |ss| - k
  {
    hide EncStr, EncStrs, ReadAt, FitsStr, StrAt;
    if k < |ss| {
      StrsStep(o, ss, k);
      HoldsBoth(text, dv, EncStrs(o, ss[..k]) + EncStr(o, ss[k]), EncStrs(o, ss[k + 1..]));
      HoldsBoth(text, dv, EncStrs(o, ss[..k]), EncStr(o, ss[k]));
      assert FitsStr(ss[k]);
      StrRead(o, text, dv + |EncStrs(o, ss[..k])|, ss[k]);
      StrsRead(o, text, ss, dv, k + 1);
      assert ss[k..] == [ss[k]] + ss[k + 1..];
    }
  }

  lemma {:induction false} ValRead(o: Order, text: seq<byte>, f: Format, c: Child, i: nat, v: Val, dv: nat)
    requires Refs(f) && i < |f| && c in f[i] && Fits(f, c, v) && Holds(text, dv, Enc(o, v))
    ensures Clean(o, text, f, c, i, dv) && ValAt(o, text, f, c, i, dv) == v
    decreases v, 0
  {
    hide WordIn, ReadAt, EncNums, EncStrs, EncRows, NumsAt, StrsAt, RowsAt, CleanStrs, CleanRows;
    match c
    case Num(sz, num) =>
      NoEnc(o);
      NumsRead(o, text, sz, v.ns, dv, 0);
    case Str(num) =>
      NoEnc(o);
      StrsRead(o, text, v.ss, dv, 0);
    case Bin =>
      HoldsBoth(text, dv, WordIn(o, |v.b|), v.b);
      HoldsWord(o, text, dv, |v.b|);
    case Ary(j) =>
      NoEnc(o);
      HoldsBoth(text, dv, WordIn(o, |v.rows|), EncRows(o, v.rows));
      HoldsWord(o, text, dv, |v.rows|);
      RowsRead(o, text, f, j, v.rows, dv + 4, 0);
  }

  lemma {:induction false} RowsRead(o: Order, text: seq<byte>, f: Format, i: nat, rows: seq<Row>, dv: nat, k: nat)
    requires Refs(f) && i < |f| && k <= |rows| && FitsRows(f, f[i], rows) && Holds(text, dv, EncRows(o, rows))
    ensures RowsAt(o, text, f, i, |rows| - k, dv + |EncRows(o, rows[..k])|) == rows[k..]
    ensures CleanRows(o, text, f, i, |rows| - k, dv + |EncRows(o, rows[..k])|)
    decreases rows, 3, |rows| - k
  {
    hide EncVals, EncRows, EndVals, FitsVals, CleanVals, ValsAt;
    if k < |rows| {
      RowsStep(o, rows, k);
      var a, b, c := EncRows(o, rows[..k]), EncVals(o, rows[k].vals), EncRows(o, rows[k + 1..]);
      HoldsBoth(text, dv, a + b, c);
      HoldsBoth(text, dv, a, b);
      CurrentOf(o, f);
      EndValsEnc(Plus1(o), text, f, i, rows[k].vals, dv + |a|, 0);
      ValsRead(o, text, f, i, rows[k].vals, dv + |a|, 0);
      NoVals(o, rows[k].vals);
      RowsRead(o, text, f, i, rows, dv, k + 1);
      assert rows[k..] == [rows[k]] + rows[k + 1..];
    }
  }

  lemma CurrentOf(o: Order, f: Format)
    ensures Current(Plus1(o), f)
  {
  }

  lemma {:induction false} ValsRead(o: Order, text: seq<byte>, f: Format, i: nat, vals: seq<Val>, dv: nat, k: nat)
    requires Refs(f) && i < |f| && k <= |f[i]| && FitsVals(f, f[i], vals) && Holds(text, dv, EncVals(o, vals))
    ensures ValsAt(o, text, f, i, k, dv + |EncVals(o, vals[..k])|) == vals[k..]
    ensures CleanVals(o, text, f, i, k, dv + |EncVals(o, vals[..k])|)
    decreases vals, 3, |vals| - k
  {
    hide Enc, EncVals, End, Fits, Clean, ValAt;
    if k < |vals| {
      ValsStep(o, vals, k);
      var a, b, c := EncVals(o, vals[..k]), Enc(o, vals[k]), EncVals(o, vals[k + 1..]);
      HoldsBoth(text, dv, a + b, c);
      HoldsBoth(text, dv, a, b);
      CurrentOf(o, f);
      EndEnc(Plus1(o), text, f, i, f[i][k], vals[k], dv + |a|);
      ValRead(o, text, f, f[i][k], i, vals[k], dv + |a|);
      ValsRead(o, text, f, i, vals, dv, k + 1);
      assert vals[k..] == [vals[k]] + vals[k + 1..];
    }
  }

  // Whole buffers.

  /** The data of the root is the serialized form of `vals`. */
  ghost predicate HoldsVals(o: Order, text: seq<byte>, m: Map, vals: seq<Val>)
    requires |m.f| > 0
  {
    FitsVals(m.f, m.f[0], vals) && Holds(text, Start(m), EncVals(o, vals))
  }

  /** The data can be read: it is inside the buffer, strings hold no NUL, and arrays have fewer than 2^31 elements. */
  predicate Readable(o: Order, text: seq<byte>, m: Map)
    requires Refs(m.f) && |m.f| > 0
  {
    Start(m) <= |text| && EndVals(Plus1(o), text, m.f, 0, 0, Start(m)).Some? && CleanVals(o, text, m.f, 0, 0, Start(m))
  }

  function DataOf(o: Order, text: seq<byte>, m: Map): seq<Val>
    requires Refs(m.f) && |m.f| > 0
  {
    ValsAt(o, text, m.f, 0, 0, Start(m))
  }

  /** A buffer holds serialized values exactly if it can be read, and then it holds those of no other values. */
  lemma ReadableExact(o: Order, text: seq<byte>, m: Map, vals: seq<Val>)
    requires Refs(m.f) && |m.f| > 0
    ensures HoldsVals(o, text, m, vals) <==> Readable(o, text, m) && vals == DataOf(o, text, m)
  {
    hide EncVals, EndVals, FitsVals, CleanVals, ValsAt;
    if Readable(o, text, m) {
      ValsThere(o, text, m.f, 0, 0, Start(m));
      assert m.f[0][0..] == m.f[0];
    }
    if HoldsVals(o, text, m, vals) {
      NoVals(o, vals);
      CurrentOf(o, m.f);
      EndValsEnc(Plus1(o), text, m.f, 0, vals, Start(m), 0);
      ValsRead(o, text, m.f, 0, vals, Start(m), 0);
      assert vals[0..] == vals;
    }
  }

  lemma OneMeasured(w: Way, text: seq<byte>, f: Format, dv: nat)
    requires Refs(f) && |f| > 0
    ensures EndRows(w, text, f, 0, 1, dv) == EndVals(w, text, f, 0, 0, dv)
  {
    hide EndVals;
  }

  /** Of the buffers in the current form that tpl_sanity accepts, exactly the clean ones hold serialized values. */
  lemma SaneReadable(text: seq<byte>, m: Map, big: bool, excessOk: bool)
    requires Mapped(m) && Refs(m.f) && |m.f| > 0 && Sane(text, m, big, excessOk) && !WayOf(text[3], big).oldStr
    ensures var o := WayOf(text[3], big).o;
      (exists vals :: HoldsVals(o, text, m, vals)) <==> CleanVals(o, text, m.f, 0, 0, Start(m))
  {
    hide EndVals, CleanVals, ValsAt, HoldsVals, Mapped;
    var o := WayOf(text[3], big).o;
    OneMeasured(Plus1(o), text, m.f, Start(m));
    ReadableExact(o, text, m, DataOf(o, text, m));
    forall vals | HoldsVals(o, text, m, vals) ensures Readable(o, text, m) { ReadableExact(o, text, m, vals); }
  }

  /** The map of "A(i)", and a buffer whose only array says that it has 2^31 elements. */
  const ARRAY_MAP := Map([[Ary(1)], [Num(4, 1)]], [65, 40, 105, 41], [])
  const HUGE_COUNT: seq<byte> := MAGIC + [2] + [17, 0, 0, 0] + [65, 40, 105, 41, 0] + [0, 0, 0, 128]

  lemma ArrayMapped()
    ensures Mapped(ARRAY_MAP)
  {
    var fmt := ARRAY_MAP.fmt;
    assert fmt[..3] == [65, 40, 105] && fmt[..3][..2] == [65, 40] && fmt[..3][..2][..1] == [65];
    assert Octothorpes([65]) == Octothorpes([]) == 0;
    assert Octothorpes([65, 40]) == 0;
    assert Octothorpes([65, 40, 105]) == 0;
  }

  /** tpl_sanity accepts it, since tpl_serlen reads the count as negative, but it holds no serialized values. */
  lemma HugeCountAccepted()
    ensures Mapped(ARRAY_MAP) && Refs(ARRAY_MAP.f) && Sane(HUGE_COUNT, ARRAY_MAP, false, false)
    ensures !WayOf(HUGE_COUNT[3], false).oldStr && forall vals :: !HoldsVals(Order(false, false), HUGE_COUNT, ARRAY_MAP, vals)
  {
    ArrayMapped();
    assert HUGE_COUNT[13..17] == [0, 0, 0, 128];
    SaneReadable(HUGE_COUNT, ARRAY_MAP, false, false);
  }
}
