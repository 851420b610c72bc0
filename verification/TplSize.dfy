/** tpl_serlen: the length of serialized data, found by walking it without leaving the buffer. */
module TplSize {
  import opened Wrappers
  import opened Bytes
  import opened TplWords
  import opened TplFormat

  /** How an image is read: its byte order, and whether its strings are in the older form without the plus one. */
  datatype Way = Way(o: Order, oldStr: bool)

  function ReadAt(o: Order, text: seq<byte>, dv: nat): (n: int)
    requires dv + 4 <= |text|
    ensures 0 <= n < LIMIT
  {
    ReadWord(o, text[dv..dv + 4])
  }

  /** A uint32_t read into an int. */
  function Signed(n: int): int {
    if 2 * n < LIMIT then n else n - LIMIT
  }

  function StrBytes(w: Way, slen: nat): nat {
    if w.oldStr then slen else if slen > 1 then slen - 1 else 0
  }

  // Where serialized data ends, or None if it would leave the buffer.

  function EndNums(text: seq<byte>, sz: nat, num: nat, dv: nat): (r: Option<nat>)
    decreases num
  {
    if num == 0 then Some(dv) else if dv + sz > |text| then None else EndNums(text, sz, num - 1, dv + sz)
  }

  function EndStrs(w: Way, text: seq<byte>, num: nat, dv: nat): (r: Option<nat>)
    decreases num
  {
    if num == 0 then Some(dv)
    else if dv + 4 > |text| then None
    else
      var slen := StrBytes(w, ReadAt(w.o, text, dv));
      if dv + 4 + slen > |text| then None else EndStrs(w, text, num - 1, dv + 4 + slen)
  }

  ghost predicate Refs(f: Format) {
    forall i, k :: 0 <= i < |f| && 0 <= k < |f[i]| && f[i][k].Ary? ==> i < f[i][k].idx < |f|
  }

  function End(w: Way, text: seq<byte>, f: Format, i: nat, c: Child, dv: nat): (r: Option<nat>)
    requires Refs(f) && (c.Ary? ==> i < c.idx < |f|)
    decreases |f| - i, 0, 0
  {
    match c
    case Num(sz, num) => EndNums(text, sz, num, dv)
    case Str(num) => EndStrs(w, text, num, dv)
    case Bin =>
      if dv + 4 > |text| || dv + 4 + ReadAt(w.o, text, dv) > |text| then None
      else Some(dv + 4 + ReadAt(w.o, text, dv))
    case Ary(j) =>
      if dv + 4 > |text| then None else EndRows(w, text, f, j, Signed(ReadAt(w.o, text, dv)), dv + 4)
  }

  /** `num` elements of packable `i`. */
  function EndRows(w: Way, text: seq<byte>, f: Format, i: nat, num: int, dv: nat): (r: Option<nat>)
    requires Refs(f) && i < |f|
    decreases |f| - i, 2, if num > 0 then num else 0
  {
    if num <= 0 then Some(dv)
    else
      match EndVals(w, text, f, i, 0, dv)
      case None => None
      case Some(e) => EndRows(w, text, f, i, num - 1, e)
  }

  /** The children of packable `i` from child `k` on. */
  function EndVals(w: Way, text: seq<byte>, f: Format, i: nat, k: nat, dv: nat): (r: Option<nat>)
    requires Refs(f) && i < |f| && k <= |f[i]|
    decreases |f| - i, 1, |f[i]| - k
  {
    if k == |f[i]| then Some(dv)
    else
      match End(w, text, f, i, f[i][k], dv)
      case None => None
      case Some(e) => EndVals(w, text, f, i, k + 1, e)
  }

  function Minus(e: Option<nat>, dv: nat): Option<int> {
    match e
    case None => None
    case Some(v) => Some(v - dv)
  }

  /** tpl_serlen of the root (packable 0) or of an array node. */
  method Serlen(w: Way, text: seq<byte>, f: Format, i: nat, dv0: nat) returns (serlen: Option<int>)
    requires Refs(f) && i < |f|
    ensures i == 0 ==> serlen == Minus(EndRows(w, text, f, 0, 1, dv0), dv0)
    ensures i > 0 ==> serlen == Minus(End(w, text, f, i - 1, Ary(i), dv0), dv0)
    decreases |f| - i, 1
  {
    var num, dv: nat, len := 1, dv0, 0;
    if i > 0 {
      if dv0 + 4 > |text| {
        return None;
      }
      num := Signed(ReadAt(w.o, text, dv0));
      dv, len := dv + 4, 4;
    }
    ghost var e := EndRows(w, text, f, i, num, dv);
    while num > 0
      invariant e == EndRows(w, text, f, i, num, dv) && len == dv - dv0
      decreases num
    {
      var k := 0;
      ghost var row := EndVals(w, text, f, i, 0, dv);
      while k < |f[i]|
        invariant 0 <= k <= |f[i]|
        invariant row == EndVals(w, text, f, i, k, dv) && len == dv - dv0
        decreases |f[i]| - k
      {
        var r := SerlenOf(w, text, f, i, k, dv);
        if r.None? {
          return None;
        }
        len := len + r.value;
        dv := dv + r.value;
        k := k + 1;
      }
      num := num - 1;
    }
    serlen := Some(len);
  }

  method SerlenOf(w: Way, text: seq<byte>, f: Format, i: nat, k: nat, dv0: nat) returns (r: Option<nat>)
    requires Refs(f) && i < |f| && k < |f[i]|
    ensures r.None? == End(w, text, f, i, f[i][k], dv0).None?
    ensures r.Some? ==> End(w, text, f, i, f[i][k], dv0) == Some(dv0 + r.value)
    decreases |f| - i, 0
  {
    var dv := dv0;
    match f[i][k]
    case Num(sz, num) =>
      var fidx := 0;
      while fidx < num
        invariant 0 <= fidx <= num && dv0 <= dv
        invariant EndNums(text, sz, num, dv0) == EndNums(text, sz, num - fidx, dv)
      {
        if dv + sz > |text| {
          return None;
        }
        dv := dv + sz;
        fidx := fidx + 1;
      }
      return Some(dv - dv0);
    case Bin =>
      if dv + 4 > |text| {
        return None;
      }
      var slen := ReadAt(w.o, text, dv);
      dv := dv + 4;
      if dv + slen > |text| {
        return None;
      }
      return Some(4 + slen);
    case Str(num) =>
      var fidx := 0;
      while fidx < num
        invariant 0 <= fidx <= num && dv0 <= dv
        invariant EndStrs(w, text, num, dv0) == EndStrs(w, text, num - fidx, dv)
      {
        if dv + 4 > |text| {
          return None;
        }
        var slen := StrBytes(w, ReadAt(w.o, text, dv));
        dv := dv + 4;
        if dv + slen > |text| {
          return None;
        }
        dv := dv + slen;
        fidx := fidx + 1;
      }
      return Some(dv - dv0);
    case Ary(j) =>
      var a := Serlen(w, text, f, j, dv);
      if a.None? {
        return None;
      }
      EndInside(w, text, f, i, f[i][k], dv0);
      return Some(a.value);
  }

  // An accepted length never leads out of the buffer.

  lemma {:induction false} EndNumsInside(text: seq<byte>, sz: nat, num: nat, dv: nat)
    ensures var r := EndNums(text, sz, num, dv); r.Some? ==> dv <= r.value && (r.value <= |text| || r.value == dv)
    decreases num
  {
    if num > 0 && dv + sz <= |text| { EndNumsInside(text, sz, num - 1, dv + sz); }
  }

  lemma {:induction false} EndStrsInside(w: Way, text: seq<byte>, num: nat, dv: nat)
    ensures var r := EndStrs(w, text, num, dv); r.Some? ==> dv <= r.value && (r.value <= |text| || r.value == dv)
    decreases num
  {
    if num > 0 && dv + 4 <= |text| {
      var slen := StrBytes(w, ReadAt(w.o, text, dv));
      if dv + 4 + slen <= |text| { EndStrsInside(w, text, num - 1, dv + 4 + slen); }
    }
  }

  lemma {:induction false} EndInside(w: Way, text: seq<byte>, f: Format, i: nat, c: Child, dv: nat)
    requires Refs(f) && (c.Ary? ==> i < c.idx < |f|)
    ensures var r := End(w, text, f, i, c, dv); r.Some? ==> dv <= r.value && (r.value <= |text| || r.value == dv)
    decreases |f| - i, 0, 0
  {
    match c
    case Num(sz, num) => EndNumsInside(text, sz, num, dv);
    case Str(num) => EndStrsInside(w, text, num, dv);
    case Bin =>
    case Ary(j) => if dv + 4 <= |text| { EndRowsInside(w, text, f, j, Signed(ReadAt(w.o, text, dv)), dv + 4); }
  }

  lemma {:induction false} EndRowsInside(w: Way, text: seq<byte>, f: Format, i: nat, num: int, dv: nat)
    requires Refs(f) && i < |f|
    ensures var r := EndRows(w, text, f, i, num, dv); r.Some? ==> dv <= r.value && (r.value <= |text| || r.value == dv)
    decreases |f| - i, 2, if num > 0 then num else 0
  {
    if num > 0 {
      EndValsInside(w, text, f, i, 0, dv);
      var e := EndVals(w, text, f, i, 0, dv);
      if e.Some? { EndRowsInside(w, text, f, i, num - 1, e.value); }
    }
  }

  lemma {:induction false} EndValsInside(w: Way, text: seq<byte>, f: Format, i: nat, k: nat, dv: nat)
    requires Refs(f) && i < |f| && k <= |f[i]|
    ensures var r := EndVals(w, text, f, i, k, dv); r.Some? ==> dv <= r.value && (r.value <= |text| || r.value == dv)
    decreases |f| - i, 1, |f[i]| - k
  {
    if k < |f[i]| {
      EndInside(w, text, f, i, f[i][k], dv);
      var e := End(w, text, f, i, f[i][k], dv);
      if e.Some? { EndValsInside(w, text, f, i, k + 1, e.value); }
    }
  }

  // Serialized values are measured exactly.

  lemma HoldsWord(o: Order, text: seq<byte>, dv: nat, n: int)
    requires 0 <= n < LIMIT && Holds(text, dv, WordIn(o, n))
    ensures dv + 4 <= |text| && ReadAt(o, text, dv) == n
  {
    hide ReadWord, WordIn;
    ReadWordIn(o, n);
  }

  /** No strings are read in the older form. */
  ghost predicate Current(w: Way, f: Format) {
    forall i, k :: 0 <= i < |f| && 0 <= k < |f[i]| && f[i][k].Str? ==> !w.oldStr
  }

  lemma {:induction false} EndNumsEnc(o: Order, text: seq<byte>, sz: nat, ns: seq<seq<byte>>, dv: nat, k: nat)
    requires Holds(text, dv, EncNums(o, ns)) && k <= |ns| && forall n <- ns :: |n| == sz
    ensures EndNums(text, sz, |ns| - k, dv + |EncNums(o, ns[..k])|) == Some(dv + |EncNums(o, ns)|)
    decreases |ns| - k
  {
    hide NumberIn;
    if k == |ns| {
      assert ns[..k] == ns;
    } else {
      NumsStep(o, ns, k);
      assert ns[k] in ns;
      EndNumsEnc(o, text, sz, ns, dv, k + 1);
    }
  }

  lemma {:induction false} EndStrsEnc(w: Way, text: seq<byte>, ss: seq<Option<seq<byte>>>, dv: nat, k: nat)
    requires Holds(text, dv, EncStrs(w.o, ss)) && k <= |ss| && !w.oldStr && forall s <- ss :: FitsStr(s)
    ensures EndStrs(w, text, |ss| - k, dv + |EncStrs(w.o, ss[..k])|) == Some(dv + |EncStrs(w.o, ss)|)
    decreases |ss| - k
  {
    hide EncStrs, ReadAt;
    if k == |ss| {
      assert ss[..k] == ss;
    } else {
      StrsStep(w.o, ss, k);
      assert FitsStr(ss[k]);
      var a, b, c := EncStrs(w.o, ss[..k]), EncStr(w.o, ss[k]), EncStrs(w.o, ss[k + 1..]);
      HoldsBoth(text, dv, a + b, c);
      HoldsBoth(text, dv, a, b);
      StrEnc(w, text, ss[k], dv + |a|);
      EndStrsEnc(w, text, ss, dv, k + 1);
    }
  }

  lemma StrEnc(w: Way, text: seq<byte>, s: Option<seq<byte>>, dv: nat)
    requires Holds(text, dv, EncStr(w.o, s)) && !w.oldStr && FitsStr(s)
    ensures dv + 4 <= |text| && dv + 4 + StrBytes(w, ReadAt(w.o, text, dv)) == dv + |EncStr(w.o, s)| <= |text|
  {
    hide WordIn, ReadAt;
    var n := if s.Some? then |s.value| + 1 else 0;
    if s.Some? { HoldsBoth(text, dv, WordIn(w.o, n), s.value); }
    HoldsWord(w.o, text, dv, n);
  }

  lemma {:induction false} EndEnc(w: Way, text: seq<byte>, f: Format, i: nat, c: Child, v: Val, dv: nat)
    requires Refs(f) && i < |f| && c in f[i] && Current(w, f)
    requires Fits(f, c, v) && Holds(text, dv, Enc(w.o, v))
    ensures End(w, text, f, i, c, dv) == Some(dv + |Enc(w.o, v)|)
    decreases v, 0
  {
    hide WordIn, ReadAt, EncNums, EncStrs, EncRows, EndNums, EndStrs, EndRows;
    match c
    case Num(sz, num) =>
      EndNumsEnc(w.o, text, sz, v.ns, dv, 0);
      NoEnc(w.o);
    case Str(num) =>
      EndStrsEnc(w, text, v.ss, dv, 0);
      NoEnc(w.o);
    case Bin =>
      HoldsBoth(text, dv, WordIn(w.o, |v.b|), v.b);
      HoldsWord(w.o, text, dv, |v.b|);
    case Ary(j) =>
      HoldsBoth(text, dv, WordIn(w.o, |v.rows|), EncRows(w.o, v.rows));
      HoldsWord(w.o, text, dv, |v.rows|);
      EndRowsEnc(w, text, f, j, v.rows, dv + 4, 0);
      NoEnc(w.o);
  }

  lemma NoEnc(o: Order)
    ensures EncNums(o, []) == EncStrs(o, []) == EncRows(o, []) == []
  {
  }

  lemma {:induction false} EndRowsEnc(w: Way, text: seq<byte>, f: Format, i: nat, rows: seq<Row>, dv: nat, k: nat)
    requires Refs(f) && i < |f| && Current(w, f) && k <= |rows|
    requires FitsRows(f, f[i], rows) && Holds(text, dv, EncRows(w.o, rows))
    ensures EndRows(w, text, f, i, |rows| - k, dv + |EncRows(w.o, rows[..k])|) == Some(dv + |EncRows(w.o, rows)|)
    decreases rows, 3, |rows| - k
  {
    hide EncVals, EncRows, EndVals, FitsVals;
    if k == |rows| {
      assert rows[..k] == rows;
    } else {
      RowsStep(w.o, rows, k);
      var a, b, c := EncRows(w.o, rows[..k]), EncVals(w.o, rows[k].vals), EncRows(w.o, rows[k + 1..]);
      HoldsBoth(text, dv, a + b, c);
      HoldsBoth(text, dv, a, b);
      EndValsEnc(w, text, f, i, rows[k].vals, dv + |a|, 0);
      NoVals(w.o, rows[k].vals);
      EndRowsEnc(w, text, f, i, rows, dv, k + 1);
    }
  }

  lemma NoVals(o: Order, vals: seq<Val>)
    ensures EncVals(o, vals[..0]) == []
  {
  }

  lemma {:induction false} EndValsEnc(w: Way, text: seq<byte>, f: Format, i: nat, vals: seq<Val>, dv: nat, k: nat)
    requires Refs(f) && i < |f| && Current(w, f) && k <= |f[i]|
    requires FitsVals(f, f[i], vals) && Holds(text, dv, EncVals(w.o, vals))
    ensures EndVals(w, text, f, i, k, dv + |EncVals(w.o, vals[..k])|) == Some(dv + |EncVals(w.o, vals)|)
    decreases vals, 3, |vals| - k
  {
    hide Enc, EncVals, End, Fits;
    if k == |vals| {
      assert vals[..k] == vals;
    } else {
      ValsStep(w.o, vals, k);
      var a, b, c := EncVals(w.o, vals[..k]), Enc(w.o, vals[k]), EncVals(w.o, vals[k + 1..]);
      HoldsBoth(text, dv, a + b, c);
      HoldsBoth(text, dv, a, b);
      EndEnc(w, text, f, i, f[i][k], vals[k], dv + |a|);
      EndValsEnc(w, text, f, i, vals, dv, k + 1);
    }
  }
}
