/** tpl formats, values, and the serialized form of a value.

  The packables of a format are numbered as tpl_pidx numbers them: 0 is the root, and every A(...) has the
  number of its turn in the format string. `Format` lists the children of each packable; an array child
  refers to its own packable. S(...)# is expanded to repetition. */
module TplFormat {
  import opened Wrappers
  import opened Bytes
  import opened Sequences
  import opened TplWords

  datatype Child = Num(sz: nat, num: nat) | Str(num: nat) | Bin | Ary(idx: nat)

  type Format = seq<seq<Child>>

  ghost predicate IsChild(f: Format, i: int, j: nat) {
    0 <= i < |f| && exists k :: 0 <= k < |f[i]| && f[i][k] == Ary(j)
  }

  /** The numbering is a preorder: A(...) nodes come after their parent and in the order of the format string,
    and have one parent. */
  ghost predicate WellFormed(f: Format) {
    && |f| > 0
    && (forall i, k :: 0 <= i < |f| && 0 <= k < |f[i]| && f[i][k].Ary? ==> i < f[i][k].idx < |f|)
    && (forall i, k, l :: 0 <= i < |f| && 0 <= k < l < |f[i]| && f[i][k].Ary? && f[i][l].Ary? ==> f[i][k].idx < f[i][l].idx)
    && (forall i, i', j: nat :: IsChild(f, i, j) && IsChild(f, i', j) ==> i == i')
  }

  /** A value packed for a child: numbers (one byte sequence each), strings that may be NULL, a binary buffer,
    or the elements of an array. */
  datatype Val = Nums(ns: seq<seq<byte>>) | Strs(ss: seq<Option<seq<byte>>>) | Buf(b: seq<byte>) | Elems(rows: seq<Row>)

  /** One element: a value for each child of the packable. */
  datatype Row = Row(vals: seq<Val>)

  predicate FitsStr(s: Option<seq<byte>>) {
    s.Some? ==> 0 !in s.value && |s.value| + 1 < LIMIT
  }

  /** Array lengths fit 31 bits, since tpl_serlen reads them into an int. */
  ghost predicate Fits(f: Format, c: Child, v: Val)
    decreases v, 0
  {
    match c
    case Num(sz, num) => v.Nums? && |v.ns| == num && forall n <- v.ns :: |n| == sz
    case Str(num) => v.Strs? && |v.ss| == num && forall s <- v.ss :: FitsStr(s)
    case Bin => v.Buf? && |v.b| < LIMIT
    case Ary(j) => v.Elems? && j < |f| && 2 * |v.rows| < LIMIT && FitsRows(f, f[j], v.rows)
  }

  ghost predicate FitsRows(f: Format, cs: seq<Child>, rows: seq<Row>)
    decreases rows, 1
  {
    forall i :: 0 <= i < |rows| ==> FitsVals(f, cs, rows[i].vals)
  }

  ghost predicate FitsVals(f: Format, cs: seq<Child>, vals: seq<Val>)
    decreases vals, 1
  {
    |vals| == |cs| && forall k :: 0 <= k < |vals| ==> Fits(f, cs[k], vals[k])
  }

  // The serialized form.

  function EncNums(o: Order, ns: seq<seq<byte>>): seq<byte> {
    if ns == [] then [] else EncNums(o, ns[..|ns| - 1]) + NumberIn(o, ns[|ns| - 1])
  }

  /** A string is preceded by its length plus one; a NULL string is a zero word. */
  function EncStr(o: Order, s: Option<seq<byte>>): seq<byte> {
    match s
    case None => WordIn(o, 0)
    case Some(t) => WordIn(o, |t| + 1) + t
  }

  function EncStrs(o: Order, ss: seq<Option<seq<byte>>>): seq<byte> {
    if ss == [] then [] else EncStrs(o, ss[..|ss| - 1]) + EncStr(o, ss[|ss| - 1])
  }

  function Enc(o: Order, v: Val): seq<byte>
    decreases v, 0
  {
    match v
    case Nums(ns) => EncNums(o, ns)
    case Strs(ss) => EncStrs(o, ss)
    case Buf(b) => WordIn(o, |b|) + b
    case Elems(rows) => WordIn(o, |rows|) + EncRows(o, rows)
  }

  function EncRows(o: Order, rows: seq<Row>): seq<byte>
    decreases rows, 1
  {
    if rows == [] then [] else EncRows(o, rows[..|rows| - 1]) + EncVals(o, rows[|rows| - 1].vals)
  }

  function EncVals(o: Order, vals: seq<Val>): seq<byte>
    decreases vals, 1
  {
    if vals == [] then [] else EncVals(o, vals[..|vals| - 1]) + Enc(o, vals[|vals| - 1])
  }

  // The first of a sequence of encodings, and the rest.

  lemma Last<X>(a: seq<X>, b: seq<X>)
    requires b != []
    ensures (a + b)[..|a + b| - 1] == a + b[..|b| - 1] && (a + b)[|a + b| - 1] == b[|b| - 1]
  {
  }

  lemma {:induction false} EncNumsSplit(o: Order, a: seq<seq<byte>>, b: seq<seq<byte>>)
    ensures EncNums(o, a + b) == EncNums(o, a) + EncNums(o, b)
  {
    if b == [] {
      assert a + b == a;
    } else {
      EncNumsSplit(o, a, b[..|b| - 1]);
      Last(a, b);
      Assoc(EncNums(o, a), EncNums(o, b[..|b| - 1]), NumberIn(o, b[|b| - 1]));
    }
  }

  lemma {:induction false} EncStrsSplit(o: Order, a: seq<Option<seq<byte>>>, b: seq<Option<seq<byte>>>)
    ensures EncStrs(o, a + b) == EncStrs(o, a) + EncStrs(o, b)
  {
    if b == [] {
      assert a + b == a;
    } else {
      EncStrsSplit(o, a, b[..|b| - 1]);
      Last(a, b);
      Assoc(EncStrs(o, a), EncStrs(o, b[..|b| - 1]), EncStr(o, b[|b| - 1]));
    }
  }

  lemma {:induction false} EncRowsSplit(o: Order, a: seq<Row>, b: seq<Row>)
    ensures EncRows(o, a + b) == EncRows(o, a) + EncRows(o, b)
  {
    if b == [] {
      assert a + b == a;
    } else {
      EncRowsSplit(o, a, b[..|b| - 1]);
      Last(a, b);
      Assoc(EncRows(o, a), EncRows(o, b[..|b| - 1]), EncVals(o, b[|b| - 1].vals));
    }
  }

  lemma {:induction false} EncValsSplit(o: Order, a: seq<Val>, b: seq<Val>)
    ensures EncVals(o, a + b) == EncVals(o, a) + EncVals(o, b)
  {
    if b == [] {
      assert a + b == a;
    } else {
      EncValsSplit(o, a, b[..|b| - 1]);
      Last(a, b);
      Assoc(EncVals(o, a), EncVals(o, b[..|b| - 1]), Enc(o, b[|b| - 1]));
    }
  }

  // The byte order does not change lengths.

  lemma {:induction false} EncLength(o: Order, o': Order, v: Val)
    ensures |Enc(o, v)| == |Enc(o', v)|
    decreases v, 0
  {
    match v
    case Nums(ns) => EncNumsLength(o, o', ns);
    case Strs(ss) => EncStrsLength(o, o', ss);
    case Buf(b) =>
    case Elems(rows) => EncRowsLength(o, o', rows);
  }

  lemma {:induction false} EncNumsLength(o: Order, o': Order, ns: seq<seq<byte>>)
    ensures |EncNums(o, ns)| == |EncNums(o', ns)|
  {
    if ns != [] { EncNumsLength(o, o', ns[..|ns| - 1]); }
  }

  lemma {:induction false} EncStrsLength(o: Order, o': Order, ss: seq<Option<seq<byte>>>)
    ensures |EncStrs(o, ss)| == |EncStrs(o', ss)|
  {
    if ss != [] { EncStrsLength(o, o', ss[..|ss| - 1]); }
  }

  lemma {:induction false} EncRowsLength(o: Order, o': Order, rows: seq<Row>)
    ensures |EncRows(o, rows)| == |EncRows(o', rows)|
    decreases rows, 1
  {
    if rows != [] {
      EncRowsLength(o, o', rows[..|rows| - 1]);
      EncValsLength(o, o', rows[|rows| - 1].vals);
    }
  }

  lemma {:induction false} EncValsLength(o: Order, o': Order, vals: seq<Val>)
    ensures |EncVals(o, vals)| == |EncVals(o', vals)|
    decreases vals, 1
  {
    if vals != [] {
      EncValsLength(o, o', vals[..|vals| - 1]);
      EncLength(o, o', vals[|vals| - 1]);
    }
  }

  // One more element of an encoding, and how far it still is from the end.

  lemma ValsStep(o: Order, vals: seq<Val>, k: nat)
    requires k < |vals|
    ensures EncVals(o, vals[..k + 1]) == EncVals(o, vals[..k]) + Enc(o, vals[k])
    ensures EncVals(o, vals) == EncVals(o, vals[..k]) + Enc(o, vals[k]) + EncVals(o, vals[k + 1..])
  {
    hide Enc;
    assert vals[..k + 1][..k] == vals[..k];
    EncValsSplit(o, vals[..k + 1], vals[k + 1..]);
    assert vals[..k + 1] + vals[k + 1..] == vals;
  }

  lemma RowsStep(o: Order, rows: seq<Row>, k: nat)
    requires k < |rows|
    ensures EncRows(o, rows[..k + 1]) == EncRows(o, rows[..k]) + EncVals(o, rows[k].vals)
    ensures EncRows(o, rows) == EncRows(o, rows[..k]) + EncVals(o, rows[k].vals) + EncRows(o, rows[k + 1..])
  {
    hide EncVals;
    assert rows[..k + 1][..k] == rows[..k];
    EncRowsSplit(o, rows[..k + 1], rows[k + 1..]);
    assert rows[..k + 1] + rows[k + 1..] == rows;
  }

  lemma StrsStep(o: Order, ss: seq<Option<seq<byte>>>, k: nat)
    requires k < |ss|
    ensures EncStrs(o, ss[..k + 1]) == EncStrs(o, ss[..k]) + EncStr(o, ss[k])
    ensures EncStrs(o, ss) == EncStrs(o, ss[..k]) + EncStr(o, ss[k]) + EncStrs(o, ss[k + 1..])
  {
    hide EncStr;
    assert ss[..k + 1][..k] == ss[..k];
    EncStrsSplit(o, ss[..k + 1], ss[k + 1..]);
    assert ss[..k + 1] + ss[k + 1..] == ss;
  }

  lemma NumsStep(o: Order, ns: seq<seq<byte>>, k: nat)
    requires k < |ns|
    ensures EncNums(o, ns[..k + 1]) == EncNums(o, ns[..k]) + NumberIn(o, ns[k])
    ensures EncNums(o, ns) == EncNums(o, ns[..k]) + NumberIn(o, ns[k]) + EncNums(o, ns[k + 1..])
  {
    hide NumberIn;
    assert ns[..k + 1][..k] == ns[..k];
    EncNumsSplit(o, ns[..k + 1], ns[k + 1..]);
    assert ns[..k + 1] + ns[k + 1..] == ns;
  }
}
