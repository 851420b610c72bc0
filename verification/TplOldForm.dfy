/** Images of the 1.2 form, whose strings are preceded by their plain length and are never NULL. */
module TplOldForm {
  import opened Wrappers
  import opened Bytes
  import opened TplWords
  import opened TplFormat
  import opened TplImage
  import opened TplPack
  import opened TplSize
  import opened TplSanity
  import opened TplDecode
  import opened TplUnpack

  // The serialized form.

  function EncOldStr(o: Order, s: seq<byte>): seq<byte> {
    WordIn(o, |s|) + s
  }

  function EncOldStrs(o: Order, ss: seq<Option<seq<byte>>>): seq<byte>
    requires forall s <- ss :: s.Some?
  {
    if ss == [] then [] else EncOldStrs(o, ss[..|ss| - 1]) + EncOldStr(o, ss[|ss| - 1].value)
  }

  /** No string is NULL. */
  predicate Plain(v: Val)
    decreases v, 0
  {
    match v
    case Strs(ss) => forall s <- ss :: s.Some?
    case Elems(rows) => PlainRows(rows)
    case _ => true
  }

  predicate PlainRows(rows: seq<Row>)
    decreases rows, 1
  {
    rows != [] ==> PlainVals(rows[|rows| - 1].vals) && PlainRows(rows[..|rows| - 1])
  }

  predicate PlainVals(vals: seq<Val>)
    decreases vals, 1
  {
    vals != [] ==> Plain(vals[|vals| - 1]) && PlainVals(vals[..|vals| - 1])
  }

  function EncOld(o: Order, v: Val): seq<byte>
    requires Plain(v)
    decreases v, 0
  {
    match v
    case Nums(ns) => EncNums(o, ns)
    case Strs(ss) => EncOldStrs(o, ss)
    case Buf(b) => WordIn(o, |b|) + b
    case Elems(rows) => WordIn(o, |rows|) + EncOldRows(o, rows)
  }

  function EncOldRows(o: Order, rows: seq<Row>): seq<byte>
    requires PlainRows(rows)
    decreases rows, 1
  {
    if rows == [] then [] else EncOldRows(o, rows[..|rows| - 1]) + EncOldVals(o, rows[|rows| - 1].vals)
  }

  function EncOldVals(o: Order, vals: seq<Val>): seq<byte>
    requires PlainVals(vals)
    decreases vals, 1
  {
    if vals == [] then [] else EncOldVals(o, vals[..|vals| - 1]) + EncOld(o, vals[|vals| - 1])
  }

  /** There is no string in the value, at any depth. */
  predicate NoStr(v: Val)
    decreases v, 0
  {
    match v
    case Strs(ss) => ss == []
    case Elems(rows) => NoStrRows(rows)
    case _ => true
  }

  predicate NoStrRows(rows: seq<Row>)
    decreases rows, 1
  {
    rows != [] ==> NoStrVals(rows[|rows| - 1].vals) && NoStrRows(rows[..|rows| - 1])
  }

  predicate NoStrVals(vals: seq<Val>)
    decreases vals, 1
  {
    vals != [] ==> NoStr(vals[|vals| - 1]) && NoStrVals(vals[..|vals| - 1])
  }

  // One string.

  /** tpl_unpack reads no string of this form as itself: an empty one becomes NULL, and every other loses its last
    byte. */
  lemma OldStringMisread(o: Order, text: seq<byte>, dv: nat, s: seq<byte>)
    requires |s| < LIMIT && Holds(text, dv, EncOldStr(o, s))
    ensures dv + 4 <= |text| && dv + 4 + StrBytes(Plus1(o), ReadAt(o, text, dv)) <= |text|
    ensures StrAt(o, text, dv) == if s == [] then None else Some(s[..|s| - 1])
    ensures StrBytes(Way(o, true), ReadAt(o, text, dv)) == |s|
  {
    hide WordIn, ReadAt;
    HoldsBoth(text, dv, WordIn(o, |s|), s);
    HoldsWord(o, text, dv, |s|);
    if s != [] {
      var t := text[dv + 4..dv + 4 + |s|];
      assert t[..|s| - 1] == text[dv + 4..dv + 4 + (|s| - 1)];
    }
  }

  // The two forms have the same length, and differ exactly where there are strings.

  lemma SameParts(a: seq<byte>, b: seq<byte>, a': seq<byte>, b': seq<byte>)
    requires |a| == |a'| && |b| == |b'|
    ensures a + b == a' + b' <==> a == a' && b == b'
  {
    if a + b == a' + b' {
      assert a == (a + b)[..|a|] && b == (a + b)[|a|..];
      assert a' == (a' + b')[..|a|] && b' == (a' + b')[|a|..];
    }
  }

  lemma OldStrDiffers(o: Order, s: Option<seq<byte>>)
    requires s.Some? && FitsStr(s)
    ensures |EncOldStr(o, s.value)| == |EncStr(o, s)| && EncOldStr(o, s.value) != EncStr(o, s)
  {
    hide WordIn, ReadWord;
    SameParts(WordIn(o, |s.value|), s.value, WordIn(o, |s.value| + 1), s.value);
    ReadWordIn(o, |s.value|);
    ReadWordIn(o, |s.value| + 1);
  }

  lemma {:induction false} OldStrsDiffer(o: Order, ss: seq<Option<seq<byte>>>)
    requires (forall s <- ss :: s.Some?) && forall s <- ss :: FitsStr(s)
    ensures |EncOldStrs(o, ss)| == |EncStrs(o, ss)| && (EncOldStrs(o, ss) == EncStrs(o, ss) <==> ss == [])
  {
    hide EncOldStr, EncStr;
    if ss != [] {
      var a, s := ss[..|ss| - 1], ss[|ss| - 1];
      OldStrsDiffer(o, a);
      OldStrDiffers(o, s);
      SameParts(EncOldStrs(o, a), EncOldStr(o, s.value), EncStrs(o, a), EncStr(o, s));
    }
  }

  lemma {:induction false} OldDiffers(o: Order, f: Format, c: Child, v: Val)
    requires Plain(v) && Fits(f, c, v)
    ensures |EncOld(o, v)| == |Enc(o, v)| && (EncOld(o, v) == Enc(o, v) <==> NoStr(v))
    decreases v, 0
  {
    hide WordIn, EncNums, EncStrs, EncOldStrs, EncRows, EncOldRows;
    match v
    case Nums(ns) =>
    case Strs(ss) => OldStrsDiffer(o, ss);
    case Buf(b) =>
    case Elems(rows) =>
      OldRowsDiffer(o, f, f[c.idx], rows);
      SameParts(WordIn(o, |rows|), EncOldRows(o, rows), WordIn(o, |rows|), EncRows(o, rows));
  }

  lemma {:induction false} OldRowsDiffer(o: Order, f: Format, cs: seq<Child>, rows: seq<Row>)
    requires PlainRows(rows) && FitsRows(f, cs, rows)
    ensures |EncOldRows(o, rows)| == |EncRows(o, rows)| && (EncOldRows(o, rows) == EncRows(o, rows) <==> NoStrRows(rows))
    decreases rows, 1
  {
    hide EncVals, EncOldVals, FitsVals, PlainVals, NoStrVals;
    if rows != [] {
      var a, r := rows[..|rows| - 1], rows[|rows| - 1];
      OldRowsDiffer(o, f, cs, a);
      OldValsDiffer(o, f, cs, r.vals);
      SameParts(EncOldRows(o, a), EncOldVals(o, r.vals), EncRows(o, a), EncVals(o, r.vals));
    }
  }

  lemma {:induction false} OldValsDiffer(o: Order, f: Format, cs: seq<Child>, vals: seq<Val>)
    requires PlainVals(vals) && FitsVals(f, cs, vals)
    ensures |EncOldVals(o, vals)| == |EncVals(o, vals)| && (EncOldVals(o, vals) == EncVals(o, vals) <==> NoStrVals(vals))
    decreases vals, 1
  {
    hide Enc, EncOld, Fits, Plain, NoStr;
    if vals != [] {
      var a, v := vals[..|vals| - 1], vals[|vals| - 1];
      OldValsDiffer(o, f, cs[..|cs| - 1], a);
      OldDiffers(o, f, cs[|cs| - 1], v);
      SameParts(EncOldVals(o, a), EncOld(o, v), EncVals(o, a), Enc(o, v));
    }
  }

  // Whole images.

  /** A buffer with the data of an image of the 1.2 form. */
  ghost predicate HoldsOld(o: Order, text: seq<byte>, m: Map, vals: seq<Val>)
    requires |m.f| > 0
  {
    PlainVals(vals) && FitsVals(m.f, m.f[0], vals) && Holds(text, Start(m), EncOldVals(o, vals))
  }

  /** tpl_sanity sets TPL_OLD_STRING_FMT for an image without null-string support, but tpl_load then overwrites the
    flags. So an image of the 1.2 form is read back as its values exactly if it holds no strings. */
  lemma OldImageExact(o: Order, text: seq<byte>, m: Map, vals: seq<Val>)
    requires Refs(m.f) && |m.f| > 0 && HoldsOld(o, text, m, vals)
    ensures Readable(o, text, m) && DataOf(o, text, m) == vals <==> NoStrVals(vals)
  {
    hide EncVals, EncOldVals, FitsVals, Readable, DataOf;
    ReadableExact(o, text, m, vals);
    OldValsDiffer(o, m.f, m.f[0], vals);
  }

  /** The map of "s", and the image of the string "ab" that a program of version 1.2 writes on a little-endian
    machine. */
  const STRING_MAP := Map([[Str(1)]], [STR_CHAR], [])
  const OLD_IMAGE: seq<byte> := MAGIC + [0] + [16, 0, 0, 0] + [STR_CHAR, 0] + [2, 0, 0, 0] + [97, 98]

  lemma OldImageAccepted()
    ensures Mapped(STRING_MAP) && Refs(STRING_MAP.f)
    ensures Sane(OLD_IMAGE, STRING_MAP, false, false) && WayOf(OLD_IMAGE[3], false) == Way(NATIVE, true)
  {
  }

  /** It is accepted, and it holds "ab", but "a" is read. */
  lemma OldImageMisread()
    ensures HoldsOld(NATIVE, OLD_IMAGE, STRING_MAP, [Strs([Some([97, 98])])])
    ensures Readable(NATIVE, OLD_IMAGE, STRING_MAP) && DataOf(NATIVE, OLD_IMAGE, STRING_MAP) == [Strs([Some([97])])]
  {
    hide Readable, DataOf, EncVals, EncOldVals;
    OldStrings(Some([97, 98]));
    OldStrings(Some([97]));
    assert OLD_IMAGE[10..16] == [2, 0, 0, 0] + [97, 98] && OLD_IMAGE[10..15] == [2, 0, 0, 0] + [97];
    assert EncOldStr(NATIVE, [97, 98]) == [2, 0, 0, 0] + [97, 98] && EncStr(NATIVE, Some([97])) == [2, 0, 0, 0] + [97];
    ReadableExact(NATIVE, OLD_IMAGE, STRING_MAP, [Strs([Some([97])])]);
  }

  lemma OldStrings(s: Option<seq<byte>>)
    requires s.Some?
    ensures PlainVals([Strs([s])]) && EncOldVals(NATIVE, [Strs([s])]) == EncOldStr(NATIVE, s.value)
    ensures EncVals(NATIVE, [Strs([s])]) == EncStr(NATIVE, s)
  {
    hide EncOldStr, EncStr;
    var none: seq<Option<seq<byte>>>, vals := [], [Strs([s])];
    assert [s][..0] == none && vals[..0] == [];
    assert EncStrs(NATIVE, [s]) == EncStrs(NATIVE, none) + EncStr(NATIVE, s) == EncStr(NATIVE, s);
    assert EncOldStrs(NATIVE, [s]) == EncOldStrs(NATIVE, none) + EncOldStr(NATIVE, s.value) == EncOldStr(NATIVE, s.value);
    assert EncVals(NATIVE, vals) == EncVals(NATIVE, []) + Enc(NATIVE, vals[0]) == Enc(NATIVE, vals[0]);
    assert EncOldVals(NATIVE, vals) == EncOldVals(NATIVE, []) + EncOld(NATIVE, vals[0]) == EncOld(NATIVE, vals[0]);
  }

  /** The same through the interface: tpl_load answers 0, and tpl_unpack gives the program "a". */
  method ReadOldImage() returns (got: seq<Val>)
    ensures got == [Strs([Some([97])])]
  {
    hide Mapped, Refs, Sane, HoldsOld, Readable, DataOf, HoldsData;
    OldImageAccepted();
    OldImageMisread();
    var r := new Reader(STRING_MAP, false);
    var rc := r.Load(OLD_IMAGE, false);
    rc, got := r.Unpack(0, [Strs([])]);
  }
}
