/** tpl_ser_osz, tpl_dump_to_mem and tpl_dump_atyp: the size that is computed is the size that is written. */
module TplDump {
  import opened Wrappers
  import opened Bytes
  import opened Sequences
  import opened TplWords
  import opened TplFormat
  import opened TplPack
  import opened TplImage

  /** The data of the root as tpl_dump finds it. */
  function RootVals(t: Tpl): seq<Val>
    reads t
    requires |t.f| > 0 && |t.root| == |t.f[0]|
  {
    TakenAll(t.f[0], t.root, t.elems, |t.f[0]|)
  }

  /** Every root child has been packed, and no root array has more elements than a reader can count. */
  ghost predicate Dumpable(t: Tpl, m: Map)
    reads t
  {
    t.Valid() && Mapped(m) && m.f == t.f && FitsVals(t.f, t.f[0], RootVals(t))
  }

  method SerOsz(t: Tpl, m: Map) returns (sz: nat)
    requires Dumpable(t, m)
    ensures sz == ImageSize(m, RootVals(t))
  {
    hide Size, SizeRows, FitsAll, Mapped, Enc;
    sz := HeadSize(m);
    NoSize();
    var cs := t.f[0];
    var k := 0;
    while k < |cs|
      invariant 0 <= k <= |cs|
      invariant sz == HeadSize(m) + Size(TakenAll(cs, t.root, t.elems, k))
    {
      TakenAt(cs, t.root, t.elems, |cs|, k);
      var one := OneSize(t, m, k);
      sz := sz + one;
      SizeNext(TakenAll(cs, t.root, t.elems, k), Taken(cs[k], t.root[k], t.elems));
      k := k + 1;
    }
    SizeIs(TakenAll(cs, t.root, t.elems, k));
  }

  lemma SizeIs(vals: seq<Val>)
    ensures Size(vals) == |EncVals(NATIVE, vals)|
  {
  }

  method OneSize(t: Tpl, ghost m: Map, k: nat) returns (one: nat)
    requires Dumpable(t, m) && k < |t.f[0]|
    ensures one == |Enc(NATIVE, Taken(t.f[0][k], t.root[k], t.elems))|
  {
    hide SizeRows, FitsAll, Mapped, TakenAll;
    var c := t.f[0][k];
    TakenAt(t.f[0], t.root, t.elems, |t.f[0]|, k);
    assert Fits(t.f, c, Taken(c, t.root[k], t.elems));
    match c
    case Num(sz, num) =>
      NumsSizeEnc(NATIVE, t.root[k].ns, sz);
      one := sz * num;
    case Bin =>
      one := 4 + |t.root[k].b|;
    case Str(num) =>
      one := StrsOsz(t.root[k].ss);
    case Ary(j) =>
      ElemsSize(t.elems[j]);
      one := 4 + t.serOsz[j];
  }

  method StrsOsz(ss: seq<Option<seq<byte>>>) returns (one: nat)
    ensures one == |EncStrs(NATIVE, ss)|
  {
    one := 0;
    var i := 0;
    while i < |ss|
      invariant 0 <= i <= |ss| && one == StrsSize(ss[..i])
    {
      assert ss[..i + 1][..i] == ss[..i];
      one := one + 4 + if ss[i].Some? then |ss[i].value| else 0;
      i := i + 1;
    }
    assert ss[..i] == ss;
    StrsSizeEnc(NATIVE, ss);
  }

  /** The cursor has moved from `dv0` over exactly `enc`, and what was written before is still there. */
  ghost predicate Wrote(before: seq<byte>, after: seq<byte>, dv0: nat, dv: nat, enc: seq<byte>) {
    && dv0 <= |before| && dv == dv0 + |enc| <= |after| == |before|
    && after[..dv] == before[..dv0] + enc
  }

  lemma WroteBoth(a: seq<byte>, b: seq<byte>, c: seq<byte>, dv0: nat, dv1: nat, dv2: nat, x: seq<byte>, y: seq<byte>)
    requires Wrote(a, b, dv0, dv1, x) && Wrote(b, c, dv1, dv2, y)
    ensures Wrote(a, c, dv0, dv2, x + y)
  {
    Assoc(a[..dv0], x, y);
  }

  /** tpl_cpv */
  method Cpv(buf: array<byte>, dv0: nat, src: seq<byte>) returns (dv: nat)
    requires dv0 + |src| <= buf.Length
    modifies buf
    ensures Wrote(old(buf[..]), buf[..], dv0, dv, src)
  {
    var i := 0;
    while i < |src|
      invariant 0 <= i <= |src|
      invariant forall k :: 0 <= k < dv0 ==> buf[k] == old(buf[k])
      invariant forall k :: 0 <= k < i ==> buf[dv0 + k] == src[k]
    {
      buf[dv0 + i] := src[i];
      i := i + 1;
    }
    dv := dv0 + |src|;
  }

  method DumpStrs(big: bool, ss: seq<Option<seq<byte>>>, buf: array<byte>, dv0: nat) returns (dv: nat)
    requires dv0 + |EncStrs(Order(big, false), ss)| <= buf.Length
    requires forall s <- ss :: FitsStr(s)
    modifies buf
    ensures Wrote(old(buf[..]), buf[..], dv0, dv, EncStrs(Order(big, false), ss))
  {
    hide Wrote, WordIn, EncStrs;
    ghost var o := Order(big, false);
    dv := dv0;
    NoStrs(o, buf[..], dv);
    var i := 0;
    while i < |ss|
      invariant 0 <= i <= |ss|
      invariant Wrote(old(buf[..]), buf[..], dv0, dv, EncStrs(o, ss[..i]))
    {
      StrsStep(o, ss, i);
      assert FitsStr(ss[i]);
      ghost var b1, dv1 := buf[..], dv;
      WroteTo(old(buf[..]), b1, dv0, dv1, EncStrs(o, ss[..i]));
      var slen := if ss[i].Some? then |ss[i].value| + 1 else 0;
      dv := Cpv(buf, dv, WordIn(Order(big, false), slen));
      ghost var b2, dv2 := buf[..], dv;
      WroteTo(b1, b2, dv1, dv2, WordIn(o, slen));
      if slen > 1 {
        dv := Cpv(buf, dv, ss[i].value);
        WroteBoth(b1, b2, buf[..], dv1, dv2, dv, WordIn(o, slen), ss[i].value);
      } else {
        assert EncStr(o, ss[i]) == WordIn(o, slen);
      }
      WroteBoth(old(buf[..]), b1, buf[..], dv0, dv1, dv, EncStrs(o, ss[..i]), EncStr(o, ss[i]));
      i := i + 1;
    }
    assert ss[..i] == ss;
  }

  lemma NoStrs(o: Order, b: seq<byte>, dv: nat)
    requires dv <= |b|
    ensures Wrote(b, b, dv, dv, EncStrs(o, [])) && Wrote(b, b, dv, dv, EncVals(o, [])) && Wrote(b, b, dv, dv, EncRows(o, []))
  {
  }

  lemma WroteTo(a: seq<byte>, b: seq<byte>, dv0: nat, dv: nat, enc: seq<byte>)
    requires Wrote(a, b, dv0, dv, enc)
    ensures dv == dv0 + |enc| && |a| == |b|
  {
  }

  /** One child's data. */
  method DumpVal(f: Format, c: Child, v: Val, big: bool, buf: array<byte>, dv0: nat) returns (dv: nat)
    requires Fits(f, c, v) && dv0 + |Enc(Order(big, false), v)| <= buf.Length
    modifies buf
    ensures Wrote(old(buf[..]), buf[..], dv0, dv, Enc(Order(big, false), v))
    decreases v, 0
  {
    hide Wrote, WordIn, EncRows, EncNums, EncStrs;
    ghost var o := Order(big, false);
    match c
    case Num(sz, num) =>
      dv := Cpv(buf, dv0, EncNums(Order(big, false), v.ns));
    case Bin =>
      dv := Cpv(buf, dv0, WordIn(Order(big, false), |v.b|));
      ghost var b1, dv1 := buf[..], dv;
      WroteTo(old(buf[..]), b1, dv0, dv1, WordIn(o, |v.b|));
      dv := Cpv(buf, dv, v.b);
      WroteBoth(old(buf[..]), b1, buf[..], dv0, dv1, dv, WordIn(o, |v.b|), v.b);
    case Str(num) =>
      dv := DumpStrs(big, v.ss, buf, dv0);
    case Ary(j) =>
      dv := DumpAtyp(f, f[j], v.rows, big, buf, dv0);
  }

  /** tpl_dump_atyp: the count, then the backbone. */
  method DumpAtyp(f: Format, cs: seq<Child>, rows: seq<Row>, big: bool, buf: array<byte>, dv0: nat) returns (dv: nat)
    requires FitsRows(f, cs, rows) && dv0 + |Enc(Order(big, false), Elems(rows))| <= buf.Length
    modifies buf
    ensures Wrote(old(buf[..]), buf[..], dv0, dv, Enc(Order(big, false), Elems(rows)))
    decreases rows, 3
  {
    hide Wrote, WordIn, EncVals, EncRows, Fits;
    ghost var o := Order(big, false);
    dv := Cpv(buf, dv0, WordIn(Order(big, false), |rows|));
    ghost var b1, dv1 := buf[..], dv;
    WroteTo(old(buf[..]), b1, dv0, dv1, WordIn(o, |rows|));
    NoStrs(o, b1, dv1);
    var i := 0;
    while i < |rows|
      invariant 0 <= i <= |rows| && |b1| == buf.Length
      invariant Wrote(b1, buf[..], dv1, dv, EncRows(o, rows[..i]))
    {
      RowsStep(o, rows, i);
      ghost var b2, dv2 := buf[..], dv;
      WroteTo(b1, b2, dv1, dv2, EncRows(o, rows[..i]));
      dv := DumpVals(f, cs, rows[i].vals, big, buf, dv);
      WroteBoth(b1, b2, buf[..], dv1, dv2, dv, EncRows(o, rows[..i]), EncVals(o, rows[i].vals));
      i := i + 1;
    }
    assert rows[..i] == rows;
    WroteBoth(old(buf[..]), b1, buf[..], dv0, dv1, dv, WordIn(o, |rows|), EncRows(o, rows));
  }

  /** The children of a packable, in order. */
  method DumpVals(f: Format, cs: seq<Child>, vals: seq<Val>, big: bool, buf: array<byte>, dv0: nat) returns (dv: nat)
    requires FitsVals(f, cs, vals) && dv0 + |EncVals(Order(big, false), vals)| <= buf.Length
    modifies buf
    ensures Wrote(old(buf[..]), buf[..], dv0, dv, EncVals(Order(big, false), vals))
    decreases vals, 3
  {
    hide Wrote, Enc, EncVals, Fits;
    ghost var o := Order(big, false);
    dv := dv0;
    NoStrs(o, buf[..], dv);
    var k := 0;
    while k < |vals|
      invariant 0 <= k <= |vals|
      invariant Wrote(old(buf[..]), buf[..], dv0, dv, EncVals(o, vals[..k]))
    {
      ValsStep(o, vals, k);
      ghost var b1, dv1 := buf[..], dv;
      WroteTo(old(buf[..]), b1, dv0, dv1, EncVals(o, vals[..k]));
      dv := DumpVal(f, cs[k], vals[k], big, buf, dv);
      WroteBoth(old(buf[..]), b1, buf[..], dv0, dv1, dv, EncVals(o, vals[..k]), Enc(o, vals[k]));
      k := k + 1;
    }
    assert vals[..k] == vals;
  }

  /** The preamble: prefix, flags, length, format string with its NUL, octothorpe lengths. */
  method DumpHead(m: Map, big: bool, sz: nat, buf: array<byte>) returns (dv: nat)
    requires HeadSize(m) <= buf.Length
    modifies buf
    ensures Wrote(old(buf[..]), buf[..], 0, dv, Head(Order(big, false), m, sz))
  {
    hide Wrote, WordIn, Flags, EncLens, FMT_CHARS;
    ghost var o, b0 := Order(big, false), buf[..];
    var flags := Flags(m.fmt, big);
    dv := Cpv(buf, 0, MAGIC);
    ghost var b1 := buf[..];
    dv := Next(buf, b0, MAGIC, dv, [flags]);
    dv := Next(buf, b0, MAGIC + [flags], dv, WordIn(Order(big, false), sz));
    dv := Next(buf, b0, MAGIC + [flags] + WordIn(o, sz), dv, m.fmt + [0]);
    dv := Next(buf, b0, MAGIC + [flags] + WordIn(o, sz) + (m.fmt + [0]), dv, EncLens(Order(big, false), m.fxlens));
  }

  method Next(buf: array<byte>, ghost b0: seq<byte>, ghost enc: seq<byte>, dv0: nat, src: seq<byte>) returns (dv: nat)
    requires |b0| == buf.Length && Wrote(b0, buf[..], 0, dv0, enc) && |enc| + |src| <= buf.Length
    modifies buf
    ensures Wrote(b0, buf[..], 0, dv, enc + src)
  {
    dv := Cpv(buf, dv0, src);
    WroteBoth(b0, old(buf[..]), buf[..], 0, dv0, dv, enc, src);
  }

  /** tpl_dump_to_mem fills the buffer with the image and nothing is left over. */
  method DumpToMem(t: Tpl, m: Map, big: bool, buf: array<byte>, sz: nat) returns (rc: int)
    requires Dumpable(t, m) && buf.Length == sz == ImageSize(m, RootVals(t))
    modifies buf
    ensures rc == 0 && buf[..] == Image(Order(big, false), m, RootVals(t))
  {
    ghost var o := Order(big, false);
    var vals := RootVals(t);
    Lengths(o, m, vals);
    var dv := DumpHead(m, big, sz, buf);
    ghost var b1, dv1 := buf[..], dv;
    WroteTo(old(buf[..]), b1, 0, dv1, Head(o, m, sz));
    dv := DumpVals(t.f, t.f[0], vals, big, buf, dv);
    WroteBoth(old(buf[..]), b1, buf[..], 0, dv1, dv, Head(o, m, sz), EncVals(o, vals));
    WroteAll(old(buf[..]), buf[..], dv, Image(o, m, vals));
    rc := 0;
  }

  lemma Lengths(o: Order, m: Map, vals: seq<Val>)
    ensures |Head(o, m, ImageSize(m, vals))| == HeadSize(m)
    ensures HeadSize(m) + |EncVals(o, vals)| == ImageSize(m, vals) == |Image(o, m, vals)|
  {
    ImageLength(o, m, vals);
  }

  lemma WroteAll(a: seq<byte>, b: seq<byte>, dv: nat, enc: seq<byte>)
    requires Wrote(a, b, 0, dv, enc) && |enc| == |b|
    ensures b == enc
  {
    assert a[..0] + enc == enc;
    assert b[..dv] == b;
  }

  /** TPL_MEM with a buffer of tpl_dump's own: the length it reports is the length of the image. */
  method Dump(t: Tpl, m: Map, big: bool) returns (buf: array<byte>, sz: nat)
    requires Dumpable(t, m)
    ensures fresh(buf) && buf.Length == sz && buf[..] == Image(Order(big, false), m, RootVals(t))
  {
    sz := SerOsz(t, m);
    buf := new byte[sz];
    var rc := DumpToMem(t, m, big, buf, sz);
  }
}
