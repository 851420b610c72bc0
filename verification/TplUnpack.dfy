/** tpl_load, tpl_unpackA0 and tpl_unpack. */
module TplUnpack {
  import opened Wrappers
  import opened Bytes
  import opened TplWords
  import opened TplFormat
  import opened TplImage
  import opened TplSize
  import opened TplSanity
  import opened TplDecode

  /** After the first `n` children have been read, their arrays are open at the first element. */
  function Opened(cs: seq<Child>, vals: seq<Val>, rest: seq<seq<Row>>, n: nat): (r: seq<seq<Row>>)
    requires n <= |cs| == |vals|
    ensures |r| == |rest|
  {
    if n == 0 then rest else OpenOne(cs[n - 1], vals[n - 1], Opened(cs, vals, rest, n - 1))
  }

  function OpenOne(c: Child, v: Val, rest: seq<seq<Row>>): (r: seq<seq<Row>>)
    ensures |r| == |rest|
  {
    if c.Ary? && c.idx < |rest| && v.Elems? then rest[c.idx := v.rows] else rest
  }

  lemma {:induction false} OpenedOther(cs: seq<Child>, vals: seq<Val>, rest: seq<seq<Row>>, n: nat, j: nat)
    requires n <= |cs| == |vals| && j < |rest| && Ary(j) !in cs[..n]
    ensures Opened(cs, vals, rest, n)[j] == rest[j]
  {
    if n > 0 {
      assert cs[..n] == cs[..n - 1] + [cs[n - 1]];
      OpenedOther(cs, vals, rest, n - 1, j);
    }
  }

  /** The program's variables after an element has been read: arrays have none. */
  ghost predicate Received(cs: seq<Child>, before: seq<Val>, vals: seq<Val>, after: seq<Val>, n: nat) {
    && n <= |cs| == |before| == |vals| == |after|
    && (forall k :: 0 <= k < n ==> after[k] == if cs[k].Ary? then before[k] else vals[k])
    && (forall k :: n <= k < |cs| ==> after[k] == before[k])
  }

  /** memcpy, and tpl_byteswap if the image is the other way round. */
  method ReadNumber(x: bool, text: seq<byte>, dv: nat, sz: nat) returns (b: seq<byte>)
    requires dv + sz <= |text|
    ensures b == NumberIn(Order(false, x), text[dv..dv + sz])
  {
    var caddr := new byte[sz](i requires 0 <= i < sz => text[dv + i]);
    assert caddr[..] == text[dv..dv + sz];
    if x {
      ByteSwap(caddr);
    }
    b := caddr[..];
  }

  method ReadNums(o: Order, text: seq<byte>, sz: nat, num: nat, dv0: nat, ghost ns: seq<seq<byte>>) returns (r: seq<seq<byte>>, dv: nat)
    requires |ns| == num && (forall n <- ns :: |n| == sz) && Holds(text, dv0, EncNums(o, ns))
    ensures r == ns && dv == dv0 + |EncNums(o, ns)|
  {
    hide NumberIn, Reverse, EncNums, Holds;
    r, dv := [], dv0;
    NoEnc(o);
    var fidx := 0;
    while fidx < num
      invariant 0 <= fidx <= num && r == ns[..fidx] && dv == dv0 + |EncNums(o, ns[..fidx])|
    {
      NumsStep(o, ns, fidx);
      assert ns[fidx] in ns;
      HoldsBoth(text, dv0, EncNums(o, ns[..fidx]) + NumberIn(o, ns[fidx]), EncNums(o, ns[fidx + 1..]));
      HoldsBoth(text, dv0, EncNums(o, ns[..fidx]), NumberIn(o, ns[fidx]));
      NumberTwice(o, ns[fidx]);
      HoldsAt(text, dv, NumberIn(o, ns[fidx]));
      var b := ReadNumber(o.x, text, dv, sz);
      SameNumber(o, text[dv..dv + sz]);
      r := r + [b];
      dv := dv + sz;
      fidx := fidx + 1;
    }
    assert ns[..fidx] == ns;
  }

  lemma HoldsAt(text: seq<byte>, dv: nat, enc: seq<byte>)
    requires Holds(text, dv, enc)
    ensures dv + |enc| <= |text| && text[dv..dv + |enc|] == enc
  {
  }

  lemma SameNumber(o: Order, b: seq<byte>)
    ensures NumberIn(o, b) == NumberIn(Order(false, o.x), b)
  {
  }

  /** One string of tpl_unpack, whatever the buffer holds, as long as it is inside. */
  method ReadStr(o: Order, text: seq<byte>, dv0: nat) returns (s: Option<seq<byte>>, dv: nat)
    requires dv0 + 4 <= |text| && dv0 + 4 + StrBytes(Plus1(o), ReadAt(o, text, dv0)) <= |text|
    ensures s == StrAt(o, text, dv0) && dv == dv0 + 4 + StrBytes(Plus1(o), ReadAt(o, text, dv0))
  {
    hide ReadAt;
    var slen := ReadAt(o, text, dv0);
    dv := dv0 + 4;
    if slen > 0 {
      var str := text[dv..dv + (slen - 1)];
      dv := dv + (slen - 1);
      s := Some(str);
    } else {
      s := None;
    }
  }

  method ReadStrs(o: Order, text: seq<byte>, num: nat, dv0: nat, ghost ss: seq<Option<seq<byte>>>) returns (r: seq<Option<seq<byte>>>, dv: nat)
    requires |ss| == num && (forall s <- ss :: FitsStr(s)) && Holds(text, dv0, EncStrs(o, ss))
    ensures r == ss && dv == dv0 + |EncStrs(o, ss)|
  {
    hide EncStr, EncStrs, ReadAt, FitsStr, StrAt;
    r, dv := [], dv0;
    NoEnc(o);
    var fidx := 0;
    while fidx < num
      invariant 0 <= fidx <= num && r == ss[..fidx] && dv == dv0 + |EncStrs(o, ss[..fidx])|
    {
      StrsStep(o, ss, fidx);
      assert FitsStr(ss[fidx]);
      HoldsBoth(text, dv0, EncStrs(o, ss[..fidx]) + EncStr(o, ss[fidx]), EncStrs(o, ss[fidx + 1..]));
      HoldsBoth(text, dv0, EncStrs(o, ss[..fidx]), EncStr(o, ss[fidx]));
      StrRead(o, text, dv, ss[fidx]);
      var s;
      s, dv := ReadStr(o, text, dv);
      r := r + [s];
      fidx := fidx + 1;
    }
    assert ss[..fidx] == ss;
  }

  method SkipStrs(o: Order, text: seq<byte>, num: nat, dv0: nat, ghost ss: seq<Option<seq<byte>>>) returns (dv: nat)
    requires |ss| == num && (forall s <- ss :: FitsStr(s)) && Holds(text, dv0, EncStrs(o, ss))
    ensures dv == dv0 + |EncStrs(o, ss)|
  {
    hide EncStr, EncStrs, ReadAt, FitsStr, Holds;
    dv := dv0;
    NoEnc(o);
    var i := 0;
    while i < num
      invariant 0 <= i <= num && dv == dv0 + |EncStrs(o, ss[..i])|
    {
      StrsStep(o, ss, i);
      assert FitsStr(ss[i]);
      HoldsBoth(text, dv0, EncStrs(o, ss[..i]) + EncStr(o, ss[i]), EncStrs(o, ss[i + 1..]));
      HoldsBoth(text, dv0, EncStrs(o, ss[..i]), EncStr(o, ss[i]));
      StrRead(o, text, dv, ss[i]);
      var slen := ReadAt(o, text, dv);
      dv := dv + 4;
      if slen > 1 {
        dv := dv + (slen - 1);
      }
      i := i + 1;
    }
    assert ss[..i] == ss;
  }

  /** Packable `j` still has the elements `rest` to be read at `cur`. */
  ghost predicate Cursor(o: Order, text: seq<byte>, f: Format, j: nat, num: nat, cur: Option<nat>, rest: seq<Row>)
    requires j < |f|
  {
    && num == |rest| && FitsRows(f, f[j], rest)
    && if cur.Some? then Holds(text, cur.value, EncRows(o, rest)) else rest == []
  }

  /** ... and so has every packable, except perhaps `but`, whose element is being read. */
  ghost predicate Cursors(o: Order, text: seq<byte>, f: Format, num: seq<nat>, cur: seq<Option<nat>>, rest: seq<seq<Row>>, but: int) {
    && |num| == |cur| == |rest| == |f|
    && forall j :: 0 <= j < |f| && j != but ==> Cursor(o, text, f, j, num[j], cur[j], rest[j])
  }

  ghost predicate HoldsData(o: Order, text: seq<byte>, m: Map, vals: seq<Val>) {
    Mapped(m) && Holds(text, 8, m.fmt + [0]) && HoldsVals(o, text, m, vals)
  }

  /** tpl_find_data_start */
  method FindDataStart(text: seq<byte>, ghost m: Map) returns (d: nat)
    requires Mapped(m) && Holds(text, 8, m.fmt + [0])
    ensures d == Start(m)
  {
    hide WellFormed, FMT_CHARS, Octothorpes;
    var octothorpes := 0;
    d := 8;
    ghost var scanned: seq<byte> := [];
    NotNul();
    NoOctothorpes();
    assert text[8..8 + |m.fmt| + 1] == m.fmt + [0];
    Position(text, 8, m.fmt, 0);
    while text[d] != 0
      invariant 8 <= d <= 8 + |m.fmt| < |text| && scanned == m.fmt[..d - 8]
      invariant octothorpes == Octothorpes(scanned)
      decreases 8 + |m.fmt| - d
    {
      Symbol(text, m.fmt, d);
      NextOctothorpe(scanned, text[d]);
      scanned := scanned + [text[d]];
      if text[d] == POUND {
        octothorpes := octothorpes + 1;
      }
      d := d + 1;
    }
    Symbol(text, m.fmt, d);
    assert scanned == m.fmt;
    d := d + 1 + octothorpes * 4;
  }

  lemma Symbol(text: seq<byte>, fmt: seq<byte>, d: nat)
    requires Holds(text, 8, fmt + [0]) && 8 <= d <= 8 + |fmt| && 0 !in fmt
    ensures text[d] == if d == 8 + |fmt| then 0 else fmt[d - 8]
    ensures text[d] == 0 <==> d == 8 + |fmt|
  {
    assert text[8..8 + |fmt| + 1][d - 8] == text[d];
  }

  /** A mapped tpl that is being read on a machine of kind `big`. */
  class Reader {
    const m: Map
    const big: bool
    var text: seq<byte>
    var x: bool                   // TPL_XENDIAN
    var oldStr: bool              // TPL_OLD_STRING_FMT
    var loaded: bool              // TPL_RDONLY
    var num: seq<nat>             // of each A(...) node
    var cur: seq<Option<nat>>     // of each A(...) node
    ghost var vals: seq<Val>      // the data of the root
    ghost var rest: seq<seq<Row>> // the elements of each A(...) node that have not been read

    ghost function O(): Order
      reads this
    {
      Order(big, x)
    }

    /** No array has been opened. */
    ghost predicate Blank()
      reads this
    {
      num == seq(|m.f|, j => 0) && cur == seq(|m.f|, j => None)
    }

    /** The flags that say how an image is read. */
    function Flags(): Way
      reads this
    {
      Way(Order(big, x), oldStr)
    }

    /** The flags that the next tpl_load starts from: those of a tpl that has been loaded are reset. */
    ghost function StartFlags(): Way
      reads this
    {
      if loaded then NoFlags(big) else Flags()
    }

    ghost predicate Valid()
      reads this
    {
      HoldsData(O(), text, m, vals) && Cursors(O(), text, m.f, num, cur, rest, -1)
    }

    constructor (m: Map, big: bool)
      requires Mapped(m)
      ensures this.m == m && this.big == big
      ensures Blank() && !loaded && Flags() == NoFlags(big)
    {
      this.m, this.big := m, big;
      num := seq(|m.f|, j => 0);
      cur := seq(|m.f|, j => None);
      text, x, oldStr, loaded := [], false, false, false;
      vals, rest := [], [];
    }

    /** A leaf child is read and the cursor moves over it. */
    method ReadLeaf(i: nat, k: nat, dv0: nat, ghost v: Val) returns (r: Val, dv: nat)
      requires i < |m.f| && k < |m.f[i]| && !m.f[i][k].Ary?
      requires Fits(m.f, m.f[i][k], v) && Holds(text, dv0, Enc(O(), v))
      ensures r == v && dv == dv0 + |Enc(O(), v)|
    {
      hide ReadAt, EncStrs, EncNums;
      var o := Order(big, x);
      match m.f[i][k]
      case Num(sz, num) =>
        var ns;
        ns, dv := ReadNums(o, text, sz, num, dv0, v.ns);
        r := Nums(ns);
      case Str(num) =>
        var ss;
        ss, dv := ReadStrs(o, text, num, dv0, v.ss);
        r := Strs(ss);
      case Bin =>
        HoldsBoth(text, dv0, WordIn(o, |v.b|), v.b);
        HoldsWord(o, text, dv0, |v.b|);
        var slen := ReadAt(o, text, dv0);
        dv := dv0 + 4;
        r := Buf(text[dv..dv + slen]);
        dv := dv + slen;
    }

    /** An array child is opened at its first element and the cursor moves over all of it. */
    method Open(i: nat, k: nat, dv0: nat, ghost v: Val, ghost but: int) returns (dv: nat)
      requires WellFormed(m.f) && i < |m.f| && k < |m.f[i]| && m.f[i][k].Ary?
      requires Cursors(O(), text, m.f, num, cur, rest, but)
      requires Fits(m.f, m.f[i][k], v) && Holds(text, dv0, Enc(O(), v))
      modifies this`num, this`cur, this`rest
      ensures Cursors(O(), text, m.f, num, cur, rest, but)
      ensures dv == dv0 + |Enc(O(), v)| && rest == OpenOne(m.f[i][k], v, old(rest))
      ensures forall j :: 0 <= j < |m.f| && j != m.f[i][k].idx ==> num[j] == old(num)[j] && cur[j] == old(cur)[j]
    {
      hide ReadAt, EncRows, FitsRows, Current, End;
      var o, j := Order(big, x), m.f[i][k].idx;
      WellFormedRefs(m.f);
      var way := Way(o, false);
      assert Current(way, m.f) by { CurrentNew(o, m.f); }
      EndEnc(way, text, m.f, i, m.f[i][k], v, dv0);
      HoldsBoth(text, dv0, WordIn(o, |v.rows|), EncRows(o, v.rows));
      HoldsWord(o, text, dv0, |v.rows|);
      EndSame(way, text, m.f, i, j, dv0);
      var bytes := Serlen(way, text, m.f, j, dv0);
      num := num[j := ReadAt(o, text, dv0)];
      cur := cur[j := Some(dv0 + 4)];
      rest := rest[j := v.rows];
      dv := dv0 + bytes.value;
    }

    /** The children of packable `i`, in order. */
    method ReadVals(i: nat, addr: seq<Val>, dv0: nat, ghost row: seq<Val>, ghost but: int) returns (got: seq<Val>, dv: nat)
      requires WellFormed(m.f) && i < |m.f| && |addr| == |m.f[i]|
      requires Cursors(O(), text, m.f, num, cur, rest, but)
      requires FitsVals(m.f, m.f[i], row) && Holds(text, dv0, EncVals(O(), row))
      modifies this`num, this`cur, this`rest
      ensures Cursors(O(), text, m.f, num, cur, rest, but)
      ensures dv == dv0 + |EncVals(O(), row)| && rest == Opened(m.f[i], row, old(rest), |m.f[i]|)
      ensures Received(m.f[i], addr, row, got, |m.f[i]|)
      ensures num[i] == old(num[i]) && cur[i] == old(cur[i])
    {
      hide Enc, EncVals, Fits, Cursor, Holds, OpenOne;
      ghost var o := O();
      var cs := m.f[i];
      got, dv := addr, dv0;
      NoVals(o, row);
      var k := 0;
      while k < |cs|
        invariant 0 <= k <= |cs|
        invariant Cursors(o, text, m.f, num, cur, rest, but)
        invariant dv == dv0 + |EncVals(o, row[..k])| && rest == Opened(cs, row, old(rest), k)
        invariant Received(cs, addr, row, got, k)
        invariant num[i] == old(num[i]) && cur[i] == old(cur[i])
      {
        ValsStep(o, row, k);
        HoldsBoth(text, dv0, EncVals(o, row[..k]) + Enc(o, row[k]), EncVals(o, row[k + 1..]));
        HoldsBoth(text, dv0, EncVals(o, row[..k]), Enc(o, row[k]));
        if cs[k].Ary? {
          dv := Open(i, k, dv, row[k], but);
        } else {
          var v;
          v, dv := ReadLeaf(i, k, dv, row[k]);
          got := got[k := v];
          OpenLeaf(cs[k], row[k], rest);
        }
        k := k + 1;
      }
      assert row[..k] == row;
    }

    /** tpl_unpackA0 passes over a leaf child of the root. */
    method SkipLeaf(k: nat, dv0: nat, ghost v: Val) returns (dv: nat)
      requires |m.f| > 0 && k < |m.f[0]| && !m.f[0][k].Ary?
      requires Fits(m.f, m.f[0][k], v) && Holds(text, dv0, Enc(O(), v))
      ensures dv == dv0 + |Enc(O(), v)|
    {
      hide ReadAt, EncStrs, EncNums;
      var o := Order(big, x);
      match m.f[0][k]
      case Num(sz, num) =>
        dv := dv0;
        NoEnc(o);
        var fidx := 0;
        while fidx < num
          invariant 0 <= fidx <= num && dv == dv0 + |EncNums(o, v.ns[..fidx])|
        {
          NumsStep(o, v.ns, fidx);
          assert v.ns[fidx] in v.ns;
          dv := dv + sz;
          fidx := fidx + 1;
        }
        assert v.ns[..fidx] == v.ns;
      case Str(num) =>
        dv := SkipStrs(o, text, num, dv0, v.ss);
      case Bin =>
        HoldsBoth(text, dv0, WordIn(o, |v.b|), v.b);
        HoldsWord(o, text, dv0, |v.b|);
        var slen := ReadAt(o, text, dv0);
        dv := dv0 + 4;
        dv := dv + slen;
    }

    /** tpl_unpackA0: the arrays of the root are open as soon as an image is loaded. */
    method UnpackA0()
      requires Mapped(m) && HoldsData(O(), text, m, vals) && Cursors(O(), text, m.f, num, cur, rest, -1)
      modifies this`num, this`cur, this`rest
      ensures Cursors(O(), text, m.f, num, cur, rest, -1) && rest == Opened(m.f[0], vals, old(rest), |m.f[0]|)
    {
      hide Enc, EncVals, Fits, Cursor, Holds, OpenOne, Octothorpes, FMT_CHARS;
      ghost var o := O();
      var cs := m.f[0];
      var dv := FindDataStart(text, m);
      NoVals(o, vals);
      var k := 0;
      while k < |cs|
        invariant 0 <= k <= |cs|
        invariant Cursors(o, text, m.f, num, cur, rest, -1)
        invariant dv == Start(m) + |EncVals(o, vals[..k])| && rest == Opened(cs, vals, old(rest), k)
      {
        ValsStep(o, vals, k);
        HoldsBoth(text, Start(m), EncVals(o, vals[..k]) + Enc(o, vals[k]), EncVals(o, vals[k + 1..]));
        HoldsBoth(text, Start(m), EncVals(o, vals[..k]), Enc(o, vals[k]));
        if cs[k].Ary? {
          dv := Open(0, k, dv, vals[k], -1);
        } else {
          dv := SkipLeaf(k, dv, vals[k]);
          OpenLeaf(cs[k], vals[k], rest);
        }
        k := k + 1;
      }
    }

    /** tpl_free_keep_map, as it leaves the array nodes and the flags. */
    method FreeKeepMap()
      modifies this`num, this`cur, this`x, this`oldStr, this`loaded
      ensures Blank() && Flags() == NoFlags(big) && !loaded
    {
      num := seq(|m.f|, j => 0);
      cur := seq(|m.f|, j => None);
      x, oldStr, loaded := false, false, false;
    }

    /** tpl_load of a memory buffer, in either byte order, with or without excess bytes behind the data. A buffer
      that is accepted must be one that can be read; `ReadableExact` and `SaneReadable` say which ones those are.
      A load that fails leaves the flags of the buffer set, and the next one starts from them. */
    method Load(img: seq<byte>, excessOk: bool) returns (rc: int)
      requires Mapped(m) && (loaded || Blank())
      requires SaneWith(img, m, StartFlags(), excessOk) ==> Readable(WayOf(img[3], big).o, img, m)
      modifies this
      ensures rc == 0 <==> SaneWith(img, m, old(StartFlags()), excessOk)
      ensures rc == 0 || rc == -1
      ensures rc != 0 ==> !loaded && Blank() && Flags() == FlagsLeft(old(StartFlags()), img)
      ensures rc == 0 ==> loaded && Valid() && text == img && x == Swapped(img[3], big) && !oldStr && vals == DataOf(O(), img, m)
      ensures rc == 0 ==> rest == Opened(m.f[0], vals, Nothing(m.f), |m.f[0]|)
    {
      hide Mapped, LensAt, Holds, FitsVals, EncVals, EncLens, WordIn, HeadSize, Opened, EndRows, Readable, HoldsVals, ValsAt, FlagsLeft;
      MappedRefs(m);
      if loaded {
        FreeKeepMap();
      }
      var w;
      rc, w := Sanity(img, m, Flags(), excessOk);
      x, oldStr := w.o.x, w.oldStr;
      if rc != 0 {
        rc := -1;
        return;
      }
      // The flags are overwritten, and only TPL_XENDIAN is set again.
      text, x, oldStr, loaded, rest := img, Swapped(img[3], big), false, true, Nothing(m.f);
      vals := DataOf(O(), img, m);
      ReadableExact(O(), img, m, vals);
      NothingOpen(O(), text, m.f);
      UnpackA0();
    }

    /** tpl_unpack: 1 for the root, and for an array the number of elements that were left, this one included. */
    method Unpack(i: nat, addr: seq<Val>) returns (rc: int, got: seq<Val>)
      requires Valid() && (i < |m.f| ==> |addr| == |m.f[i]|)
      modifies this`num, this`cur, this`rest
      ensures Valid()
      ensures i >= |m.f| ==> rc == -1 && got == addr && rest == old(rest)
      ensures i == 0 ==> rc == 1 && Received(m.f[0], addr, vals, got, |m.f[0]|) && rest == Opened(m.f[0], vals, old(rest), |m.f[0]|)
      ensures 0 < i < |m.f| ==> rc == |old(rest)[i]|
      ensures 0 < i < |m.f| && rc == 0 ==> got == addr && rest == old(rest)
      ensures 0 < i < |m.f| && rc > 0 ==> |old(rest)[i][0].vals| == |m.f[i]| && Received(m.f[i], addr, old(rest)[i][0].vals, got, |m.f[i]|)
      ensures 0 < i < |m.f| && rc > 0 ==> rest == Opened(m.f[i], old(rest)[i][0].vals, old(rest)[i := old(rest)[i][1..]], |m.f[i]|)
    {
      if i >= |m.f| {
        return -1, addr;
      }
      if i == 0 {
        rc := 1;
        got := UnpackRoot(addr);
      } else {
        rc, got := UnpackElement(i, addr);
      }
    }

    method UnpackRoot(addr: seq<Val>) returns (got: seq<Val>)
      requires Valid() && |addr| == |m.f[0]|
      modifies this`num, this`cur, this`rest
      ensures Valid() && Received(m.f[0], addr, vals, got, |m.f[0]|) && rest == Opened(m.f[0], vals, old(rest), |m.f[0]|)
    {
      hide Cursors, Received, EncVals;
      var dv := FindDataStart(text, m);
      got, dv := ReadVals(0, addr, dv, vals, -1);
    }

    method UnpackElement(i: nat, addr: seq<Val>) returns (rc: int, got: seq<Val>)
      requires Valid() && 0 < i < |m.f| && |addr| == |m.f[i]|
      modifies this`num, this`cur, this`rest
      ensures Valid() && rc == |old(rest)[i]|
      ensures rc == 0 ==> got == addr && rest == old(rest)
      ensures rc > 0 ==> |old(rest)[i][0].vals| == |m.f[i]| && Received(m.f[i], addr, old(rest)[i][0].vals, got, |m.f[i]|)
      ensures rc > 0 ==> rest == Opened(m.f[i], old(rest)[i][0].vals, old(rest)[i := old(rest)[i][1..]], |m.f[i]|)
    {
      hide EncVals, EncRows, Fits, Received, Opened, WellFormed, Holds;
      if num[i] <= 0 {
        return 0, addr;
      }
      rc := num[i];
      num := num[i := num[i] - 1];
      ghost var rows := rest[i];
      ghost var row := rows[0].vals;
      rest := rest[i := rows[1..]];
      FirstRow(O(), text, m.f, i, cur[i].value, rows);
      var dv;
      got, dv := ReadVals(i, addr, cur[i].value, row, i);
      NotOwnChild(m.f, i);
      OpenedOther(m.f[i], row, old(rest)[i := rows[1..]], |m.f[i]|, i);
      cur := cur[i := Some(dv)];
    }
  }

  lemma OpenLeaf(c: Child, v: Val, rest: seq<seq<Row>>)
    requires !c.Ary?
    ensures OpenOne(c, v, rest) == rest
  {
  }

  lemma NotOwnChild(f: Format, i: nat)
    requires WellFormed(f) && i < |f|
    ensures Ary(i) !in f[i][..|f[i]|]
  {
  }

  lemma FitsRest(f: Format, cs: seq<Child>, rows: seq<Row>)
    requires rows != [] && FitsRows(f, cs, rows)
    ensures FitsVals(f, cs, rows[0].vals) && FitsRows(f, cs, rows[1..])
  {
    hide FitsVals;
  }

  lemma FirstRow(o: Order, text: seq<byte>, f: Format, i: nat, dv: nat, rows: seq<Row>)
    requires i < |f| && rows != [] && FitsRows(f, f[i], rows) && Holds(text, dv, EncRows(o, rows))
    ensures FitsVals(f, f[i], rows[0].vals) && FitsRows(f, f[i], rows[1..])
    ensures Holds(text, dv, EncVals(o, rows[0].vals)) && Holds(text, dv + |EncVals(o, rows[0].vals)|, EncRows(o, rows[1..]))
  {
    hide EncVals, EncRows, FitsRows, FitsVals, Holds;
    FitsRest(f, f[i], rows);
    RowsStep(o, rows, 0);
    NoEnc(o);
    assert rows[..0] == [] && rows[0..] == rows;
    var one, more := EncVals(o, rows[0].vals), EncRows(o, rows[1..]);
    assert EncRows(o, rows) == [] + one + more == one + more;
    HoldsBoth(text, dv, EncVals(o, rows[0].vals), EncRows(o, rows[1..]));
  }

  function Nothing(f: Format): (r: seq<seq<Row>>)
    ensures |r| == |f|
  {
    seq(|f|, j => [])
  }

  lemma MappedRefs(m: Map)
    requires Mapped(m)
    ensures Refs(m.f) && |m.f| > 0
  {
  }

  lemma NothingOpen(o: Order, text: seq<byte>, f: Format)
    ensures Cursors(o, text, f, seq(|f|, j => 0), seq(|f|, j => None), Nothing(f), -1)
  {
  }

  lemma CurrentNew(o: Order, f: Format)
    ensures Current(Way(o, false), f)
  {
  }

  lemma EndSame(w: Way, text: seq<byte>, f: Format, i: nat, j: nat, dv: nat)
    requires Refs(f) && i < j < |f|
    ensures End(w, text, f, i, Ary(j), dv) == End(w, text, f, j - 1, Ary(j), dv)
  {
  }
}
