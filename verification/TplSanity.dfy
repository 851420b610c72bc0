/** tpl_sanity: which buffers tpl_load accepts. */
module TplSanity {
  import opened Wrappers
  import opened Bytes
  import opened Sequences
  import opened TplWords
  import opened TplFormat
  import opened TplImage
  import opened TplSize

  const ERR_NOT_MINSIZE := -1
  const ERR_MAGIC_MISMATCH := -2
  const ERR_INCONSISTENT_SZ := -3
  const ERR_FMT_INVALID := -4
  const ERR_FMT_MISSING_NUL := -5
  const ERR_FMT_MISMATCH := -6
  const ERR_FLEN_MISMATCH := -7
  const ERR_INCONSISTENT_SZ2 := -8
  const ERR_INCONSISTENT_SZ3 := -9
  const ERR_INCONSISTENT_SZ4 := -10
  const ERR_UNSUPPORTED_FLAGS := -11

  /** tpl_needs_endian_swap on a machine of kind `big`. */
  function Swapped(flags: byte, big: bool): bool {
    (flags % 2 == 1) != big
  }

  function WayOf(flags: byte, big: bool): Way {
    Way(Order(big, Swapped(flags, big)), flags / 2 % 2 == 0)
  }

  /** The flags of a tpl that has just been mapped. */
  function NoFlags(big: bool): Way {
    Way(Order(big, false), false)
  }

  /** tpl_sanity adds to TPL_XENDIAN and TPL_OLD_STRING_FMT, as it finds them, those of the buffer. */
  function WithFlags(w0: Way, flags: byte): (w: Way)
    ensures w.o.big == w0.o.big
  {
    var w := WayOf(flags, w0.o.big);
    Way(Order(w0.o.big, w0.o.x || w.o.x), w0.oldStr || w.oldStr)
  }

  /** The flags that tpl_sanity leaves behind. */
  function FlagsLeft(w0: Way, text: seq<byte>): (w: Way)
    ensures w.o.big == w0.o.big
  {
    if |text| < 9 || text[..3] != MAGIC then w0
    else if text[3] >= 4 then Way(WithFlags(w0, text[3]).o, w0.oldStr)
    else WithFlags(w0, text[3])
  }

  /** Where the data starts. */
  function Start(m: Map): nat {
    HeadSize(m)
  }

  /** The buffers that are accepted for a map: a preamble with this map's format and lengths, and data that
    tpl_serlen measures as exactly the rest of the buffer (or, if excess is allowed, as no more than it). */
  ghost predicate Sane(text: seq<byte>, m: Map, big: bool, excessOk: bool)
    requires Refs(m.f) && |m.f| > 0
  {
    SaneWith(text, m, NoFlags(big), excessOk)
  }

  /** The same for a tpl whose flags are already `w0`. */
  ghost predicate SaneWith(text: seq<byte>, m: Map, w0: Way, excessOk: bool)
    requires Refs(m.f) && |m.f| > 0
  {
    && |text| >= 9 && text[..3] == MAGIC && text[3] < 4
    && var w := WithFlags(w0, text[3]);
    && (excessOk || ReadAt(w.o, text, 4) == |text|)
    && Holds(text, 8, m.fmt + [0])
    && LensAt(w.o, text, m.fxlens, |m.fxlens|, 8 + |m.fmt| + 1)
    && var e := EndRows(w, text, m.f, 0, 1, Start(m));
    && e.Some? && if excessOk then e.value <= |text| else e.value == |text|
  }

  /** The first `n` stored octothorpe lengths are the map's. */
  ghost predicate LensAt(o: Order, text: seq<byte>, lens: seq<nat>, n: nat, dv: nat) {
    n <= |lens| && dv + 4 * |lens| <= |text| && forall i :: 0 <= i < n ==> ReadAt(o, text, dv + 4 * i) == lens[i]
  }

  /** The format string of an image runs to its first NUL. */
  method ScanFormat(text: seq<byte>, dv0: nat) returns (rc: int, fmt: seq<byte>, octothorpes: nat)
    requires dv0 <= |text|
    ensures rc == 0 ==> Holds(text, dv0, fmt + [0]) && (forall c <- fmt :: c in FMT_CHARS) && octothorpes == Octothorpes(fmt)
    ensures rc != 0 ==> rc in {ERR_FMT_INVALID, ERR_FMT_MISSING_NUL}
    ensures rc != 0 ==> forall s: seq<byte> :: (forall c <- s :: c in FMT_CHARS) ==> !Holds(text, dv0, s + [0])
  {
    hide Octothorpes, FMT_CHARS;
    var dv := dv0;
    octothorpes, fmt := 0, [];
    var foundNul := false;
    NoOctothorpes();
    while dv < |text| && !foundNul
      invariant dv0 <= dv <= |text| && fmt == text[dv0..dv]
      invariant octothorpes == Octothorpes(fmt) && forall c <- fmt :: c in FMT_CHARS
      invariant foundNul ==> dv < |text| && text[dv] == 0
      decreases |text| - dv, !foundNul
    {
      var c := text[dv];
      if c != 0 {
        if c !in FMT_CHARS {
          Diverges(text, dv0, dv);
          return ERR_FMT_INVALID, fmt, octothorpes;
        }
        NextOctothorpe(fmt, c);
        if c == POUND {
          octothorpes := octothorpes + 1;
        }
        dv := dv + 1;
        fmt := fmt + [c];
      } else {
        foundNul := true;
      }
    }
    if !foundNul {
      Runaway(text, dv0);
      return ERR_FMT_MISSING_NUL, fmt, octothorpes;
    }
    assert text[dv0..dv + 1] == fmt + [0];
    return 0, fmt, octothorpes;
  }

  lemma NoOctothorpes()
    ensures Octothorpes([]) == 0
  {
  }

  lemma NextOctothorpe(fmt: seq<byte>, c: byte)
    ensures Octothorpes(fmt + [c]) == Octothorpes(fmt) + if c == POUND then 1 else 0
  {
    assert (fmt + [c])[..|fmt|] == fmt;
  }

  lemma NotNul()
    ensures 0 !in FMT_CHARS
  {
  }

  lemma WellFormedRefs(f: Format)
    requires WellFormed(f)
    ensures Refs(f) && |f| > 0
  {
  }

  lemma Diverges(text: seq<byte>, dv0: nat, dv: nat)
    requires dv0 <= dv < |text| && text[dv] != 0 && text[dv] !in FMT_CHARS
    requires forall c <- text[dv0..dv] :: c in FMT_CHARS
    ensures forall s: seq<byte> :: (forall c <- s :: c in FMT_CHARS) ==> !Holds(text, dv0, s + [0])
  {
    forall s: seq<byte> | (forall c <- s :: c in FMT_CHARS) && Holds(text, dv0, s + [0])
      ensures false
    {
      NotNul();
      Position(text, dv0, s, dv - dv0);
    }
  }

  lemma Runaway(text: seq<byte>, dv0: nat)
    requires dv0 <= |text| && forall c <- text[dv0..] :: c in FMT_CHARS
    ensures forall s: seq<byte> :: !Holds(text, dv0, s + [0])
  {
    forall s: seq<byte> | Holds(text, dv0, s + [0])
      ensures false
    {
      assert (s + [0])[|s|] == 0;
      assert text[dv0..dv0 + |s| + 1][|s|] == text[dv0 + |s|] == text[dv0..][|s|] == 0;
      assert 0 in text[dv0..];
      NotNul();
    }
  }

  /** Either `s` reaches past position `i`, or its NUL is at or before it. */
  lemma Position(text: seq<byte>, dv0: nat, s: seq<byte>, i: nat)
    requires Holds(text, dv0, s + [0])
    ensures if i < |s| then text[dv0 + i] in s else text[dv0 + |s|] == 0
  {
    var t := text[dv0..dv0 + |s| + 1];
    assert t[|s|] == (s + [0])[|s|] == 0;
    if i < |s| {
      assert t[i] == (s + [0])[i] == s[i];
    }
  }

  /** The stored octothorpe lengths against the map's. */
  method CompareLens(o: Order, text: seq<byte>, fxlens: seq<nat>, dv0: nat) returns (same: bool, dv: nat)
    requires dv0 + 4 * |fxlens| <= |text|
    ensures same == LensAt(o, text, fxlens, |fxlens|, dv0)
    ensures same ==> dv == dv0 + 4 * |fxlens|
  {
    dv := dv0;
    var i := 0;
    while i < |fxlens|
      invariant 0 <= i <= |fxlens| && dv == dv0 + 4 * i && LensAt(o, text, fxlens, i, dv0)
    {
      if ReadAt(o, text, dv) != fxlens[i] {
        return false, dv;
      }
      dv := dv + 4;
      i := i + 1;
    }
    same := true;
  }

  /** tpl_sanity, of a tpl with the flags `w0`. Its result is 0 exactly on the buffers that `SaneWith` describes. */
  method Sanity(text: seq<byte>, m: Map, w0: Way, excessOk: bool) returns (rc: int, w: Way)
    requires Mapped(m)
    ensures rc == 0 <==> SaneWith(text, m, w0, excessOk)
    ensures w == FlagsLeft(w0, text)
    ensures rc == 0 ==> |text| >= HeadSize(m) && text[..3] == [116, 112, 108] && text[3] < 4 && text[8..HeadSize(m)] == m.fmt + [0] + EncLens(w.o, m.fxlens)
    ensures rc == 0 && !excessOk ==> text[4..8] == WordIn(w.o, |text|)
    ensures -11 <= rc <= 0
    ensures |text| < 9 ==> rc == ERR_NOT_MINSIZE
    ensures |text| >= 9 ==> (text[..3] != MAGIC <==> rc == ERR_MAGIC_MISMATCH)
  {
    hide EndRows, Octothorpes, FMT_CHARS, LensAt, ReadAt, WellFormed, Refs, Holds, WithFlags;
    WellFormedRefs(m.f);
    w := w0;
    if |text| < 4 + 4 + 1 {
      return ERR_NOT_MINSIZE, w;
    }
    if text[..3] != MAGIC {
      return ERR_MAGIC_MISMATCH, w;
    }
    w := Way(WithFlags(w0, text[3]).o, w0.oldStr);
    if text[3] >= 4 {
      return ERR_UNSUPPORTED_FLAGS, w;
    }
    w := WithFlags(w0, text[3]);
    if !excessOk && ReadAt(w.o, text, 4) != |text| {
      return ERR_INCONSISTENT_SZ, w;
    }
    var scan, fmt, octothorpes := ScanFormat(text, 8);
    if scan != 0 {
      return scan, w;
    }
    var dv := 8 + |fmt| + 1;
    NotNul();
    SameFormat(text, 8, fmt, m.fmt);
    if m.fmt != fmt {
      return ERR_FMT_MISMATCH, w;
    }
    if dv + octothorpes * 4 > |text| {
      TooShort(w.o, text, m.fxlens, dv);
      return ERR_INCONSISTENT_SZ4, w;
    }
    var same, dv' := CompareLens(w.o, text, m.fxlens, dv);
    if !same {
      return ERR_FLEN_MISMATCH, w;
    }
    var serlen := Serlen(w, text, m.f, 0, dv');
    if serlen.None? {
      return ERR_INCONSISTENT_SZ2, w;
    }
    if if excessOk then |text| < serlen.value + dv' else serlen.value + dv' != |text| {
      return ERR_INCONSISTENT_SZ3, w;
    }
    SaneHead(text, m, w0, excessOk);
    return 0, w;
  }

  // What the writer puts at the head of an image is there.

  lemma WordThere(o: Order, text: seq<byte>, dv: nat)
    requires dv + 4 <= |text|
    ensures Holds(text, dv, WordIn(o, ReadAt(o, text, dv)))
  {
    hide WordIn, ReadWord;
    WordInRead(o, text[dv..dv + 4]);
  }

  lemma Joined(text: seq<byte>, dv: nat, a: seq<byte>, b: seq<byte>)
    requires Holds(text, dv, a) && Holds(text, dv + |a|, b)
    ensures Holds(text, dv, a + b)
  {
    assert text[dv..dv + |a + b|] == text[dv..dv + |a|] + text[dv + |a|..dv + |a| + |b|];
  }

  lemma {:induction false} LensThere(o: Order, text: seq<byte>, lens: seq<nat>, dv: nat, n: nat)
    requires LensAt(o, text, lens, |lens|, dv) && n <= |lens|
    ensures Holds(text, dv, EncLens(o, lens[..n]))
  {
    hide WordIn, ReadAt;
    if n > 0 {
      LensThere(o, text, lens, dv, n - 1);
      LenStep(o, lens, n - 1);
      WordThere(o, text, dv + 4 * (n - 1));
      Joined(text, dv, EncLens(o, lens[..n - 1]), WordIn(o, lens[n - 1]));
    }
  }

  lemma SaneHead(text: seq<byte>, m: Map, w0: Way, excessOk: bool)
    requires Refs(m.f) && |m.f| > 0 && SaneWith(text, m, w0, excessOk)
    ensures var o := WithFlags(w0, text[3]).o;
      && |text| >= HeadSize(m) && text[8..HeadSize(m)] == m.fmt + [0] + EncLens(o, m.fxlens)
      && Holds(text, 8 + |m.fmt| + 1, EncLens(o, m.fxlens)) && (!excessOk ==> text[4..8] == WordIn(o, |text|))
  {
    hide EndRows, WordIn, ReadAt, EncLens;
    var o := WithFlags(w0, text[3]).o;
    LensThere(o, text, m.fxlens, 8 + |m.fmt| + 1, |m.fxlens|);
    assert m.fxlens[..|m.fxlens|] == m.fxlens;
    Joined(text, 8, m.fmt + [0], EncLens(o, m.fxlens));
    WordThere(o, text, 4);
  }

  /** The image of a map with another format string or other lengths is refused. */
  lemma OtherMapRefused(o: Order, m: Map, m': Map, vals: seq<Val>, excess: seq<byte>, excessOk: bool)
    requires Mapped(m) && Mapped(m') && (m'.fmt != m.fmt || m'.fxlens != m.fxlens)
    ensures !Sane(Image(o, m', vals) + excess, m, o.big, excessOk)
  {
    hide WellFormed, EndRows, LensAt, Holds, WordIn, ReadAt, EncLens, EncVals, WayOf, Flags, Octothorpes;
    var text := Image(o, m', vals) + excess;
    WellFormedRefs(m.f);
    ImageParts(o, m', vals, excess);
    WayOfImage(o, m');
    NotNul();
    SameFormat(text, 8, m'.fmt, m.fmt);
    if m'.fmt == m.fmt && LensAt(o, text, m.fxlens, |m.fxlens|, 8 + |m.fmt| + 1) {
      LensEnc(o, text, m'.fxlens, 8 + |m.fmt| + 1, |m'.fxlens|);
      SameLens(o, text, m.fxlens, m'.fxlens, 8 + |m.fmt| + 1);
    }
  }

  lemma SameLens(o: Order, text: seq<byte>, a: seq<nat>, b: seq<nat>, dv: nat)
    requires |a| == |b| && LensAt(o, text, a, |a|, dv) && LensAt(o, text, b, |b|, dv)
    ensures a == b
  {
    forall i | 0 <= i < |a| ensures a[i] == b[i] { assert a[i] == ReadAt(o, text, dv + 4 * i); }
  }

  lemma TooShort(o: Order, text: seq<byte>, lens: seq<nat>, dv: nat)
    requires dv + 4 * |lens| > |text|
    ensures !LensAt(o, text, lens, |lens|, dv)
  {
  }

  lemma SameFormat(text: seq<byte>, dv: nat, a: seq<byte>, b: seq<byte>)
    requires Holds(text, dv, a + [0]) && 0 !in a && 0 !in b
    ensures Holds(text, dv, b + [0]) <==> a == b
  {
    if Holds(text, dv, b + [0]) {
      Position(text, dv, a, |b|);
      Position(text, dv, b, |a|);
      assert a == text[dv..dv + |a| + 1][..|a|] == text[dv..dv + |b| + 1][..|b|] == b;
    }
  }

  /** Every image is accepted, by a machine of either kind, and with any excess behind it if that is allowed. */
  lemma ImageSane(o: Order, m: Map, vals: seq<Val>, excess: seq<byte>, excessOk: bool)
    requires Mapped(m) && FitsVals(m.f, m.f[0], vals) && ImageSize(m, vals) < LIMIT && (excess != [] ==> excessOk)
    ensures Sane(Image(o, m, vals) + excess, m, o.big, excessOk)
  {
    hide WellFormed, EndRows, LensAt, Holds, WordIn, ReadAt, FMT_CHARS, EncLens, EncVals, FitsVals, WayOf;
    var text, sz := Image(o, m, vals) + excess, ImageSize(m, vals);
    WellFormedRefs(m.f);
    ImageLength(o, m, vals);
    ImageParts(o, m, vals, excess);
    WayOfImage(o, m);
    HoldsWord(o, text, 4, sz);
    LensEnc(o, text, m.fxlens, 8 + |m.fmt| + 1, |m.fxlens|);
    DataEnd(WayOf(Flags(m.fmt, o.big != o.x), o.big), text, m, vals);
  }

  lemma WayOfImage(o: Order, m: Map)
    requires Mapped(m)
    ensures Flags(m.fmt, o.big != o.x) < 4
    ensures var w := WayOf(Flags(m.fmt, o.big != o.x), o.big); w.o == o && Current(w, m.f)
  {
    hide WellFormed, FMT_CHARS;
  }

  /** Where the parts of an image are. */
  lemma ImageParts(o: Order, m: Map, vals: seq<Val>, excess: seq<byte>)
    ensures var text := Image(o, m, vals) + excess;
      && |text| >= 9 && text[..3] == MAGIC && text[3] == Flags(m.fmt, o.big != o.x)
      && Holds(text, 4, WordIn(o, ImageSize(m, vals))) && Holds(text, 8, m.fmt + [0])
      && Holds(text, 8 + |m.fmt| + 1, EncLens(o, m.fxlens)) && Holds(text, Start(m), EncVals(o, vals))
  {
    hide Holds, Flags, WordIn, EncLens, EncVals, ImageSize;
    var flags, size := [Flags(m.fmt, o.big != o.x)], WordIn(o, ImageSize(m, vals));
    var fmt, lens, data := m.fmt + [0], EncLens(o, m.fxlens), EncVals(o, vals);
    var text := Image(o, m, vals) + excess;
    HoldsAll(text, MAGIC + flags + size + fmt + lens + data, excess);
    HoldsBoth(text, 0, MAGIC + flags + size + fmt + lens, data);
    HoldsBoth(text, 0, MAGIC + flags + size + fmt, lens);
    HoldsBoth(text, 0, MAGIC + flags + size, fmt);
    HoldsBoth(text, 0, MAGIC + flags, size);
    HoldsBoth(text, 0, MAGIC, flags);
    HoldsOne(text, MAGIC, flags);
  }

  lemma HoldsAll(text: seq<byte>, a: seq<byte>, b: seq<byte>)
    requires text == a + b
    ensures Holds(text, 0, a)
  {
  }

  lemma HoldsOne(text: seq<byte>, a: seq<byte>, b: seq<byte>)
    requires |b| == 1 && Holds(text, 0, a) && Holds(text, |a|, b)
    ensures text[..|a|] == a && text[|a|] == b[0]
  {
    assert text[|a|..|a| + 1][0] == b[0];
  }

  lemma {:induction false} LensEnc(o: Order, text: seq<byte>, lens: seq<nat>, dv: nat, n: nat)
    requires Holds(text, dv, EncLens(o, lens)) && n <= |lens| && forall l <- lens :: l < LIMIT
    ensures LensAt(o, text, lens, n, dv)
  {
    hide WordIn, ReadAt;
    if n > 0 {
      LensEnc(o, text, lens, dv, n - 1);
      LenStep(o, lens, n - 1);
      HoldsBoth(text, dv, EncLens(o, lens[..n]), EncLens(o, lens[n..]));
      HoldsBoth(text, dv, EncLens(o, lens[..n - 1]), WordIn(o, lens[n - 1]));
      assert lens[n - 1] in lens;
      HoldsWord(o, text, dv + 4 * (n - 1), lens[n - 1]);
    }
  }

  lemma LenStep(o: Order, lens: seq<nat>, k: nat)
    requires k < |lens|
    ensures EncLens(o, lens[..k + 1]) == EncLens(o, lens[..k]) + WordIn(o, lens[k])
    ensures EncLens(o, lens) == EncLens(o, lens[..k + 1]) + EncLens(o, lens[k + 1..])
  {
    hide WordIn;
    assert lens[..k + 1][..k] == lens[..k];
    EncLensSplit(o, lens[..k + 1], lens[k + 1..]);
    assert lens[..k + 1] + lens[k + 1..] == lens;
  }

  lemma {:induction false} EncLensSplit(o: Order, a: seq<nat>, b: seq<nat>)
    ensures EncLens(o, a + b) == EncLens(o, a) + EncLens(o, b)
  {
    hide WordIn;
    if b == [] {
      assert a + b == a;
    } else {
      EncLensSplit(o, a, b[..|b| - 1]);
      Last(a, b);
      Assoc(EncLens(o, a), EncLens(o, b[..|b| - 1]), WordIn(o, b[|b| - 1]));
    }
  }

  lemma DataEnd(w: Way, text: seq<byte>, m: Map, vals: seq<Val>)
    requires Refs(m.f) && |m.f| > 0 && FitsVals(m.f, m.f[0], vals)
    requires Current(w, m.f) && Holds(text, Start(m), EncVals(w.o, vals))
    ensures EndRows(w, text, m.f, 0, 1, Start(m)) == Some(Start(m) + |EncVals(w.o, vals)|)
  {
    hide Holds, Current, EndVals, FitsVals;
    EndValsEnc(w, text, m.f, 0, vals, Start(m), 0);
    assert EncVals(w.o, vals[..0]) == [];
  }
}
