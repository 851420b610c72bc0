/** Which buffers tpl_sanity accepts, said by what the writer writes. */
module TplAccept {
  import opened Wrappers
  import opened Bytes
  import opened TplWords
  import opened TplFormat
  import opened TplImage
  import opened TplSize
  import opened TplSanity
  import opened TplDecode

  // Without strings the flag for the older form makes no difference.

  lemma {:induction false} EndSame(w: Way, text: seq<byte>, f: Format, i: nat, c: Child, dv: nat)
    requires Refs(f) && i < |f| && c in f[i] && Current(w, f)
    ensures End(w, text, f, i, c, dv) == End(Plus1(w.o), text, f, i, c, dv)
    decreases |f| - i, 0, 0
  {
    hide EndNums, ReadAt;
    match c
    case Num(sz, num) =>
    case Str(num) => assert w == Plus1(w.o);
    case Bin =>
    case Ary(j) => if dv + 4 <= |text| { EndRowsSame(w, text, f, j, Signed(ReadAt(w.o, text, dv)), dv + 4); }
  }

  lemma {:induction false} EndRowsSame(w: Way, text: seq<byte>, f: Format, i: nat, num: int, dv: nat)
    requires Refs(f) && i < |f| && Current(w, f)
    ensures EndRows(w, text, f, i, num, dv) == EndRows(Plus1(w.o), text, f, i, num, dv)
    decreases |f| - i, 2, if num > 0 then num else 0
  {
    if num > 0 {
      EndValsSame(w, text, f, i, 0, dv);
      var e := EndVals(w, text, f, i, 0, dv);
      if e.Some? { EndRowsSame(w, text, f, i, num - 1, e.value); }
    }
  }

  lemma {:induction false} EndValsSame(w: Way, text: seq<byte>, f: Format, i: nat, k: nat, dv: nat)
    requires Refs(f) && i < |f| && k <= |f[i]| && Current(w, f)
    ensures EndVals(w, text, f, i, k, dv) == EndVals(Plus1(w.o), text, f, i, k, dv)
    decreases |f| - i, 1, |f[i]| - k
  {
    if k < |f[i]| {
      EndSame(w, text, f, i, f[i][k], dv);
      var e := End(w, text, f, i, f[i][k], dv);
      if e.Some? { EndValsSame(w, text, f, i, k + 1, e.value); }
    }
  }

  /** The buffer is an image of these values, whatever its length word says and whatever is behind it. */
  ghost predicate Carries(o: Order, text: seq<byte>, m: Map, vals: seq<Val>)
    requires |m.f| > 0
  {
    && FitsVals(m.f, m.f[0], vals)
    && |text| >= 9 && text[..3] == [116, 112, 108] && Holds(text, 8, m.fmt + [0] + EncLens(o, m.fxlens) + EncVals(o, vals))
  }

  /** The head of a buffer, in one piece or two. */
  lemma HeadParts(o: Order, text: seq<byte>, m: Map, data: seq<byte>)
    ensures Holds(text, 8, m.fmt + [0] + EncLens(o, m.fxlens) + data)
      <==> Holds(text, 8, m.fmt + [0]) && Holds(text, 8 + |m.fmt| + 1, EncLens(o, m.fxlens)) && Holds(text, Start(m), data)
  {
    hide Holds, EncLens;
    var a, b := m.fmt + [0], EncLens(o, m.fxlens);
    if Holds(text, 8, a + b + data) {
      HoldsBoth(text, 8, a + b, data);
      HoldsBoth(text, 8, a, b);
    }
    if Holds(text, 8, a) && Holds(text, 8 + |a|, b) && Holds(text, Start(m), data) {
      TplSanity.Joined(text, 8, a, b);
      TplSanity.Joined(text, 8, a + b, data);
    }
  }

  /** A clean buffer in the current form is accepted with excess exactly if it carries the serialized form of some
    values. */
  lemma ExcessExact(text: seq<byte>, m: Map, big: bool)
    requires Mapped(m) && |m.f| > 0 && Refs(m.f) && |text| >= 9 && text[3] < 4 && Current(WayOf(text[3], big), m.f)
    ensures var o := WayOf(text[3], big).o;
      Sane(text, m, big, true) && CleanVals(o, text, m.f, 0, 0, Start(m)) <==> exists vals :: Carries(o, text, m, vals)
  {
    hide Carries, CleanVals, Mapped, WayOf, EndRows, Holds, LensAt;
    var w := WayOf(text[3], big);
    SameFlags(text[3], big);
    if Sane(text, m, big, true) && CleanVals(w.o, text, m.f, 0, 0, Start(m)) {
      AcceptedCarries(text, m, big, true);
      assert Carries(w.o, text, m, DataOf(w.o, text, m));
    }
    if vals :| Carries(w.o, text, m, vals) {
      CarriedAccepted(text, m, big, vals);
    }
  }

  lemma SameFlags(flags: byte, big: bool)
    ensures WithFlags(NoFlags(big), flags) == WayOf(flags, big)
  {
  }

  lemma AcceptedCarries(text: seq<byte>, m: Map, big: bool, excessOk: bool)
    requires Mapped(m) && |m.f| > 0 && Refs(m.f) && Sane(text, m, big, excessOk)
    requires var w := WayOf(text[3], big); Current(w, m.f) && CleanVals(w.o, text, m.f, 0, 0, Start(m))
    ensures var o, vals := WayOf(text[3], big).o, DataOf(WayOf(text[3], big).o, text, m);
      Carries(o, text, m, vals) && (!excessOk ==> Start(m) + |EncVals(o, vals)| == |text|)
  {
    hide CleanVals, Mapped, WayOf, EndRows, EndVals, Holds, LensAt, EncLens, EncVals, ValsAt, FitsVals, Current;
    var w := WayOf(text[3], big);
    SameFlags(text[3], big);
    SaneHead(text, m, NoFlags(big), excessOk);
    EndRowsSame(w, text, m.f, 0, 1, Start(m));
    OneMeasured(Plus1(w.o), text, m.f, Start(m));
    var vals := DataOf(w.o, text, m);
    ReadableExact(w.o, text, m, vals);
    CurrentOf(w.o, m.f);
    DataEnd(Plus1(w.o), text, m, vals);
    HeadParts(w.o, text, m, EncVals(w.o, vals));
  }

  lemma CarriedAccepted(text: seq<byte>, m: Map, big: bool, vals: seq<Val>)
    requires Mapped(m) && |m.f| > 0 && Refs(m.f) && |text| >= 9 && text[3] < 4
    requires var w := WayOf(text[3], big); Current(w, m.f) && Carries(w.o, text, m, vals)
    ensures var o := WayOf(text[3], big).o;
      && Sane(text, m, big, true) && CleanVals(o, text, m.f, 0, 0, Start(m))
      && (Start(m) + |EncVals(o, vals)| == |text| && ReadAt(o, text, 4) == |text| ==> Sane(text, m, big, false))
  {
    hide CleanVals, WellFormed, WayOf, EndRows, EndVals, Holds, LensAt, EncLens, EncVals, ValsAt, FitsVals, Current, ReadAt;
    var w := WayOf(text[3], big);
    SameFlags(text[3], big);
    HeadParts(w.o, text, m, EncVals(w.o, vals));
    LensEnc(w.o, text, m.fxlens, 8 + |m.fmt| + 1, |m.fxlens|);
    DataEnd(w, text, m, vals);
    ReadableExact(w.o, text, m, vals);
    DataInside(text, m, EncVals(w.o, vals));
  }

  lemma DataInside(text: seq<byte>, m: Map, data: seq<byte>)
    requires Holds(text, Start(m), data)
    ensures Start(m) + |data| <= |text|
  {
  }

  /** And without excess exactly if it is, apart from its flags byte, the image of some values. */
  lemma AcceptedExact(text: seq<byte>, m: Map, big: bool)
    requires Mapped(m) && |m.f| > 0 && Refs(m.f) && |text| >= 9 && text[3] < 4 && Current(WayOf(text[3], big), m.f)
    ensures var o := WayOf(text[3], big).o;
      Sane(text, m, big, false) && CleanVals(o, text, m.f, 0, 0, Start(m)) <==>
      |text| < LIMIT && exists vals :: FitsVals(m.f, m.f[0], vals) && IsImage(o, text, m, vals)
  {
    hide Carries, CleanVals, Mapped, WayOf, EndRows, Holds, LensAt, IsImage, FitsVals, EncVals, ReadAt;
    var w := WayOf(text[3], big);
    SameFlags(text[3], big);
    if Sane(text, m, big, false) && CleanVals(w.o, text, m.f, 0, 0, Start(m)) {
      var vals := DataOf(w.o, text, m);
      AcceptedCarries(text, m, big, false);
      SaneHead(text, m, NoFlags(big), false);
      CarriedImage(w.o, text, m, vals);
    }
    if vals :| FitsVals(m.f, m.f[0], vals) && IsImage(w.o, text, m, vals) && |text| < LIMIT {
      ImageCarried(w.o, text, m, vals);
      CarriedAccepted(text, m, big, vals);
    }
  }

  ghost predicate IsImage(o: Order, text: seq<byte>, m: Map, vals: seq<Val>) {
    |text| >= 9 && text == Image(o, m, vals)[3 := text[3]]
  }

  lemma CarriedImage(o: Order, text: seq<byte>, m: Map, vals: seq<Val>)
    requires |m.f| > 0 && Carries(o, text, m, vals) && Start(m) + |EncVals(o, vals)| == |text| && text[4..8] == WordIn(o, |text|)
    ensures FitsVals(m.f, m.f[0], vals) && IsImage(o, text, m, vals)
  {
    hide FitsVals, WordIn, EncVals, EncLens, Flags;
    EncValsLength(o, Order(false, false), vals);
    var flags := [Flags(m.fmt, o.big != o.x)];
    var tail := m.fmt + [0] + EncLens(o, m.fxlens) + EncVals(o, vals);
    assert text[8..] == tail;
    assert text == text[..3] + [text[3]] + text[4..8] + text[8..];
    assert Image(o, m, vals) == MAGIC + flags + WordIn(o, |text|) + tail;
  }

  lemma ImageCarried(o: Order, text: seq<byte>, m: Map, vals: seq<Val>)
    requires Mapped(m) && |m.f| > 0 && FitsVals(m.f, m.f[0], vals) && IsImage(o, text, m, vals) && |text| < LIMIT
    ensures Carries(o, text, m, vals) && Start(m) + |EncVals(o, vals)| == |text| && ReadAt(o, text, 4) == |text|
  {
    hide FitsVals, WordIn, EncVals, EncLens, Flags, Mapped, ReadAt;
    ImageLength(o, m, vals);
    EncValsLength(o, Order(false, false), vals);
    var flags := [Flags(m.fmt, o.big != o.x)];
    var tail := m.fmt + [0] + EncLens(o, m.fxlens) + EncVals(o, vals);
    var img := Image(o, m, vals);
    assert img == MAGIC + flags + WordIn(o, |text|) + tail;
    assert img[..3] == MAGIC && img[4..8] == WordIn(o, |text|) && img[8..] == tail;
    assert text[..3] == img[..3] && text[4..8] == img[4..8] && text[8..] == img[8..];
    HoldsWord(o, text, 4, |text|);
  }

  /** The map of "i#" with a length, and the image that a little-endian machine writes of the numbers 1, 2 and 3. */
  function IntsMap(n: nat): Map {
    Map([[Num(4, n)]], [105, 35], [n])
  }

  const THREE_INTS: seq<byte> := [116, 112, 108, 0, 27, 0, 0, 0, 105, 35, 0, 3, 0, 0, 0, 1, 0, 0, 0, 2, 0, 0, 0, 3, 0, 0, 0]

  const THREE: seq<seq<byte>> := [[1, 0, 0, 0], [2, 0, 0, 0], [3, 0, 0, 0]]

  lemma ThreeEncoded(o: Order)
    requires o == Order(false, false)
    ensures EncVals(o, [Nums(THREE)]) == [1, 0, 0, 0, 2, 0, 0, 0, 3, 0, 0, 0]
  {
    hide EncNums, EncVals;
    NoEnc(o);
    OneNum(o, THREE[2], []);
    OneNum(o, THREE[1], [THREE[2]]);
    OneNum(o, THREE[0], [THREE[1], THREE[2]]);
    assert [THREE[2]] + [] == [THREE[2]] && [THREE[1]] + [THREE[2]] == [THREE[1], THREE[2]] && [THREE[0]] + [THREE[1], THREE[2]] == THREE;
    NoVals(o, [Nums(THREE)]);
    OneVal(o, Nums(THREE), []);
    assert [Nums(THREE)] == [Nums(THREE)] + [] && [Nums(THREE)][..0] == [];
  }

  lemma ThreeWords(o: Order)
    requires o == Order(false, false)
    ensures EncLens(o, [3]) == [3, 0, 0, 0] && WordIn(o, 27) == [27, 0, 0, 0]
  {
    assert EncLens(o, [3][..0]) == [];
  }

  lemma ThreeHead(o: Order)
    requires o == Order(false, false)
    ensures Head(o, IntsMap(3), 27) == [116, 112, 108, 0, 27, 0, 0, 0] + [105, 35, 0, 3, 0, 0, 0]
  {
    hide EncLens, WordIn;
    ThreeWords(o);
    assert MAGIC + [0] + [27, 0, 0, 0] == [116, 112, 108, 0, 27, 0, 0, 0];
    assert ([105, 35] + [0]) + [3, 0, 0, 0] == [105, 35, 0, 3, 0, 0, 0];
  }

  lemma ThreeIntsWritten()
    ensures Image(Order(false, false), IntsMap(3), [Nums(THREE)]) == THREE_INTS
  {
    hide EncVals, EncLens, WordIn, Head;
    ThreeEncoded(Order(false, false));
    ThreeHead(Order(false, false));
  }

  lemma IntsMapped(n: nat)
    requires 0 < n < LIMIT
    ensures Mapped(IntsMap(n))
  {
    var fmt := IntsMap(n).fmt;
    assert fmt[..1] == [105] && fmt[..1][..0] == [] && Octothorpes([]) == Octothorpes([105]) == 0;
  }

  /** The map with length 2 refuses it, also where excess bytes are allowed. */
  lemma ThreeIntsRefused(excessOk: bool)
    ensures Mapped(IntsMap(2)) && Refs(IntsMap(2).f) && !Sane(THREE_INTS, IntsMap(2), false, excessOk)
  {
    hide Mapped, Image, Sane;
    IntsMapped(2);
    IntsMapped(3);
    ThreeIntsWritten();
    assert THREE_INTS + [] == THREE_INTS;
    OtherMapRefused(Order(false, false), IntsMap(2), IntsMap(3), [Nums(THREE)], [], excessOk);
  }
}
