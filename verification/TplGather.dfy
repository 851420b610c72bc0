/** tpl_gather_mem: images are cut out of a byte stream that arrives in pieces. */
module TplGather {
  import opened Wrappers
  import opened Bytes
  import opened Sequences
  import opened TplWords
  import opened TplFormat
  import opened TplImage
  import opened TplSize
  import opened TplSanity

  /** What a stream contains: its complete images, the bytes after them, and whether those cannot start an image. */
  datatype Frames = Frames(imgs: seq<seq<byte>>, rest: seq<byte>, bad: bool)

  /** The length that the image at the front of `s` claims. */
  function FrameLen(big: bool, s: seq<byte>): (n: int)
    requires |s| > 8
    ensures 0 <= n < LIMIT
  {
    ReadAt(Order(big, Swapped(s[3], big)), s, 4)
  }

  function Scan(big: bool, s: seq<byte>): (r: Frames)
    ensures |r.rest| <= |s|
  {
    if |s| <= 8 then Frames([], s, false)
    else if s[..3] != MAGIC then Frames([], s, true)
    else if FrameLen(big, s) == 0 || FrameLen(big, s) > |s| then Frames([], s, false)
    else
      Then(s[..FrameLen(big, s)], Scan(big, s[FrameLen(big, s)..]))
  }

  function Then(img: seq<byte>, r: Frames): Frames {
    Frames([img] + r.imgs, r.rest, r.bad)
  }

  /** No image claims to be empty: the reading loop would never get past it. */
  predicate Advances(big: bool, s: seq<byte>) {
    |s| <= 8 || s[..3] != MAGIC ||
    (FrameLen(big, s) > 0 && (FrameLen(big, s) > |s| || Advances(big, s[FrameLen(big, s)..])))
  }

  /** The reading loop has ended after at most `n` more images. */
  predicate Ends(big: bool, s: seq<byte>, n: nat)
    decreases n
  {
    |s| <= 8 || s[..3] != MAGIC || FrameLen(big, s) > |s| || (n > 0 && Ends(big, s[FrameLen(big, s)..], n - 1))
  }

  /** The loop ends exactly if no image claims to be empty. */
  lemma AdvancesExact(big: bool, s: seq<byte>)
    ensures Advances(big, s) <==> exists n: nat :: Ends(big, s, n)
  {
    if Advances(big, s) { AdvancesEnds(big, s); }
    if n: nat :| Ends(big, s, n) { EndsAdvances(big, s, n); }
  }

  lemma {:induction false} AdvancesEnds(big: bool, s: seq<byte>)
    requires Advances(big, s)
    ensures Ends(big, s, |s|)
  {
    hide FrameLen, MAGIC;
    if |s| > 8 && s[..3] == MAGIC && FrameLen(big, s) <= |s| {
      var rest := s[FrameLen(big, s)..];
      AdvancesEnds(big, rest);
      EndsLater(big, rest, |rest|, |s| - 1);
    }
  }

  lemma {:induction false} EndsLater(big: bool, s: seq<byte>, n: nat, m: nat)
    requires Ends(big, s, n) && n <= m
    ensures Ends(big, s, m)
    decreases n
  {
    hide FrameLen, MAGIC;
    if n > 0 && |s| > 8 && s[..3] == MAGIC && FrameLen(big, s) <= |s| { EndsLater(big, s[FrameLen(big, s)..], n - 1, m - 1); }
  }

  lemma {:induction false} EndsAdvances(big: bool, s: seq<byte>, n: nat)
    requires Ends(big, s, n)
    ensures Advances(big, s)
    decreases n
  {
    hide FrameLen, MAGIC;
    if |s| > 8 && s[..3] == MAGIC && FrameLen(big, s) <= |s| {
      EndsAdvances(big, s[FrameLen(big, s)..], n - 1);
    }
  }

  /** For example, a prefix with length 0 and one more byte. */
  lemma EmptyImage()
    ensures var s := MAGIC + [0] + [0, 0, 0, 0] + [0]; FrameLen(false, s) == 0 && !Advances(false, s)
  {
    assert (MAGIC + [0] + [0, 0, 0, 0] + [0])[4..8] == [0, 0, 0, 0];
  }

  /** Scanning can stop anywhere and go on later with what was left. */
  lemma {:induction false} ScanAppend(big: bool, a: seq<byte>, b: seq<byte>)
    requires Advances(big, a) && !Scan(big, a).bad
    ensures var r := Scan(big, Scan(big, a).rest + b);
      Scan(big, a + b) == Frames(Scan(big, a).imgs + r.imgs, r.rest, r.bad)
    ensures Advances(big, a + b) == Advances(big, Scan(big, a).rest + b)
    decreases |a|
  {
    hide ReadAt, Swapped;
    if |a| > 8 {
      var n := FrameLen(big, a);
      assert (a + b)[..3] == a[..3] && (a + b)[4..8] == a[4..8] && (a + b)[3] == a[3];
      SameLen(big, a, b);
      if n <= |a| {
        assert (a + b)[n..] == a[n..] + b && (a + b)[..n] == a[..n];
        ScanAppend(big, a[n..], b);
        var r := Scan(big, Scan(big, a).rest + b);
        Assoc([a[..n]], Scan(big, a[n..]).imgs, r.imgs);
      }
    }
  }

  lemma SameLen(big: bool, a: seq<byte>, b: seq<byte>)
    requires |a| > 8
    ensures FrameLen(big, a + b) == FrameLen(big, a)
  {
    assert (a + b)[4..8] == a[4..8] && (a + b)[3] == a[3];
  }

  class Gather {
    const big: bool
    const gatherMax: nat              // 0 means no limit
    var gs: Option<seq<byte>>         // the fragment kept from earlier pieces
    var delivered: seq<seq<byte>>     // the images the callback has been given
    ghost var seen: seq<byte>         // everything that has arrived

    ghost function Kept(): seq<byte>
      reads this
    {
      if gs.Some? then gs.value else []
    }

    /** The state depends on what has arrived, not on how it was cut. */
    ghost predicate Valid()
      reads this
    {
      Advances(big, seen) && Scan(big, seen) == Frames(delivered, Kept(), false) && (gs.Some? ==> gs.value != [])
    }

    constructor (big: bool, gatherMax: nat)
      ensures Valid() && this.big == big && this.gatherMax == gatherMax && seen == [] && delivered == []
    {
      this.big, this.gatherMax := big, gatherMax;
      gs, delivered, seen := None, [], [];
    }

    method GatherMem(buf: seq<byte>) returns (rc: int)
      requires Valid() && Advances(big, Kept() + buf)
      modifies this
      ensures old(gs.Some?) && 0 < gatherMax < |old(Kept())| + |buf| <==> rc == -2
      ensures rc != -2 ==> (rc == -3 <==> Scan(big, old(seen) + buf).bad)
      ensures rc in {1, -2, -3}
      ensures rc == 1 ==> Valid() && seen == old(seen) + buf
      ensures rc == -2 ==> gs == None && delivered == old(delivered)
      ensures rc == -3 ==> gs == None && delivered == Scan(big, old(seen) + buf).imgs
    {
      hide FrameLen, MAGIC, Scan, Advances;
      var img;
      if gs.Some? {
        if gatherMax > 0 && |gs.value| + |buf| > gatherMax {
          gs := None;
          return -2;
        }
        img := gs.value + buf;
        gs := None;
      } else {
        img := buf;
      }
      assert img == old(Kept()) + buf;
      ScanAppend(big, seen, buf);
      seen := seen + buf;
      var tpl;
      rc, tpl := Isolate(img);
      if rc == 1 && tpl < |img| {
        gs := Some(img[tpl..]);
      }
    }

    /** The loop that gives every full image to the callback. */
    method Isolate(img: seq<byte>) returns (rc: int, tpl: nat)
      requires Advances(big, img)
      modifies this`delivered
      ensures rc == (if Scan(big, img).bad then -3 else 1) && delivered == old(delivered) + Scan(big, img).imgs
      ensures tpl <= |img| && (rc == 1 ==> Scan(big, img).rest == img[tpl..])
    {
      hide FrameLen, MAGIC, Scan, Advances;
      ghost var whole := Scan(big, img);
      tpl := 0;
      assert img[0..] == img;
      NothingYet(old(delivered), whole.imgs);
      Unfold(big, img);
      var keepLooping := tpl + 8 < |img|;
      while keepLooping
        invariant 0 <= tpl <= |img|
        invariant delivered + Scan(big, img[tpl..]).imgs == old(delivered) + whole.imgs
        invariant Scan(big, img[tpl..]).rest == whole.rest && Scan(big, img[tpl..]).bad == whole.bad
        invariant Advances(big, img[tpl..])
        invariant keepLooping ==> tpl + 8 < |img|
        invariant !keepLooping ==> Scan(big, img[tpl..]) == Frames([], img[tpl..], false)
        decreases |img| - tpl, keepLooping
      {
        var at := img[tpl..];
        Unfold(big, at);
        if at[..3] != MAGIC {
          return -3, tpl;
        }
        var tpllen := FrameLen(big, at);
        if tpl + tpllen <= |img| {
          assert at[tpllen..] == img[tpl + tpllen..];
          Assoc(delivered, [at[..tpllen]], Scan(big, at[tpllen..]).imgs);
          delivered := delivered + [at[..tpllen]];
          tpl := tpl + tpllen;
          Unfold(big, img[tpl..]);
          keepLooping := tpl + 8 < |img|;
        } else {
          keepLooping := false;
        }
      }
      rc := 1;
    }
  }

  lemma NothingYet(a: seq<seq<byte>>, b: seq<seq<byte>>)
    ensures a + b == a + b && a + [] == a
  {
  }

  /** One look at the front of what is left. */
  lemma Unfold(big: bool, s: seq<byte>)
    requires Advances(big, s)
    ensures |s| <= 8 ==> Scan(big, s) == Frames([], s, false)
    ensures |s| > 8 && s[..3] != MAGIC ==> Scan(big, s) == Frames([], s, true)
    ensures |s| > 8 && s[..3] == MAGIC && FrameLen(big, s) > |s| ==> Scan(big, s) == Frames([], s, false)
    ensures |s| > 8 && s[..3] == MAGIC && FrameLen(big, s) <= |s| ==> FrameLen(big, s) > 0 && Advances(big, s[FrameLen(big, s)..]) && Scan(big, s) == Then(s[..FrameLen(big, s)], Scan(big, s[FrameLen(big, s)..]))
  {
    hide FrameLen;
  }

  // Streams of images.

  function Flat(imgs: seq<seq<byte>>): seq<byte> {
    if imgs == [] then [] else imgs[0] + Flat(imgs[1..])
  }

  /** A byte sequence that a reader of kind `big` takes for one image. */
  ghost predicate Framed(big: bool, img: seq<byte>) {
    |img| > 8 && img[..3] == MAGIC && FrameLen(big, img) == |img|
  }

  /** Every image tpl_dump writes is framed, for machines of both kinds. */
  lemma ImageFramed(o: Order, m: Map, vals: seq<Val>)
    requires Mapped(m) && ImageSize(m, vals) < LIMIT
    ensures Framed(o.big, Image(o, m, vals))
  {
    hide Holds, ReadAt, WordIn, EncVals, EncLens, FMT_CHARS, Octothorpes, Swapped;
    ImageLength(o, m, vals);
    ImageParts(o, m, vals, []);
    assert Image(o, m, vals) + [] == Image(o, m, vals);
    HoldsWord(o, Image(o, m, vals), 4, ImageSize(m, vals));
    WayOfImage(o, m);
  }

  /** In a stream of images that stops inside one, the complete ones are found, and what is left is the start of
    the unfinished one. */
  lemma {:induction false} ScanImages(big: bool, imgs: seq<seq<byte>>, next: seq<byte>, n: nat)
    requires (forall i :: 0 <= i < |imgs| ==> Framed(big, imgs[i])) && Framed(big, next) && n < |next|
    ensures Advances(big, Flat(imgs) + next[..n]) && Scan(big, Flat(imgs) + next[..n]) == Frames(imgs, next[..n], false)
  {
    hide FrameLen, Scan, Advances;
    if imgs == [] {
      assert Flat(imgs) + next[..n] == next[..n];
      ScanUnfinished(big, next, n);
    } else {
      var tail := Flat(imgs[1..]) + next[..n];
      ScanImages(big, imgs[1..], next, n);
      ScanFirst(big, imgs[0], tail);
      assert Flat(imgs) + next[..n] == imgs[0] + tail;
      assert imgs == [imgs[0]] + imgs[1..];
    }
  }

  /** Images followed by more than 8 bytes that do not begin with the magic prefix: the images are found, and what follows
    them is reported. */
  lemma {:induction false} ScanGarbage(big: bool, imgs: seq<seq<byte>>, garbage: seq<byte>)
    requires (forall i :: 0 <= i < |imgs| ==> Framed(big, imgs[i])) && |garbage| > 8 && garbage[..3] != [116, 112, 108]
    ensures Advances(big, Flat(imgs) + garbage) && Scan(big, Flat(imgs) + garbage) == Frames(imgs, garbage, true)
  {
    hide FrameLen, Scan, Advances;
    if imgs == [] {
      assert Flat(imgs) + garbage == garbage;
      ScanBad(big, garbage);
    } else {
      var tail := Flat(imgs[1..]) + garbage;
      ScanGarbage(big, imgs[1..], garbage);
      ScanFirst(big, imgs[0], tail);
      assert Flat(imgs) + garbage == imgs[0] + tail;
      assert imgs == [imgs[0]] + imgs[1..];
    }
  }

  lemma ScanBad(big: bool, garbage: seq<byte>)
    requires |garbage| > 8 && garbage[..3] != [116, 112, 108]
    ensures Advances(big, garbage) && Scan(big, garbage) == Frames([], garbage, true)
  {
  }

  lemma ScanUnfinished(big: bool, next: seq<byte>, n: nat)
    requires Framed(big, next) && n < |next|
    ensures Advances(big, next[..n]) && Scan(big, next[..n]) == Frames([], next[..n], false)
  {
    hide ReadAt, Swapped, MAGIC;
    if n > 8 {
      assert next == next[..n] + next[n..];
      SameLen(big, next[..n], next[n..]);
      assert next[..n][..3] == next[..3];
    }
  }

  lemma ScanFirst(big: bool, img: seq<byte>, tail: seq<byte>)
    requires Framed(big, img) && Advances(big, tail)
    ensures Advances(big, img + tail)
    ensures Scan(big, img + tail) == Then(img, Scan(big, tail))
  {
    hide FrameLen, MAGIC;
    var s := img + tail;
    SameLen(big, img, tail);
    assert s[..3] == img[..3];
    assert s[..|img|] == img && s[|img|..] == tail;
  }

  /** So after any pieces that add up to such a stream, the complete images have been delivered once each and in
    order, and exactly the unfinished one is kept. */
  lemma Delivered(g: Gather, imgs: seq<seq<byte>>, next: seq<byte>, n: nat)
    requires g.Valid() && (forall i :: 0 <= i < |imgs| ==> Framed(g.big, imgs[i])) && Framed(g.big, next) && n < |next|
    requires g.seen == Flat(imgs) + next[..n]
    ensures g.delivered == imgs && g.Kept() == next[..n]
  {
    ScanImages(g.big, imgs, next, n);
  }

  /** What is readable as a whole is readable as far as it has arrived. */
  lemma {:induction false} AdvancesPrefix(big: bool, a: seq<byte>, b: seq<byte>)
    requires Advances(big, a + b) && !Scan(big, a + b).bad
    ensures Advances(big, a) && !Scan(big, a).bad
    decreases |a|
  {
    hide ReadAt, Swapped;
    if |a| > 8 {
      var n := FrameLen(big, a);
      SameLen(big, a, b);
      assert (a + b)[..3] == a[..3];
      if n <= |a| {
        assert (a + b)[n..] == a[n..] + b;
        AdvancesPrefix(big, a[n..], b);
      }
    }
  }

  lemma {:induction false} FlatNext(parts: seq<seq<byte>>, k: nat)
    requires k < |parts|
    ensures Flat(parts[..k + 1]) == Flat(parts[..k]) + parts[k]
  {
    if k == 0 {
      assert parts[..1] == [parts[0]] && parts[..0] == [] && parts[..1][1..] == [];
    } else {
      FlatNext(parts[1..], k - 1);
      assert parts[..k + 1][1..] == parts[1..][..k] && parts[..k][1..] == parts[1..][..k - 1];
      Assoc(parts[0], Flat(parts[1..][..k - 1]), parts[k]);
    }
  }

  lemma {:induction false} FlatSplit(parts: seq<seq<byte>>, k: nat)
    requires k <= |parts|
    ensures Flat(parts) == Flat(parts[..k]) + Flat(parts[k..])
  {
    if k > 0 {
      FlatSplit(parts[1..], k - 1);
      assert parts[..k][1..] == parts[1..][..k - 1] && parts[1..][k - 1..] == parts[k..];
      Assoc(parts[0], Flat(parts[1..][..k - 1]), Flat(parts[k..]));
    } else {
      assert parts[..0] == [] && parts[0..] == parts;
    }
  }

  /** A whole run: however a stream of images is cut into pieces, the result is the same. */
  method GatherAll(big: bool, pieces: seq<seq<byte>>, ghost imgs: seq<seq<byte>>, ghost next: seq<byte>, ghost n: nat)
    returns (delivered: seq<seq<byte>>, kept: seq<byte>)
    requires (forall i :: 0 <= i < |imgs| ==> Framed(big, imgs[i])) && Framed(big, next) && n < |next|
    requires Flat(pieces) == Flat(imgs) + next[..n]
    ensures delivered == imgs && kept == next[..n]
  {
    hide Scan, Advances, Framed;
    var g := new Gather(big, 0);
    ScanImages(big, imgs, next, n);
    assert pieces[..0] == [];
    var k := 0;
    while k < |pieces|
      invariant 0 <= k <= |pieces| && g.Valid() && g.big == big && g.gatherMax == 0 && g.seen == Flat(pieces[..k])
    {
      FlatSplit(pieces, k + 1);
      FlatNext(pieces, k);
      AdvancesPrefix(big, Flat(pieces[..k + 1]), Flat(pieces[k + 1..]));
      ScanAppend(big, g.seen, pieces[k]);
      var rc := g.GatherMem(pieces[k]);
      k := k + 1;
    }
    assert pieces[..k] == pieces;
    Delivered(g, imgs, next, n);
    delivered, kept := g.delivered, if g.gs.Some? then g.gs.value else [];
  }

  /** Images that arrive at once with garbage behind them are delivered, and the garbage is an error. */
  method GatherGarbage(big: bool, ghost imgs: seq<seq<byte>>, ghost garbage: seq<byte>, buf: seq<byte>) returns (rc: int, delivered: seq<seq<byte>>, kept: Option<seq<byte>>)
    requires (forall i :: 0 <= i < |imgs| ==> Framed(big, imgs[i])) && |garbage| > 8 && garbage[..3] != [116, 112, 108]
    requires buf == Flat(imgs) + garbage
    ensures rc == -3 && delivered == imgs && kept == None
  {
    hide Scan, Advances, Framed;
    var g := new Gather(big, 0);
    ScanGarbage(big, imgs, garbage);
    assert [] + buf == buf;
    rc := g.GatherMem(buf);
    delivered, kept := g.delivered, g.gs;
  }
}
