/** The image of a tpl: magic prefix, flags byte, overall length, format string, octothorpe lengths, data. */
module TplImage {
  import opened Bytes
  import opened TplWords
  import opened TplFormat

  /** What tpl_map keeps of a format string: the tree, the string itself, and the lengths of its octothorpes. */
  datatype Map = Map(f: Format, fmt: seq<byte>, fxlens: seq<nat>)

  // "AS($)BiucsfIUjv#"
  const FMT_CHARS: seq<byte> := [65, 83, 40, 36, 41, 66, 105, 117, 99, 115, 102, 73, 85, 106, 118, 35]
  const STR_CHAR: byte := 115
  const POUND: byte := 35
  const MAGIC: seq<byte> := [116, 112, 108]

  function Octothorpes(s: seq<byte>): nat {
    if s == [] then 0 else Octothorpes(s[..|s| - 1]) + if s[|s| - 1] == POUND then 1 else 0
  }

  ghost predicate Mapped(m: Map) {
    && WellFormed(m.f)
    && (forall c <- m.fmt :: c in FMT_CHARS)
    && Octothorpes(m.fmt) == |m.fxlens| && (forall l <- m.fxlens :: l < LIMIT)
    && forall i, k :: 0 <= i < |m.f| && 0 <= k < |m.f[i]| && m.f[i][k].Str? ==> STR_CHAR in m.fmt
  }

  /** TPL_FL_BIGENDIAN and TPL_FL_NULLSTRINGS. */
  function Flags(fmt: seq<byte>, big: bool): byte {
    (if big then 1 else 0) + if STR_CHAR in fmt then 2 else 0
  }

  function EncLens(o: Order, lens: seq<nat>): (s: seq<byte>)
    ensures |s| == 4 * |lens|
  {
    if lens == [] then [] else EncLens(o, lens[..|lens| - 1]) + WordIn(o, lens[|lens| - 1])
  }

  /** The overhead that tpl_map stores as the root's ser_osz. */
  function HeadSize(m: Map): nat {
    4 + 4 + |m.fmt| + 1 + 4 * |m.fxlens|
  }

  function Head(o: Order, m: Map, total: nat): (s: seq<byte>)
    ensures |s| == HeadSize(m)
  {
    MAGIC + [Flags(m.fmt, o.big != o.x)] + WordIn(o, total) + (m.fmt + [0]) + EncLens(o, m.fxlens)
  }

  function ImageSize(m: Map, vals: seq<Val>): nat {
    HeadSize(m) + |EncVals(Order(false, false), vals)|
  }

  function Image(o: Order, m: Map, vals: seq<Val>): (s: seq<byte>) {
    Head(o, m, ImageSize(m, vals)) + EncVals(o, vals)
  }

  lemma ImageLength(o: Order, m: Map, vals: seq<Val>)
    ensures |Image(o, m, vals)| == ImageSize(m, vals)
  {
    EncValsLength(o, Order(false, false), vals);
  }
}
