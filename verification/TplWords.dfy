/** Bytes and 32-bit words as tpl images hold them. */
module TplWords {
  import opened Bytes

  const LIMIT := 0x1_0000_0000

  function Reverse(s: seq<byte>): (r: seq<byte>)
    ensures |r| == |s| && forall i :: 0 <= i < |s| ==> r[i] == s[|s| - 1 - i]
  {
    seq(|s|, i requires 0 <= i < |s| => s[|s| - 1 - i])
  }

  lemma ReverseTwice(s: seq<byte>)
    ensures Reverse(Reverse(s)) == s
  {
  }

  function FromLittleEndian(w: seq<byte>): (n: int)
    requires |w| == 4
    ensures 0 <= n < LIMIT
  {
    var b0: int, b1: int, b2: int, b3: int := w[0], w[1], w[2], w[3];
    b0 + 256 * (b1 + 256 * (b2 + 256 * b3))
  }

  function LittleEndian(n: int): (w: seq<byte>)
    requires 0 <= n < LIMIT
    ensures |w| == 4 && FromLittleEndian(w) == n
  {
    var n1 := n / 256;
    var n2 := n1 / 256;
    [n % 256, n1 % 256, n2 % 256, n2 / 256]
  }

  /** The bytes of a uint32_t in the memory of a little-endian or a big-endian machine. */
  function Word(big: bool, n: int): (w: seq<byte>)
    requires 0 <= n < LIMIT
    ensures |w| == 4
  {
    var w := LittleEndian(n);
    if big then Reverse(w) else w
  }

  function Unword(big: bool, w: seq<byte>): (n: int)
    requires |w| == 4
    ensures 0 <= n < LIMIT
  {
    FromLittleEndian(if big then Reverse(w) else w)
  }

  lemma WordRoundTrip(big: bool, n: int)
    requires 0 <= n < LIMIT
    ensures Unword(big, Word(big, n)) == n
  {
    hide LittleEndian, FromLittleEndian;
    if big { ReverseTwice(LittleEndian(n)); }
  }

  /** The byte order of an image: `big` is the reading machine's, `x` says that the image is the other way round. */
  datatype Order = Order(big: bool, x: bool)

  /** A length, cut to a uint32_t as the C assignments do. */
  function WordIn(o: Order, n: nat): (w: seq<byte>)
    ensures |w| == 4
  {
    var w := Word(o.big, n % LIMIT);
    if o.x then Reverse(w) else w
  }

  /** What memcpy followed by tpl_byteswap on a cross-endian image reads. */
  function ReadWord(o: Order, w: seq<byte>): (n: int)
    requires |w| == 4
    ensures 0 <= n < LIMIT
  {
    Unword(o.big, if o.x then Reverse(w) else w)
  }

  lemma ReadWordIn(o: Order, n: int)
    requires 0 <= n < LIMIT
    ensures ReadWord(o, WordIn(o, n)) == n
  {
    hide Word, Unword, LittleEndian;
    WordRoundTrip(o.big, n);
    ReverseTwice(Word(o.big, n));
  }

  /** Only the word that was written reads as a number. */
  lemma WordInRead(o: Order, w: seq<byte>)
    requires |w| == 4
    ensures WordIn(o, ReadWord(o, w)) == w
  {
    hide Word, Unword;
    var v := if o.x then Reverse(w) else w;
    WordOfBytes(o.big, v);
    ReverseTwice(w);
  }

  lemma WordOfBytes(big: bool, w: seq<byte>)
    requires |w| == 4
    ensures Word(big, Unword(big, w)) == w
  {
    hide LittleEndian, FromLittleEndian, Reverse;
    BytesOfNumber(if big then Reverse(w) else w);
    ReverseTwice(w);
  }

  lemma BytesOfNumber(w: seq<byte>)
    requires |w| == 4
    ensures LittleEndian(FromLittleEndian(w)) == w
  {
    var b0: int, b1: int, b2: int, b3: int := w[0], w[1], w[2], w[3];
    var n2 := b2 + 256 * b3;
    var n1 := b1 + 256 * n2;
    assert (b0 + 256 * n1) / 256 == n1 && n1 / 256 == n2;
    assert LittleEndian(FromLittleEndian(w)) == [w[0], w[1], w[2], w[3]];
  }

  /** A number of any width, in the byte order of the image. */
  function NumberIn(o: Order, b: seq<byte>): (r: seq<byte>)
    ensures |r| == |b|
  {
    if o.x then Reverse(b) else b
  }

  /** tpl_byteswap, in place. */
  method ByteSwap(word: array<byte>)
    modifies word
    ensures word[..] == Reverse(old(word[..]))
  {
    var len := word.Length;
    var i := 0;
    while i < len / 2
      invariant 0 <= i <= len / 2
      invariant forall k :: 0 <= k < i ==> word[k] == old(word[len - 1 - k]) && word[len - 1 - k] == old(word[k])
      invariant forall k :: i <= k < len - i ==> word[k] == old(word[k])
    {
      var c := word[i];
      word[i] := word[len - 1 - i];
      word[len - 1 - i] := c;
      i := i + 1;
    }
  }
}
