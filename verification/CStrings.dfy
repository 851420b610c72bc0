/** The writer of C string literals, and the unescaper that works in place. */
module CStrings {
  import opened Bytes
  import opened Sequences
  import opened Characters

  // isprint in the C locale
  predicate IsPrint(c: byte) {
    32 <= c < 127
  }

  predicate IsSpace(c: byte) {
    c == 32 || 9 <= c <= 13
  }

  predicate IsOctal(c: byte) {
    48 <= c <= 55
  }

  // The written form.

  function Octal(c: byte): seq<byte> {
    [BACKSLASH, 48 + c / 64, 48 + c / 8 % 8, 48 + c % 8]
  }

  function Escape(c: byte): (s: seq<byte>)
    ensures |s| > 0
  {
    if c == BACKSLASH then [BACKSLASH, BACKSLASH]
    else if c == DQUOTE then [BACKSLASH, DQUOTE]
    else if c == TAB then [BACKSLASH, 116]
    else if c == LF then [BACKSLASH, 110]
    else if c == CR then [BACKSLASH, 114]
    else if !IsPrint(c) then Octal(c)
    else [c]
  }

  function Escaped(z: seq<byte>): seq<byte> {
    if z == [] then [] else Escape(z[0]) + Escaped(z[1..])
  }

  function Literal(z: seq<byte>): seq<byte> {
    [DQUOTE] + Escaped(z) + [DQUOTE]
  }

  /** What is written for each byte: a backslash and one character for the backslash itself, the double quote, TAB, LF and
    CR; other printable ASCII characters as they are; a backslash and the three octal digits of any other byte. */
  lemma EscapeExact(c: byte)
    ensures c == 92 ==> Escape(c) == [92, 92]
    ensures c == 34 ==> Escape(c) == [92, 34]
    ensures c == 9 ==> Escape(c) == [92, 116]
    ensures c == 10 ==> Escape(c) == [92, 110]
    ensures c == 13 ==> Escape(c) == [92, 114]
    ensures 32 <= c <= 126 && c != 34 && c != 92 ==> Escape(c) == [c]
    ensures (c < 32 || c > 126) && c !in {9, 10, 13} ==>
      |Escape(c)| == 4 && Escape(c)[0] == 92 && (forall k :: 1 <= k < 4 ==> 48 <= Escape(c)[k] <= 55)
      && 64 * (Escape(c)[1] - 48) + 8 * (Escape(c)[2] - 48) + (Escape(c)[3] - 48) == c
  {
    assert c / 8 / 8 == c / 64 && 8 * (c / 8 / 8) + c / 8 % 8 == c / 8 && 8 * (c / 8) + c % 8 == c;
  }

  /** Byte by byte. */
  lemma {:induction false} EscapedAt(z: seq<byte>, i: nat)
    requires i < |z|
    ensures Escaped(z) == Escaped(z[..i]) + Escape(z[i]) + Escaped(z[i + 1..])
  {
    hide Escape;
    if i == 0 {
      assert z[..0] == [];
    } else {
      assert z[1..][..i - 1] == z[..i][1..] && z[1..][i..] == z[i + 1..];
      EscapedAt(z[1..], i - 1);
      Assoc(Escape(z[0]), Escaped(z[1..i]), Escape(z[i]));
      Assoc(Escape(z[0]), Escaped(z[1..i]) + Escape(z[i]), Escaped(z[i + 1..]));
    }
  }

  /** output_c_string */
  method OutputCString(out0: seq<byte>, z: seq<byte>) returns (out: seq<byte>)
    requires 0 !in z
    ensures out == out0 + Literal(z)
  {
    hide Escape;
    out := out0 + [DQUOTE];
    var k := 0;
    assert z[0..] == z;
    while k < |z|
      invariant 0 <= k <= |z| && out + Escaped(z[k..]) == out0 + [DQUOTE] + Escaped(z)
    {
      assert z[k..][0] == z[k] && z[k..][1..] == z[k + 1..];
      Assoc(out, Escape(z[k]), Escaped(z[k + 1..]));
      out := PutEscaped(out, z[k]);
      k := k + 1;
    }
    assert z[k..] == [] && out + [] == out;
    Assoc(out0, [DQUOTE], Escaped(z));
    Assoc(out0, [DQUOTE] + Escaped(z), [DQUOTE]);
    out := out + [DQUOTE];
  }

  method PutEscaped(out0: seq<byte>, c: byte) returns (out: seq<byte>)
    ensures out == out0 + Escape(c)
  {
    out := out0;
    if c == BACKSLASH {
      out := out + [c];
      out := out + [c];
    } else if c == DQUOTE {
      out := out + [BACKSLASH];
      out := out + [DQUOTE];
    } else if c == TAB {
      out := out + [BACKSLASH];
      out := out + [116];
    } else if c == LF {
      out := out + [BACKSLASH];
      out := out + [110];
    } else if c == CR {
      out := out + [BACKSLASH];
      out := out + [114];
    } else if !IsPrint(c) {
      out := out + Octal(c);
    } else {
      out := out + [c];
    }
  }

  // The unescaper, as a function of the text of a token.

  /** How many digits an octal escape has: after the backslash, one to three. */
  function Digits(s: seq<byte>): (n: nat)
    requires |s| > 1 && IsOctal(s[1])
    ensures 1 <= n <= 3 && n < |s| && forall k :: 1 <= k <= n ==> IsOctal(s[k])
  {
    if |s| > 2 && IsOctal(s[2]) then if |s| > 3 && IsOctal(s[3]) then 3 else 2 else 1
  }

  function Used(s: seq<byte>): (n: nat)
    requires |s| > 0 && (s[0] == BACKSLASH ==> |s| > 1)
    ensures 1 <= n <= |s|
  {
    if s[0] != BACKSLASH then 1
    else if IsOctal(s[1]) then 1 + Digits(s)
    else 2
  }

  /** One more octal digit, in a char. */
  function Shift(c: int, digit: int): byte {
    (8 * c + (digit - 48)) % 256
  }

  function First(s: seq<byte>): (c: byte)
    requires |s| > 0 && (s[0] == BACKSLASH ==> |s| > 1)
  {
    if s[0] != BACKSLASH then s[0]
    else if s[1] == 110 then LF
    else if s[1] == 116 then TAB
    else if s[1] == 114 then CR
    else if IsOctal(s[1]) then
      var n := Digits(s);
      var c2 := if n > 1 then Shift(s[1] - 48, s[2]) else s[1] - 48;
      if n > 2 then Shift(c2, s[3]) else c2
    else s[1]
  }

  /** No backslash stands alone at the end. */
  predicate WellEscaped(s: seq<byte>) {
    s == [] || ((s[0] == BACKSLASH ==> |s| > 1) && WellEscaped(s[Used(s)..]))
  }

  /** The number of backslashes at the end. */
  function Trailing(s: seq<byte>): (n: nat)
    ensures n <= |s|
  {
    if s == [] || s[|s| - 1] != BACKSLASH then 0 else 1 + Trailing(s[..|s| - 1])
  }

  lemma {:induction false} TrailingSplit(p: seq<byte>, s: seq<byte>)
    ensures Trailing(p + s) == if Trailing(s) == |s| then Trailing(p) + |s| else Trailing(s)
  {
    if s == [] {
      assert p + s == p;
    } else {
      assert (p + s)[..|p + s| - 1] == p + s[..|s| - 1];
      TrailingSplit(p, s[..|s| - 1]);
    }
  }

  /** What one character takes up ends in no backslash or in two. */
  lemma UsedTrailing(s: seq<byte>)
    requires |s| > 0 && (s[0] == BACKSLASH ==> |s| > 1)
    ensures Trailing(s[..Used(s)]) % 2 == 0
  {
    var p := s[..Used(s)];
    if s[0] == BACKSLASH && s[1] == BACKSLASH {
      assert p[..1] == [BACKSLASH] && p[..1][..0] == [];
      assert Trailing(p[..1]) == 1;
    } else {
      assert p[|p| - 1] != BACKSLASH;
    }
  }

  /** No backslash stands alone at the end exactly if the number of backslashes there is even. With an odd number the
    source takes the NUL of the string for the escaped character and reads on behind it. */
  lemma {:induction false} WellEscapedExact(s: seq<byte>)
    ensures WellEscaped(s) <==> Trailing(s) % 2 == 0
  {
    hide Used;
    if s == [BACKSLASH] {
      assert s[..0] == [];
      assert Trailing(s) == 1;
    } else if s != [] {
      var p, rest := s[..Used(s)], s[Used(s)..];
      assert s == p + rest;
      UsedTrailing(s);
      TrailingSplit(p, rest);
      WellEscapedExact(rest);
    }
  }

  function Resolve(s: seq<byte>): (r: seq<byte>)
    requires WellEscaped(s)
    ensures |r| <= |s|
  {
    if s == [] then [] else [First(s)] + Resolve(s[Used(s)..])
  }

  // What the unescaper makes of each escape, whether this writer uses it or not.

  /** A character that is no backslash stands for itself, and so does one behind a backslash, except for n, t, r and the
    octal digits. */
  lemma ResolveCharacter(c: byte, rest: seq<byte>)
    requires WellEscaped(rest)
    ensures c != 92 ==> WellEscaped([c] + rest) && Resolve([c] + rest) == [c] + Resolve(rest)
    ensures c !in {110, 116, 114} && !(48 <= c <= 55) ==> WellEscaped([92, c] + rest) && Resolve([92, c] + rest) == [c] + Resolve(rest)
    ensures WellEscaped([92, 110] + rest) && Resolve([92, 110] + rest) == [10] + Resolve(rest)
    ensures WellEscaped([92, 116] + rest) && Resolve([92, 116] + rest) == [9] + Resolve(rest)
    ensures WellEscaped([92, 114] + rest) && Resolve([92, 114] + rest) == [13] + Resolve(rest)
  {
    hide Digits;
    if c != 92 { ResolveFirst([c], rest); }
    if !(48 <= c <= 55) { ResolveFirst([92, c], rest); }
    ResolveFirst([92, 110], rest);
    ResolveFirst([92, 116], rest);
    ResolveFirst([92, 114], rest);
  }

  /** One to three octal digits are a number, cut to a byte. Fewer than three are followed by no further digit. */
  lemma ResolveOctal(d: seq<byte>, v: int, rest: seq<byte>)
    requires 1 <= |d| <= 3 && (forall k :: 0 <= k < |d| ==> 48 <= d[k] <= 55) && WellEscaped(rest)
    requires |d| < 3 && rest != [] ==> !(48 <= rest[0] <= 55)
    requires var d0: int := d[0]; |d| == 1 ==> v == d0 - 48
    requires |d| == 2 ==> var d0: int, d1: int := d[0], d[1]; v == 8 * (d0 - 48) + (d1 - 48)
    requires |d| == 3 ==> var d0: int, d1: int, d2: int := d[0], d[1], d[2]; v == 64 * (d0 - 48) + 8 * (d1 - 48) + (d2 - 48)
    ensures WellEscaped([92] + d + rest) && Resolve([92] + d + rest) == [v % 256] + Resolve(rest)
  {
    hide WellEscaped, Resolve;
    OctalFirst(d, v, rest);
    ResolveFirst([92] + d, rest);
  }

  lemma OctalFirst(d: seq<byte>, v: int, rest: seq<byte>)
    requires 1 <= |d| <= 3 && (forall k :: 0 <= k < |d| ==> 48 <= d[k] <= 55)
    requires |d| < 3 && rest != [] ==> !(48 <= rest[0] <= 55)
    requires var d0: int := d[0]; |d| == 1 ==> v == d0 - 48
    requires |d| == 2 ==> var d0: int, d1: int := d[0], d[1]; v == 8 * (d0 - 48) + (d1 - 48)
    requires |d| == 3 ==> var d0: int, d1: int, d2: int := d[0], d[1], d[2]; v == 64 * (d0 - 48) + 8 * (d1 - 48) + (d2 - 48)
    ensures var s := [92] + d + rest; Used(s) == |d| + 1 && First(s) == v % 256
  {
    var s := [92] + d + rest;
    assert s[0] == 92 && s[1] == d[0];
    assert |d| > 1 ==> s[2] == d[1];
    assert |d| > 2 ==> s[3] == d[2];
    assert |d| < 3 && rest != [] ==> s[|d| + 1] == rest[0];
    var d0: int := d[0];
    if |d| == 3 { ShiftTwice(d0 - 48, d[1], d[2]); }
  }

  lemma ShiftTwice(c: int, d1: int, d2: int)
    requires 0 <= c < 8 && 48 <= d1 <= 55
    ensures Shift(Shift(c, d1), d2) == (64 * c + 8 * (d1 - 48) + (d2 - 48)) % 256
  {
  }

  lemma ResolveFirst(p: seq<byte>, rest: seq<byte>)
    requires p != [] && WellEscaped(rest) && (p[0] == 92 ==> |p| > 1) && Used(p + rest) == |p|
    ensures WellEscaped(p + rest) && Resolve(p + rest) == [First(p + rest)] + Resolve(rest)
  {
    hide Used, First;
    assert (p + rest)[|p|..] == rest;
  }

  // Escaping and unescaping.

  lemma OctalRead(c: byte, rest: seq<byte>)
    ensures var s := Octal(c) + rest; Used(s) == 4 && First(s) == c
  {
    hide Shift;
    var s := Octal(c) + rest;
    assert s[0] == BACKSLASH && s[1] == 48 + c / 64 && s[2] == 48 + c / 8 % 8 && s[3] == 48 + c % 8;
    OctalValue(c);
  }

  lemma OctalValue(c: byte)
    ensures Shift(Shift(c / 64, 48 + c / 8 % 8), 48 + c % 8) == c
  {
    var h := c / 8;
    assert h / 8 == c / 64;
    assert 8 * (h / 8) + h % 8 == h && 8 * h + c % 8 == c;
  }

  lemma EscapeRead(c: byte, rest: seq<byte>)
    ensures var s := Escape(c) + rest;
      |s| > 0 && (s[0] == BACKSLASH ==> |s| > 1) && Used(s) == |Escape(c)| && First(s) == c
  {
    hide Octal;
    var s := Escape(c) + rest;
    if c == BACKSLASH || c == DQUOTE || c == TAB || c == LF || c == CR {
      assert s[0] == BACKSLASH && s[1] == Escape(c)[1];
    } else if !IsPrint(c) {
      OctalRead(c, rest);
      assert s == Octal(c) + rest;
      OctalForm(c);
    }
  }

  lemma OctalForm(c: byte)
    ensures |Octal(c)| == 4 && Octal(c)[0] == BACKSLASH
  {
  }

  // What the loop does to a string that is not well escaped.

  /** Where the loop goes on after the character at `i` of a buffer. */
  function NextAt(b: seq<byte>, i: nat): nat
    requires i < |b|
  {
    if b[i] != BACKSLASH then i + 1
    else if i + 1 < |b| && IsOctal(b[i + 1]) then
      if i + 2 < |b| && IsOctal(b[i + 2]) then if i + 3 < |b| && IsOctal(b[i + 3]) then i + 4 else i + 3 else i + 2
    else i + 2
  }

  /** It comes to `end`, where the NUL is. */
  predicate Stops(b: seq<byte>, i: nat, end: nat)
    decreases end - i
  {
    i == end || (i < end && i < |b| && Stops(b, NextAt(b, i), end))
  }

  /** The loop stops at the end of a string exactly if the string is well escaped. */
  lemma {:induction false} StopsExact(b: seq<byte>, z: nat, s: seq<byte>)
    requires StringAt(b, z, s) && 0 !in s
    ensures Stops(b, z, z + |s|) <==> WellEscaped(s)
    decreases |s|
  {
    hide NextAt, Used, StringAt;
    if s != [] {
      StringFits(b, z, s);
      if s == [BACKSLASH] {
        LoneBackslash(b, z);
      } else if s[0] != BACKSLASH || |s| > 1 {
        OneCharacter(b, z, s);
        PartOf(b, z, s, Used(s));
        StopsExact(b, z + Used(s), s[Used(s)..]);
      }
    }
  }

  lemma StringFits(b: seq<byte>, z: nat, s: seq<byte>)
    requires StringAt(b, z, s)
    ensures z + |s| < |b|
  {
  }

  /** A backslash alone: the NUL behind it is taken for the escaped character, and the loop goes on behind the NUL. */
  lemma LoneBackslash(b: seq<byte>, z: nat)
    requires StringAt(b, z, [BACKSLASH])
    ensures z + 1 < |b| && b[z + 1] == 0 && NextAt(b, z) == z + 2 && !Stops(b, z, z + 1)
  {
    assert b[z..z + 1][0] == b[z];
  }

  lemma OneCharacter(b: seq<byte>, z: nat, s: seq<byte>)
    requires StringAt(b, z, s) && 0 !in s && s != [] && (s[0] == BACKSLASH ==> |s| > 1)
    ensures z < |b| && NextAt(b, z) == z + Used(s)
  {
    StringGoes(b, z, s, 0);
    if |s| > 1 { StringGoes(b, z, s, 1); }
    if |s| >= 2 { StringGoes(b, z, s, 2); }
    if |s| >= 3 { StringGoes(b, z, s, 3); }
  }

  /** Every string comes back from its escaped form, also when a digit follows an octal escape. */
  lemma {:induction false} ResolveEscaped(z: seq<byte>)
    ensures WellEscaped(Escaped(z)) && Resolve(Escaped(z)) == z
  {
    hide Escape, Used, First;
    if z != [] {
      ResolveEscaped(z[1..]);
      EscapeRead(z[0], Escaped(z[1..]));
      assert Escaped(z)[|Escape(z[0])|..] == Escaped(z[1..]);
    }
  }

  /** A C string in a buffer. */
  ghost predicate StringAt(b: seq<byte>, z: nat, s: seq<byte>) {
    z + |s| < |b| && b[z..z + |s|] == s && b[z + |s|] == 0
  }

  lemma {:induction false} ResolvePlain(s: seq<byte>, k: nat)
    requires WellEscaped(s) && k <= |s| && forall i :: 0 <= i < k ==> s[i] != BACKSLASH
    ensures WellEscaped(s[k..]) && Resolve(s) == s[..k] + Resolve(s[k..])
  {
    hide First, Used;
    if k > 0 {
      Unescaped(s);
      assert s[1..][k - 1..] == s[k..] && s[..k] == [s[0]] + s[1..][..k - 1];
      ResolvePlain(s[1..], k - 1);
      Assoc([s[0]], s[1..][..k - 1], Resolve(s[k..]));
    } else {
      assert s[0..] == s && s[..0] == [];
    }
  }

  lemma Unescaped(s: seq<byte>)
    requires s != [] && s[0] != BACKSLASH
    ensures Used(s) == 1 && First(s) == s[0]
  {
  }

  lemma StringGoes(b: seq<byte>, z: nat, s: seq<byte>, k: nat)
    requires StringAt(b, z, s) && 0 !in s && k <= |s|
    ensures b[z + k] == if k < |s| then s[k] else 0
    ensures b[z + k] == 0 <==> k == |s|
  {
    if k < |s| { assert b[z..z + |s|][k] == s[k] && s[k] in s; }
  }

  lemma PartOf(b: seq<byte>, z: nat, s: seq<byte>, k: nat)
    requires StringAt(b, z, s) && k <= |s|
    ensures StringAt(b, z + k, s[k..]) && b[z..z + k] == s[..k]
  {
    assert b[z..z + |s|][k..] == b[z + k..z + |s|];
    assert b[z..z + |s|][..k] == b[z..z + k];
  }

  lemma KeptString(b: seq<byte>, b': seq<byte>, z: nat, s: seq<byte>, j: nat)
    requires StringAt(b, z, s) && |b'| == |b| && forall k :: 0 <= k < |b| && k != j ==> b'[k] == b[k]
    requires j < z
    ensures StringAt(b', z, s)
  {
    assert b'[z..z + |s|] == b[z..z + |s|];
  }

  lemma ResolveNext(s: seq<byte>)
    requires s != [] && WellEscaped(s)
    ensures (s[0] == BACKSLASH ==> |s| > 1) && WellEscaped(s[Used(s)..]) && Resolve(s) == [First(s)] + Resolve(s[Used(s)..])
  {
    hide First, Used;
  }

  lemma NothingLeft(s: seq<byte>)
    requires s == []
    ensures WellEscaped(s) && Resolve(s) == []
  {
  }

  /** The character at `i0`, which may be escaped, and the index after it. */
  method ReadChar(a: array<byte>, i0: nat, ghost s: seq<byte>) returns (c: byte, i: nat)
    requires StringAt(a[..], i0, s) && s != [] && 0 !in s && WellEscaped(s)
    ensures c == First(s) && i == i0 + Used(s)
  {
    ghost var t := a[i0..i0 + |s|];
    assert forall k :: 0 <= k < |s| ==> a[i0 + k] == t[k] == s[k] && s[k] in s;
    i := i0;
    c := a[i];
    if c == BACKSLASH {
      i := i + 1;
      c := a[i];
      if c == 110 {
        c := LF;
      } else if c == 116 {
        c := TAB;
      } else if c == 114 {
        c := CR;
      } else if c == BACKSLASH {
        c := BACKSLASH;
      } else if IsOctal(c) {
        c := c - 48;
        if IsOctal(a[i + 1]) {
          i := i + 1;
          c := Shift(c, a[i]);
          if IsOctal(a[i + 1]) {
            i := i + 1;
            c := Shift(c, a[i]);
          }
        }
      }
    }
    i := i + 1;
  }

  /** resolve_backslashes of the string `s` at `z0`, in place. */
  method ResolveBackslashes(a: array<byte>, z0: nat, ghost s: seq<byte>)
    requires StringAt(a[..], z0, s) && 0 !in s && WellEscaped(s)
    modifies a
    ensures StringAt(a[..], z0, Resolve(s))
    ensures a[..z0] == old(a[..z0]) && a[z0 + |s|..] == old(a[z0 + |s|..])
  {
    hide First, Used, Resolve, WellEscaped;
    ghost var end := z0 + |s|;
    var z := z0;
    while a[z] != 0 && a[z] != BACKSLASH
      invariant z0 <= z <= end && forall i :: 0 <= i < z - z0 ==> s[i] != BACKSLASH
      invariant a[..] == old(a[..])
      decreases end - z
    {
      StringGoes(a[..], z0, s, z - z0);
      z := z + 1;
    }
    ResolvePlain(s, z - z0);
    PartOf(a[..], z0, s, z - z0);
    assert a[..][z0..z] == a[z0..z];
    Rewrite(a, z0, z, s);
  }

  /** The loop that moves characters towards the front. */
  method Rewrite(a: array<byte>, z0: nat, z: nat, ghost s: seq<byte>)
    requires z0 <= z <= z0 + |s| < a.Length && 0 !in s && StringAt(a[..], z, s[z - z0..]) && WellEscaped(s) && WellEscaped(s[z - z0..])
    requires Resolve(s) == a[z0..z] + Resolve(s[z - z0..])
    modifies a
    ensures StringAt(a[..], z0, Resolve(s))
    ensures a[..z0] == old(a[..z0]) && a[z0 + |s|..] == old(a[z0 + |s|..])
  {
    hide First, Used, Resolve, WellEscaped, StringAt;
    ghost var end := z0 + |s|;
    var i, j := z, z;
    while a[i] != 0
      invariant z <= j <= i <= end && a[..z0] == old(a[..z0]) && a[end..] == old(a[end..])
      invariant StringAt(a[..], i, s[i - z0..]) && WellEscaped(s[i - z0..])
      invariant Resolve(s) == a[z0..j] + Resolve(s[i - z0..])
      decreases end - i
    {
      StringGoes(a[..], i, s[i - z0..], 0);
      i := MoveChar(a, z0, i, j, s);
      j := j + 1;
    }
    StringGoes(a[..], i, s[i - z0..], 0);
    NothingLeft(s[i - z0..]);
    assert a[z0..j] + [] == a[z0..j];
    if j < i {
      a[j] := 0;
    }
    Ends(a[..], z0, Resolve(s));
  }

  lemma Ends(b: seq<byte>, z: nat, s: seq<byte>)
    requires z + |s| < |b| && b[z..z + |s|] == s && b[z + |s|] == 0
    ensures StringAt(b, z, s)
  {
  }

  method MoveChar(a: array<byte>, z0: nat, i: nat, j: nat, ghost s: seq<byte>) returns (next: nat)
    requires z0 <= j <= i < z0 + |s| < a.Length && 0 !in s && WellEscaped(s) && WellEscaped(s[i - z0..])
    requires StringAt(a[..], i, s[i - z0..]) && Resolve(s) == a[z0..j] + Resolve(s[i - z0..])
    modifies a
    ensures j < next && i < next <= z0 + |s| && forall k :: 0 <= k < a.Length && k != j ==> a[k] == old(a[k])
    ensures StringAt(a[..], next, s[next - z0..]) && WellEscaped(s[next - z0..])
    ensures Resolve(s) == a[z0..j + 1] + Resolve(s[next - z0..])
  {
    hide First, Used, Resolve, WellEscaped, StringAt;
    ghost var rem, before := s[i - z0..], a[..];
    var c;
    c, next := ReadChar(a, i, rem);
    ResolveNext(rem);
    assert rem[next - i..] == s[next - z0..];
    PartOf(before, i, rem, next - i);
    a[j] := c;
    assert a[z0..j + 1] == before[z0..j] + [c];
    Assoc(before[z0..j], [c], Resolve(s[next - z0..]));
    KeptString(before, a[..], next, s[next - z0..], j);
  }
}
