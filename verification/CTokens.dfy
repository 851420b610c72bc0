/** The tokenizer of command lines, which cuts a line into strings in place. */
module CTokens {
  import opened Bytes
  import opened Sequences
  import opened Characters
  import opened CStrings

  // The tokenizer, as a function of the line. The line has no NUL of its own.

  const MAX_TOKENS := 50

  function SkipSpaces(s: seq<byte>, i: nat): (r: nat)
    requires i <= |s|
    ensures i <= r <= |s| && (r < |s| ==> !IsSpace(s[r]))
    decreases |s| - i
  {
    if i < |s| && IsSpace(s[i]) then SkipSpaces(s, i + 1) else i
  }

  /** Where a quoted token ends: at the delimiter, or with the line. */
  function EndQuoted(s: seq<byte>, i: nat, delim: byte): (r: nat)
    requires i <= |s|
    ensures i <= r <= |s| && (r < |s| ==> s[r] == delim)
    decreases |s| - i
  {
    if i == |s| || s[i] == delim then i
    else if s[i] == BACKSLASH && delim == DQUOTE && i + 1 < |s| then EndQuoted(s, i + 2, delim)
    else EndQuoted(s, i + 1, delim)
  }

  function EndBare(s: seq<byte>, i: nat): (r: nat)
    requires i <= |s|
    ensures i <= r <= |s|
    decreases |s| - i
  {
    if i < |s| && !IsSpace(s[i]) then EndBare(s, i + 1) else i
  }

  /** A token: where its text is, where scanning goes on, and whether backslashes in it are resolved. */
  datatype Token = Token(start: nat, end: nat, next: nat, resolve: bool)

  function TokenAt(s: seq<byte>, i: nat): (t: Token)
    requires i < |s| && !IsSpace(s[i])
    ensures i <= t.start <= t.end <= |s| && i < t.next <= |s| && t.end <= t.next && (t.end < |s| ==> t.end < t.next)
  {
    if s[i] == SQUOTE || s[i] == DQUOTE then
      var end := EndQuoted(s, i + 1, s[i]);
      Token(i + 1, end, if end < |s| then end + 1 else end, s[i] == DQUOTE)
    else
      var end := EndBare(s, i + 1);
      Token(i, end, if end < |s| then end + 1 else end, true)
  }

  /** No token of the line ends in a lone backslash. */
  predicate WellTokens(s: seq<byte>, i: nat, room: nat)
    requires i <= |s|
    decreases room
  {
    room > 0 && SkipSpaces(s, i) < |s| ==>
      var t := TokenAt(s, SkipSpaces(s, i));
      (t.resolve ==> WellEscaped(s[t.start..t.end])) && WellTokens(s, t.next, room - 1)
  }

  /** The tokens of the line from position `i` on. */
  function Tokens(s: seq<byte>, i: nat, room: nat): (r: seq<seq<byte>>)
    requires i <= |s| && WellTokens(s, i, room)
    ensures |r| <= room
    decreases room
  {
    if room == 0 || SkipSpaces(s, i) == |s| then []
    else
      var t := TokenAt(s, SkipSpaces(s, i));
      var text := s[t.start..t.end];
      [if t.resolve then Resolve(text) else text] + Tokens(s, t.next, room - 1)
  }

  /** The strings that the arguments point to. */
  ghost predicate Args(b: seq<byte>, azArg: seq<nat>, tokens: seq<seq<byte>>, end: nat) {
    && |azArg| == |tokens| && end <= |b|
    && forall k :: 0 <= k < |azArg| ==> Before(azArg[k] + |tokens[k]|, end, |b|) && StringAt(b, azArg[k], tokens[k])
  }

  /** A token's NUL is before the place where scanning goes on, or is the NUL of the line. */
  predicate Before(nul: nat, end: nat, length: nat) {
    nul < end || nul == end == length - 1
  }

  /** The line from position `i` on is still as it was. */
  ghost predicate Rest(b: seq<byte>, s: seq<byte>, i: nat) {
    |b| == |s| + 1 && i <= |s| && b[i..] == s[i..] + [0]
  }

  lemma RestAt(b: seq<byte>, s: seq<byte>, i: nat, k: nat)
    requires Rest(b, s, i) && 0 !in s && i <= k <= |s|
    ensures b[k] == (if k < |s| then s[k] else 0) && (b[k] == 0 <==> k == |s|) && Rest(b, s, k)
  {
    assert b[i..][k - i] == b[k] && b[i..][k - i..] == b[k..];
    assert k < |s| ==> s[k] in s;
  }

  method SkipWhite(a: array<byte>, ghost s: seq<byte>, i0: nat) returns (i: nat)
    requires 0 !in s && Rest(a[..], s, i0)
    ensures i == SkipSpaces(s, i0)
  {
    i := i0;
    RestAt(a[..], s, i0, i);
    while IsSpace(a[i])
      invariant i0 <= i <= |s| && SkipSpaces(s, i0) == SkipSpaces(s, i) && a[i] == if i < |s| then s[i] else 0
      decreases |s| - i
    {
      i := i + 1;
      RestAt(a[..], s, i0, i);
    }
  }

  method ScanQuoted(a: array<byte>, ghost s: seq<byte>, i0: nat, delim: byte) returns (i: nat)
    requires 0 !in s && Rest(a[..], s, i0) && delim != 0
    ensures i == EndQuoted(s, i0, delim)
  {
    i := i0;
    RestAt(a[..], s, i0, i);
    while a[i] != 0 && a[i] != delim
      invariant i0 <= i <= |s| && EndQuoted(s, i0, delim) == EndQuoted(s, i, delim) && a[i] == if i < |s| then s[i] else 0
      decreases |s| - i
    {
      RestAt(a[..], s, i0, i);
      RestAt(a[..], s, i0, i + 1);
      if a[i] == BACKSLASH && delim == DQUOTE && a[i + 1] != 0 {
        i := i + 1;
      }
      i := i + 1;
      RestAt(a[..], s, i0, i);
    }
    RestAt(a[..], s, i0, i);
  }

  method ScanBare(a: array<byte>, ghost s: seq<byte>, i0: nat) returns (i: nat)
    requires 0 !in s && Rest(a[..], s, i0)
    ensures i == EndBare(s, i0)
  {
    i := i0;
    RestAt(a[..], s, i0, i);
    while a[i] != 0 && !IsSpace(a[i])
      invariant i0 <= i <= |s| && EndBare(s, i0) == EndBare(s, i) && a[i] == if i < |s| then s[i] else 0
      decreases |s| - i
    {
      RestAt(a[..], s, i0, i);
      i := i + 1;
      RestAt(a[..], s, i0, i);
    }
    RestAt(a[..], s, i0, i);
  }

  function TextOf(s: seq<byte>, t: Token): seq<byte>
    requires t.start <= t.end <= |s| && (t.resolve ==> WellEscaped(s[t.start..t.end]))
  {
    if t.resolve then Resolve(s[t.start..t.end]) else s[t.start..t.end]
  }

  lemma FirstBare(s: seq<byte>, i: nat)
    requires i < |s| && !IsSpace(s[i])
    ensures EndBare(s, i) == EndBare(s, i + 1)
  {
  }

  lemma NoNul(s: seq<byte>, i: nat, j: nat)
    requires 0 !in s && i <= j <= |s|
    ensures 0 !in s[i..j]
  {
  }

  lemma KeepRest(b: seq<byte>, b': seq<byte>, s: seq<byte>, end: nat, next: nat)
    requires Rest(b, s, next) && end <= next && |b'| == |b| && b'[end..] == b[end..]
    ensures Rest(b', s, next)
  {
    assert b'[next..] == b'[end..][next - end..] == b[next..];
  }

  /** A NUL in place of the delimiter. */
  method Cut(a: array<byte>, ghost s: seq<byte>, ghost start: nat, end: nat, stop: bool) returns (next: nat)
    requires 0 !in s && Rest(a[..], s, start) && start <= end <= |s| && stop == (end < |s|)
    modifies a
    ensures next == (if stop then end + 1 else end) && StringAt(a[..], start, s[start..end]) && Rest(a[..], s, next)
    ensures a[..start] == old(a[..start])
  {
    RestAt(a[..], s, start, end);
    next := end;
    RestString(a[..], s, start, end);
    if stop {
      RestAt(a[..], s, start, end + 1);
      a[end] := 0;
      next := end + 1;
    }
    assert a[start..end] == old(a[start..end]);
  }

  lemma RestString(b: seq<byte>, s: seq<byte>, start: nat, end: nat)
    requires Rest(b, s, start) && start <= end <= |s|
    ensures b[start..end] == s[start..end]
  {
    assert b[start..end] == b[start..][..end - start] == s[start..end];
  }

  /** One token, which is cut off by a NUL and, unless it was in single quotes, unescaped. */
  method CutToken(a: array<byte>, ghost s: seq<byte>, i0: nat) returns (arg: nat, next: nat)
    requires 0 !in s && Rest(a[..], s, i0) && i0 < |s| && !IsSpace(s[i0])
    requires var t := TokenAt(s, i0); t.resolve ==> WellEscaped(s[t.start..t.end])
    modifies a
    ensures var t := TokenAt(s, i0); arg == t.start && next == t.next && StringAt(a[..], arg, TextOf(s, t)) && |TextOf(s, t)| <= t.end - t.start
    ensures a[..i0] == old(a[..i0]) && Rest(a[..], s, next)
  {
    hide Resolve, WellEscaped, EndQuoted, EndBare, StringAt;
    RestAt(a[..], s, i0, i0);
    if a[i0] == SQUOTE || a[i0] == DQUOTE {
      var delim := a[i0];
      arg := i0 + 1;
      RestAt(a[..], s, i0, arg);
      var end := ScanQuoted(a, s, arg, delim);
      next := Cut(a, s, arg, end, a[end] == delim);
      if delim == DQUOTE {
        ghost var before := a[..];
        NoNul(s, arg, end);
        ResolveBackslashes(a, arg, s[arg..end]);
        KeepRest(before, a[..], s, end, next);
      }
    } else {
      arg := i0;
      var end := ScanBare(a, s, arg);
      FirstBare(s, i0);
      next := Cut(a, s, arg, end, a[end] != 0);
      ghost var before := a[..];
      NoNul(s, arg, end);
      ResolveBackslashes(a, arg, s[arg..end]);
      KeepRest(before, a[..], s, end, next);
    }
  }

  /** The loop at the top of do_meta_command, over the line `s` and its final NUL. */
  method Tokenize(a: array<byte>, ghost s: seq<byte>) returns (azArg: seq<nat>)
    requires a.Length == |s| + 1 && a[..] == s + [0] && 0 !in s && |s| > 0 && WellTokens(s, 1, MAX_TOKENS)
    modifies a
    ensures Args(a[..], azArg, Tokens(s, 1, MAX_TOKENS), a.Length)
  {
    hide WellTokens, Tokens, SkipSpaces, Args, TokenAt, WellEscaped, Resolve, Rest, TextOf;
    azArg := [];
    ghost var done: seq<seq<byte>> := [];
    var i := 1;
    FirstRest(a[..], s);
    NoArgs(a[..]);
    RestAt(a[..], s, i, i);
    while a[i] != 0 && |azArg| < MAX_TOKENS
      invariant 1 <= i <= |s| && Rest(a[..], s, i) && |azArg| <= MAX_TOKENS && a[i] == if i < |s| then s[i] else 0
      invariant WellTokens(s, i, MAX_TOKENS - |azArg|) && done + Tokens(s, i, MAX_TOKENS - |azArg|) == Tokens(s, 1, MAX_TOKENS)
      invariant Args(a[..], azArg, done, i)
      decreases |s| - i
    {
      ghost var i0, room := i, MAX_TOKENS - |azArg|;
      i := SkipWhite(a, s, i);
      RestAt(a[..], s, i0, i);
      NextToken(s, i0, room);
      if a[i] == 0 {
        assert done + [] == done;
        AllArgs(a[..], azArg, done, i0);
        return;
      }
      ghost var t, before := TokenAt(s, i), a[..];
      var arg, next := CutToken(a, s, i);
      MoreArgs(before, a[..], azArg, done, i0, i, arg, TextOf(s, t), next);
      Regroup(done, TextOf(s, t), Tokens(s, next, room - 1));
      azArg := azArg + [arg];
      done := done + [TextOf(s, t)];
      i := next;
      RestAt(a[..], s, i, i);
    }
    RestAt(a[..], s, i, i);
    NoTokens(s, i, MAX_TOKENS - |azArg|);
    assert done + [] == done;
    AllArgs(a[..], azArg, done, i);
  }

  lemma FirstRest(b: seq<byte>, s: seq<byte>)
    requires b == s + [0] && |s| > 0
    ensures Rest(b, s, 1)
  {
  }

  lemma NoArgs(b: seq<byte>)
    requires |b| > 0
    ensures Args(b, [], [], 1)
  {
  }

  lemma AllArgs(b: seq<byte>, azArg: seq<nat>, done: seq<seq<byte>>, i: nat)
    requires Args(b, azArg, done, i)
    ensures Args(b, azArg, done, |b|)
  {
  }

  lemma NextToken(s: seq<byte>, i: nat, room: nat)
    requires i <= |s| && room > 0 && WellTokens(s, i, room)
    ensures SkipSpaces(s, i) == |s| ==> Tokens(s, i, room) == []
    ensures SkipSpaces(s, i) < |s| ==> WellTokens(s, TokenAt(s, SkipSpaces(s, i)).next, room - 1)
    ensures var t := if SkipSpaces(s, i) < |s| then TokenAt(s, SkipSpaces(s, i)) else Token(0, 0, |s|, false);
      SkipSpaces(s, i) < |s| ==> (t.resolve ==> WellEscaped(s[t.start..t.end])) && Tokens(s, i, room) == [TextOf(s, t)] + Tokens(s, t.next, room - 1)
  {
    hide SkipSpaces, TokenAt, Resolve, WellEscaped;
  }

  lemma NoTokens(s: seq<byte>, i: nat, room: nat)
    requires i <= |s| && (i == |s| || room == 0)
    ensures WellTokens(s, i, room) && Tokens(s, i, room) == []
  {
  }

  lemma Regroup(a: seq<seq<byte>>, b: seq<byte>, c: seq<seq<byte>>)
    ensures (a + [b]) + c == a + ([b] + c)
  {
  }

  lemma SameBefore(b: seq<byte>, b': seq<byte>, i: nat, x: nat, e: nat)
    requires x <= e < i <= |b| == |b'| && b'[..i] == b[..i]
    ensures b'[x..e] == b[x..e] && b'[e] == b[e]
  {
    assert forall k :: 0 <= k < i ==> b'[k] == b'[..i][k] == b[..i][k] == b[k];
  }

  lemma MoreArgs(b: seq<byte>, b': seq<byte>, azArg: seq<nat>, done: seq<seq<byte>>, i0: nat, i: nat, arg: nat, text: seq<byte>, next: nat)
    requires Args(b, azArg, done, i0) && i0 <= i <= arg && |b'| == |b| && i <= |b| && b'[..i] == b[..i] && StringAt(b', arg, text)
    requires i < |b| - 1 && next <= |b| && Before(arg + |text|, next, |b|)
    ensures Args(b', azArg + [arg], done + [text], next)
  {
    forall k | 0 <= k < |azArg|
      ensures StringAt(b', azArg[k], done[k])
    {
      var e := azArg[k] + |done[k]|;
      assert StringAt(b, azArg[k], done[k]) && e < i;
      SameBefore(b, b', i, azArg[k], e);
    }
  }

  /** The literals, with single spaces between them. */
  function Joined(list: seq<seq<byte>>): seq<byte> {
    if list == [] then []
    else if |list| == 1 then Literal(list[0])
    else Literal(list[0]) + [32] + Joined(list[1..])
  }

  /** Escaped text holds no delimiter that is not behind a backslash. */
  lemma {:induction false} EscapedEnd(s: seq<byte>, z: seq<byte>, i: nat)
    requires i + |Escaped(z)| <= |s| && s[i..i + |Escaped(z)|] == Escaped(z) && (i + |Escaped(z)| < |s| ==> s[i + |Escaped(z)|] == DQUOTE)
    ensures EndQuoted(s, i, DQUOTE) == i + |Escaped(z)|
  {
    hide Escape;
    if z != [] {
      var e := Escape(z[0]);
      var rest := Escaped(z[1..]);
      assert s[i..i + |e + rest|] == e + rest;
      assert s[i + |e|..i + |e| + |rest|] == (e + rest)[|e|..];
      EscapedEnd(s, z[1..], i + |e|);
      assert forall k :: 0 <= k < |e| ==> s[i + k] == (e + rest)[k] == e[k];
      EscapeSkipped(s, i, z[0]);
    }
  }

  lemma EscapeSkipped(s: seq<byte>, i: nat, c: byte)
    requires i + |Escape(c)| <= |s| && forall k :: 0 <= k < |Escape(c)| ==> s[i + k] == Escape(c)[k]
    ensures EndQuoted(s, i, DQUOTE) == EndQuoted(s, i + |Escape(c)|, DQUOTE)
  {
    var e := Escape(c);
    assert s[i] == e[0];
    if |e| > 1 {
      assert s[i + 1] == e[1];
      assert EndQuoted(s, i, DQUOTE) == EndQuoted(s, i + 2, DQUOTE);
      if |e| > 2 {
        assert s[i + 2] == e[2] && s[i + 3] == e[3];
        assert EndQuoted(s, i + 2, DQUOTE) == EndQuoted(s, i + 3, DQUOTE) == EndQuoted(s, i + 4, DQUOTE);
      }
    }
  }

  lemma Slice(s: seq<byte>, i: nat, a: nat, b: nat)
    requires i <= |s| && a <= b <= |s| - i
    ensures s[i..][a..b] == s[i + a..i + b] && s[i..][b..] == s[i + b..]
    ensures b < |s| - i ==> s[i..][b] == s[i + b]
  {
  }

  /** A quoted text at `i`, its closing quote if it has one, and what is behind. */
  lemma QuotedParts(s: seq<byte>, i: nat, q: byte, t: seq<byte>, close: seq<byte>, more: seq<byte>)
    requires i <= |s| && s[i..] == [q] + t + close + more && (close == [q] || (close == more == []))
    ensures i < |s| && s[i] == q && i + 1 + |t| + |close| <= |s|
    ensures s[i + 1..i + 1 + |t|] == t && s[i + 1 + |t| + |close|..] == more
    ensures i + 1 + |t| < |s| <==> close == [q]
    ensures i + 1 + |t| < |s| ==> s[i + 1 + |t|] == q
  {
    var r := [q] + t + close + more;
    Slice(s, i, 0, 0);
    Slice(s, i, 1, 1 + |t|);
    Slice(s, i, 0, 1 + |t| + |close|);
    assert r[1..1 + |t|] == t && r[1 + |t| + |close|..] == more && r[0] == q;
    if close == [q] { assert r[1 + |t|] == q && s[i..][1 + |t|] == s[i + 1 + |t|]; }
  }

  lemma LiteralToken(s: seq<byte>, i: nat, z: seq<byte>, close: seq<byte>, more: seq<byte>)
    requires i <= |s| && s[i..] == [34] + Escaped(z) + close + more && (close == [34] || (close == more == []))
    ensures i < |s| && !IsSpace(s[i]) && i + 1 + |Escaped(z)| + |close| <= |s|
    ensures TokenAt(s, i) == Token(i + 1, i + 1 + |Escaped(z)|, i + 1 + |Escaped(z)| + |close|, true)
    ensures s[i + 1..i + 1 + |Escaped(z)|] == Escaped(z) && s[i + 1 + |Escaped(z)| + |close|..] == more
  {
    hide EndQuoted, Escaped, EndBare;
    QuotedParts(s, i, 34, Escaped(z), close, more);
    EscapedEnd(s, z, i + 1);
  }

  lemma SingleToken(s: seq<byte>, i: nat, t: seq<byte>, close: seq<byte>, more: seq<byte>)
    requires i <= |s| && s[i..] == [39] + t + close + more && 39 !in t && (close == [39] || (close == more == []))
    ensures i < |s| && !IsSpace(s[i]) && i + 1 + |t| + |close| <= |s|
    ensures TokenAt(s, i) == Token(i + 1, i + 1 + |t|, i + 1 + |t| + |close|, false)
    ensures s[i + 1..i + 1 + |t|] == t && s[i + 1 + |t| + |close|..] == more
  {
    hide EndQuoted, EndBare;
    QuotedParts(s, i, 39, t, close, more);
    SingleEnd(s, i + 1, t);
  }

  lemma {:induction false} SingleEnd(s: seq<byte>, i: nat, t: seq<byte>)
    requires i + |t| <= |s| && s[i..i + |t|] == t && 39 !in t && (i + |t| < |s| ==> s[i + |t|] == 39)
    ensures EndQuoted(s, i, SQUOTE) == i + |t|
    decreases |t|
  {
    if t != [] {
      assert s[i] == s[i..i + |t|][0] == t[0] && t[0] in t;
      assert s[i + 1..i + |t|] == s[i..i + |t|][1..] == t[1..];
      SingleEnd(s, i + 1, t[1..]);
    }
  }

  lemma WordToken(s: seq<byte>, i: nat, t: seq<byte>, more: seq<byte>)
    requires i <= |s| && s[i..] == t + more && IsWord(t) && (more != [] ==> White([more[0]]))
    ensures i < |s| && !IsSpace(s[i]) && i + |t| <= |s| && (more != [] ==> i + |t| < |s|)
    ensures TokenAt(s, i) == Token(i, i + |t|, if more == [] then i + |t| else i + |t| + 1, true)
    ensures s[i..i + |t|] == t && s[i + |t|..] == more && (more != [] ==> s[i + |t| + 1..] == more[1..])
  {
    hide EndQuoted, EndBare, WellEscaped;
    Slice(s, i, 0, |t|);
    assert s[i] == s[i..][0] == t[0] && t[0] in t;
    assert s[i..][|t|..] == more;
    if more != [] { assert s[i + |t|] == s[i + |t|..][0] && more[0] in [more[0]]; }
    WordEnd(s, i, t);
    FirstBare(s, i);
  }

  lemma {:induction false} WordEnd(s: seq<byte>, i: nat, t: seq<byte>)
    requires i + |t| <= |s| && s[i..i + |t|] == t && (forall c <- t :: !IsSpace(c)) && (i + |t| < |s| ==> IsSpace(s[i + |t|]))
    ensures EndBare(s, i) == i + |t|
    decreases |t|
  {
    if t != [] {
      assert s[i] == s[i..i + |t|][0] == t[0] && t[0] in t;
      assert s[i + 1..i + |t|] == s[i..i + |t|][1..] == t[1..];
      WordEnd(s, i + 1, t[1..]);
    }
  }

  lemma {:induction false} GapSkipped(s: seq<byte>, i: nat, gap: seq<byte>)
    requires i + |gap| <= |s| && s[i..i + |gap|] == gap && White(gap) && (i + |gap| < |s| ==> !IsSpace(s[i + |gap|]))
    ensures SkipSpaces(s, i) == i + |gap|
    decreases |gap|
  {
    if gap != [] {
      assert s[i] == s[i..i + |gap|][0] == gap[0] && gap[0] in gap;
      assert s[i + 1..i + |gap|] == s[i..i + |gap|][1..] == gap[1..];
      WhiteRest(gap);
      GapSkipped(s, i + 1, gap[1..]);
    }
  }

  lemma WhiteRest(s: seq<byte>)
    requires White(s) && s != []
    ensures White(s[1..]) && White([s[0]]) && IsSpace(s[0])
  {
    assert s[0] in s;
    forall c | c in s[1..] ensures c == 32 || 9 <= c <= 13 { assert c in s; }
  }

  lemma PutToken(s: seq<byte>, i: nat, room: nat)
    requires room > 0 && i <= |s| && SkipSpaces(s, i) < |s|
    requires var t := TokenAt(s, SkipSpaces(s, i)); (t.resolve ==> WellEscaped(s[t.start..t.end])) && WellTokens(s, t.next, room - 1)
    ensures var t := TokenAt(s, SkipSpaces(s, i)); WellTokens(s, i, room) && Tokens(s, i, room) == [TextOf(s, t)] + Tokens(s, t.next, room - 1)
  {
    hide TokenAt, Resolve, WellEscaped, SkipSpaces;
  }

  // Any line.

  /** What a line is made of: literals that output_c_string printed, texts in single quotes, and bare words. The last token
    can lack its closing quote. */
  datatype Piece = Printed(z: seq<byte>) | Single(t: seq<byte>) | Word(t: seq<byte>) | OpenPrinted(z: seq<byte>) | OpenSingle(t: seq<byte>)

  /** A piece and the white space before it. */
  datatype Item = Item(gap: seq<byte>, p: Piece)

  predicate White(s: seq<byte>) {
    forall c <- s :: c == 32 || 9 <= c <= 13
  }

  predicate IsWord(t: seq<byte>) {
    t != [] && t[0] != 34 && t[0] != 39 && (forall c <- t :: c != 32 && !(9 <= c <= 13)) && WellEscaped(t)
  }

  predicate Proper(p: Piece) {
    match p
    case Printed(z) => 0 !in z
    case OpenPrinted(z) => 0 !in z
    case Single(t) => 0 !in t && 39 !in t
    case OpenSingle(t) => 0 !in t && 39 !in t
    case Word(t) => 0 !in t && IsWord(t)
  }

  function Written(p: Piece): seq<byte> {
    match p
    case Printed(z) => [34] + Escaped(z) + [34]
    case OpenPrinted(z) => [34] + Escaped(z)
    case Single(t) => [39] + t + [39]
    case OpenSingle(t) => [39] + t
    case Word(t) => t
  }

  /** The string that the program gets: a literal as it was before it was printed, a text in single quotes as it is,
    backslashes included, and a bare word unescaped. */
  function Value(p: Piece): seq<byte>
    requires Proper(p)
  {
    match p
    case Printed(z) => z
    case OpenPrinted(z) => z
    case Single(t) => t
    case OpenSingle(t) => t
    case Word(t) => Resolve(t)
  }

  /** White space separates a word from what follows; nothing has to be behind a closing quote, and nothing is behind a
    token that lacks it. */
  predicate ProperLine(items: seq<Item>, tail: seq<byte>) {
    && White(tail) && (forall k :: 0 <= k < |items| ==> White(items[k].gap) && Proper(items[k].p))
    && (forall k :: 0 < k < |items| && items[k - 1].p.Word? ==> items[k].gap != [])
    && (forall k :: 0 <= k < |items| && (items[k].p.OpenPrinted? || items[k].p.OpenSingle?) ==> k == |items| - 1 && tail == [])
  }

  function Line(items: seq<Item>): seq<byte> {
    if items == [] then [] else items[0].gap + Written(items[0].p) + Line(items[1..])
  }

  function Values(items: seq<Item>): (r: seq<seq<byte>>)
    requires forall i <- items :: Proper(i.p)
    ensures |r| == |items| && forall k :: 0 <= k < |items| ==> r[k] == Value(items[k].p)
  {
    seq(|items|, k requires 0 <= k < |items| => Value(items[k].p))
  }

  /** A word that was escaped, without white space and without a quote in front, is read as it was before. */
  lemma EscapedWord(z: seq<byte>)
    requires 0 !in z && Escaped(z) != [] && Escaped(z)[0] != 39 && forall c <- Escaped(z) :: c != 32
    ensures Proper(Word(Escaped(z))) && Value(Word(Escaped(z))) == z
  {
    hide Escaped, Resolve, WellEscaped;
    ResolveEscaped(z);
    NoNulEscaped(z);
    NoBlanks(z);
  }

  lemma {:induction false} NoBlanks(z: seq<byte>)
    ensures (forall c <- Escaped(z) :: !(9 <= c <= 13)) && (Escaped(z) != [] ==> Escaped(z)[0] != 34)
  {
    hide Escape;
    if z != [] {
      NoBlanks(z[1..]);
      NoBlank(z[0]);
    }
  }

  lemma NoBlank(c: byte)
    ensures (forall d <- Escape(c) :: !(9 <= d <= 13)) && Escape(c)[0] != 34
  {
  }

  /** The token at `j` is the piece, and `more` is behind it. */
  ghost predicate Cuts(s: seq<byte>, j: nat, t: Token, p: Piece, more: seq<byte>) {
    && j < |s| && !IsSpace(s[j]) && TokenAt(s, j) == t && Proper(p)
    && (t.resolve ==> WellEscaped(s[t.start..t.end])) && TextOf(s, t) == Value(p) && s[t.next..] == more
  }

  lemma LiteralCut(s: seq<byte>, j: nat, p: Piece, more: seq<byte>) returns (t: Token)
    requires j <= |s| && s[j..] == Written(p) + more && Proper(p) && (p.Printed? || (p.OpenPrinted? && more == []))
    ensures Cuts(s, j, t, p, more)
  {
    hide TokenAt, WellEscaped, Resolve, Escaped;
    var close := if p.Printed? then [34] else [];
    assert Written(p) + more == [34] + Escaped(p.z) + close + more;
    LiteralToken(s, j, p.z, close, more);
    ResolveEscaped(p.z);
    t := TokenAt(s, j);
  }

  lemma SingleCut(s: seq<byte>, j: nat, p: Piece, more: seq<byte>) returns (t: Token)
    requires j <= |s| && s[j..] == Written(p) + more && Proper(p) && (p.Single? || (p.OpenSingle? && more == []))
    ensures Cuts(s, j, t, p, more)
  {
    hide TokenAt, WellEscaped, Resolve;
    var close := if p.Single? then [39] else [];
    assert Written(p) + more == [39] + p.t + close + more;
    SingleToken(s, j, p.t, close, more);
    t := TokenAt(s, j);
  }

  lemma WordCut(s: seq<byte>, j: nat, p: Piece, more: seq<byte>) returns (t: Token)
    requires j <= |s| && s[j..] == Written(p) + more && Proper(p) && p.Word? && (more != [] ==> White([more[0]]))
    ensures Cuts(s, j, t, p, if more == [] then more else more[1..])
  {
    hide TokenAt, WellEscaped, Resolve;
    WordToken(s, j, p.t, more);
    t := TokenAt(s, j);
  }

  /** The first token of a line, and what is left behind it. */
  lemma FirstToken(s: seq<byte>, i: nat, items: seq<Item>, tail: seq<byte>) returns (t: Token, rest: seq<Item>, tail': seq<byte>)
    requires i <= |s| && s[i..] == Line(items) + tail && ProperLine(items, tail) && items != []
    ensures SkipSpaces(s, i) < |s| && Cuts(s, SkipSpaces(s, i), t, items[0].p, Line(rest) + tail')
    ensures ProperLine(rest, tail') && |rest| == |items| - 1 && forall k :: 0 <= k < |rest| ==> rest[k].p == items[k + 1].p
  {
    hide Cuts, SkipSpaces, Line, Written, Proper, ProperLine, White;
    var p, more := items[0].p, Line(items[1..]) + tail;
    var j := i + |items[0].gap|;
    LineFirst(s, i, items, tail);
    RestProper(items, tail);
    rest, tail' := items[1..], tail;
    if p.OpenPrinted? || p.OpenSingle? { NothingBehind(items, tail); }
    if p.Printed? || p.OpenPrinted? {
      t := LiteralCut(s, j, p, more);
    } else if p.Word? {
      rest, tail' := LessOneBlank(items, tail);
      t := WordCut(s, j, p, more);
    } else {
      t := SingleCut(s, j, p, more);
    }
    CutStarts(s, j, t, p, Line(rest) + tail');
    GapSkipped(s, i, items[0].gap);
  }

  lemma CutStarts(s: seq<byte>, j: nat, t: Token, p: Piece, more: seq<byte>)
    requires Cuts(s, j, t, p, more)
    ensures j < |s| && !IsSpace(s[j])
  {
  }

  /** The first item of a line is behind its gap. */
  lemma LineFirst(s: seq<byte>, i: nat, items: seq<Item>, tail: seq<byte>)
    requires i <= |s| && s[i..] == Line(items) + tail && items != []
    ensures var gap := items[0].gap;
      i + |gap| <= |s| && s[i..i + |gap|] == gap && s[i + |gap|..] == Written(items[0].p) + (Line(items[1..]) + tail)
  {
    hide Written;
    var gap, more := items[0].gap, Written(items[0].p) + (Line(items[1..]) + tail);
    assert s[i..] == gap + more;
    Slice(s, i, 0, |gap|);
    assert (gap + more)[..|gap|] == gap && (gap + more)[|gap|..] == more;
  }

  lemma RestProper(items: seq<Item>, tail: seq<byte>)
    requires ProperLine(items, tail) && items != []
    ensures ProperLine(items[1..], tail) && White(items[0].gap) && Proper(items[0].p)
  {
    hide White, Proper;
    var rest := items[1..];
    assert forall k :: 0 <= k < |rest| ==> rest[k] == items[k + 1];
  }

  lemma NothingBehind(items: seq<Item>, tail: seq<byte>)
    requires ProperLine(items, tail) && items != [] && (items[0].p.OpenPrinted? || items[0].p.OpenSingle?)
    ensures Line(items[1..]) + tail == []
  {
  }

  /** The character behind a word is passed over with it. */
  lemma LessOneBlank(items: seq<Item>, tail: seq<byte>) returns (rest: seq<Item>, tail': seq<byte>)
    requires ProperLine(items, tail) && items != [] && items[0].p.Word?
    ensures var more := Line(items[1..]) + tail;
      (more != [] ==> White([more[0]])) && Line(rest) + tail' == if more == [] then more else more[1..]
    ensures ProperLine(rest, tail') && |rest| == |items| - 1 && forall k :: 0 <= k < |rest| ==> rest[k].p == items[k + 1].p
  {
    hide Written, Proper, White, ProperLine;
    RestProper(items, tail);
    rest, tail' := items[1..], tail;
    if rest != [] {
      SecondGap(items, tail);
      ShorterGap(rest, tail);
      rest := rest[0 := Item(rest[0].gap[1..], rest[0].p)];
    } else if tail != [] {
      WhiteTail(tail);
      tail' := tail[1..];
    }
  }

  lemma SecondGap(items: seq<Item>, tail: seq<byte>)
    requires ProperLine(items, tail) && |items| > 1 && items[0].p.Word?
    ensures items[1..][0] == items[1] && items[1].gap != []
  {
  }

  lemma WhiteTail(tail: seq<byte>)
    requires ProperLine([], tail) && tail != []
    ensures ProperLine([], tail[1..]) && White([tail[0]]) && Line([]) + tail == tail && Line([]) + tail[1..] == tail[1..]
  {
    WhiteRest(tail);
  }

  lemma ShorterGap(rest: seq<Item>, tail: seq<byte>)
    requires ProperLine(rest, tail) && rest != [] && rest[0].gap != []
    ensures var rest' := rest[0 := Item(rest[0].gap[1..], rest[0].p)];
      && ProperLine(rest', tail) && Line(rest) + tail != [] && White([(Line(rest) + tail)[0]])
      && Line(rest') + tail == (Line(rest) + tail)[1..]
  {
    hide Written, Proper, White;
    var gap := rest[0].gap;
    WhiteRest(gap);
    var rest' := rest[0 := Item(gap[1..], rest[0].p)];
    assert rest'[1..] == rest[1..];
    var more := Written(rest[0].p) + Line(rest[1..]) + tail;
    assert Line(rest) + tail == gap + more && Line(rest') + tail == gap[1..] + more;
    assert (gap + more)[1..] == gap[1..] + more && (gap + more)[0] == gap[0];
  }

  /** The tokens of a line are the values of its pieces, as far as there is room. */
  lemma {:induction false} LineTokens(s: seq<byte>, i: nat, items: seq<Item>, tail: seq<byte>, room: nat)
    requires i <= |s| && s[i..] == Line(items) + tail && ProperLine(items, tail)
    ensures WellTokens(s, i, room) && |Tokens(s, i, room)| == (if |items| < room then |items| else room)
    ensures forall k :: 0 <= k < |Tokens(s, i, room)| ==> Tokens(s, i, room)[k] == Value(items[k].p)
    decreases |items|
  {
    hide Tokens, WellTokens, TokenAt, Line, Proper, Value, Resolve, WellEscaped, TextOf, ProperLine, SkipSpaces;
    if room == 0 {
      NoTokens(s, i, room);
    } else if items == [] {
      OnlyBlanks(s, i, tail, room);
    } else {
      var t, rest, tail' := FirstToken(s, i, items, tail);
      LineTokens(s, t.next, rest, tail', room - 1);
      PutToken(s, i, room);
      assert Tokens(s, i, room) == [TextOf(s, t)] + Tokens(s, t.next, room - 1);
    }
  }

  lemma OnlyBlanks(s: seq<byte>, i: nat, tail: seq<byte>, room: nat)
    requires i <= |s| && s[i..] == Line([]) + tail && ProperLine([], tail)
    ensures WellTokens(s, i, room) && Tokens(s, i, room) == []
  {
    hide TokenAt;
    assert s[i..] == tail && s[i..i + |tail|] == tail;
    GapSkipped(s, i, tail);
  }

  lemma {:induction false} NoNulLine(items: seq<Item>, tail: seq<byte>)
    requires ProperLine(items, tail)
    ensures 0 !in Line(items) + tail
  {
    hide Escaped, WellEscaped;
    if items != [] {
      RestProper(items, tail);
      NoNulLine(items[1..], tail);
      NoNulWritten(items[0].p);
    }
  }

  lemma NoNulWritten(p: Piece)
    requires Proper(p)
    ensures 0 !in Written(p)
  {
    hide Escaped, IsWord;
    if p.Printed? || p.OpenPrinted? { NoNulEscaped(p.z); }
  }

  /** The loop at the top of do_meta_command on any such line, behind its first character: up to 50 arguments, each of
    which points to its string. */
  method TokenizeLine(a: array<byte>, ghost first: byte, ghost items: seq<Item>, ghost tail: seq<byte>) returns (azArg: seq<nat>)
    requires first != 0 && ProperLine(items, tail) && a[..] == [first] + Line(items) + tail + [0]
    modifies a
    ensures |azArg| == (if |items| < 50 then |items| else 50)
    ensures forall k :: 0 <= k < |azArg| ==> StringAt(a[..], azArg[k], Value(items[k].p))
  {
    hide Line, Value, ProperLine, WellTokens, Tokens, StringAt, Proper;
    ghost var s := [first] + Line(items) + tail;
    assert s[1..] == Line(items) + tail;
    NoNulLine(items, tail);
    LineTokens(s, 1, items, tail, MAX_TOKENS);
    azArg := Tokenize(a, s);
  }

  /** For example, the line `.s \t`: its second argument is a TAB. */
  method TabWord() returns (a: array<byte>, azArg: seq<nat>)
    ensures fresh(a) && |azArg| == 2 && StringAt(a[..], azArg[0], [115]) && StringAt(a[..], azArg[1], [9])
  {
    a := new byte[6][46, 115, 32, 92, 116, 0];
    ghost var items := [Item([], Word([115])), Item([32], Word([92, 116]))];
    TabItems(items);
    azArg := TokenizeLine(a, 46, items, []);
  }

  lemma TabItems(items: seq<Item>)
    requires items == [Item([], Word([115])), Item([32], Word([92, 116]))]
    ensures ProperLine(items, []) && [46] + Line(items) + [] + [0] == [46, 115, 32, 92, 116, 0]
    ensures Value(items[0].p) == [115] && Value(items[1].p) == [9]
  {
    hide WellEscaped, Resolve, Line;
    TabValues();
    TabLine(items);
  }

  lemma TabValues()
    ensures WellEscaped([115]) && Resolve([115]) == [115] && WellEscaped([92, 116]) && Resolve([92, 116]) == [9]
  {
    hide WellEscaped, Resolve;
    NothingLeft([]);
    ResolveCharacter(115, []);
    assert [115] + [] == [115] && [92, 116] + [] == [92, 116];
  }

  lemma TabLine(items: seq<Item>)
    requires items == [Item([], Word([115])), Item([32], Word([92, 116]))]
    ensures Line(items) == [115, 32, 92, 116]
  {
    hide WellEscaped, Resolve;
    assert items[1..] == [items[1]] && items[1..][1..] == [];
    assert Line(items[1..][1..]) == [];
    assert Line(items[1..]) == [32] + [92, 116] + [];
  }

  // A line of printed strings.

  /** The items of such a line. */
  function AsItems(list: seq<seq<byte>>, gap: seq<byte>): (r: seq<Item>)
    ensures |r| == |list| && forall k :: 0 <= k < |r| ==> r[k] == Item(if k == 0 then gap else [32], Printed(list[k]))
  {
    if list == [] then [] else [Item(gap, Printed(list[0]))] + AsItems(list[1..], [32])
  }

  lemma {:induction false} JoinedLine(list: seq<seq<byte>>, gap: seq<byte>)
    requires list != []
    ensures gap + Joined(list) == Line(AsItems(list, gap))
  {
    hide Escaped;
    var rest := AsItems(list[1..], [32]);
    assert AsItems(list, gap)[1..] == rest;
    if |list| > 1 {
      JoinedLine(list[1..], [32]);
      assert gap + (Literal(list[0]) + [32] + Joined(list[1..])) == gap + Literal(list[0]) + ([32] + Joined(list[1..]));
    } else {
      assert rest == [];
    }
  }

  /** The tokens of a line of literals are the strings that were printed. */
  lemma TokensJoined(s: seq<byte>, i: nat, list: seq<seq<byte>>, room: nat)
    requires i <= |s| && s[i..] == Joined(list) && |list| <= room && forall z <- list :: 0 !in z
    ensures WellTokens(s, i, room) && Tokens(s, i, room) == list
  {
    hide Tokens, WellTokens, Joined, Line;
    if list == [] {
      NoneJoined();
      NoTokens(s, i, room);
    } else {
      JoinedLine(list, []);
      assert [] + Joined(list) == Joined(list) && s[i..] == Line(AsItems(list, [])) + [];
      assert forall k :: 0 <= k < |list| ==> list[k] in list;
      LineTokens(s, i, AsItems(list, []), [], room);
    }
  }

  lemma NoneJoined()
    ensures Joined([]) == []
  {
  }

  /** Strings printed by output_c_string with single spaces between them, after one other character. */
  method PrintLine(first: byte, list: seq<seq<byte>>) returns (out: seq<byte>)
    requires forall z <- list :: 0 !in z
    ensures out == [first] + Joined(list)
  {
    hide Literal;
    out := [first];
    var k := 0;
    assert list[0..] == list;
    while k < |list|
      invariant 0 <= k <= |list| && out + Joined(list[k..]) == [first] + Joined(list)
    {
      assert list[k] in list && list[k..][0] == list[k] && list[k..][1..] == list[k + 1..];
      var space := if k < |list| - 1 then [32] else [];
      Assoc(out, Literal(list[k]), space + Joined(list[k + 1..]));
      Assoc(Literal(list[k]), space, Joined(list[k + 1..]));
      Assoc(out + Literal(list[k]), space, Joined(list[k + 1..]));
      LastLiteral(list[k..]);
      out := OutputCString(out, list[k]);
      out := out + space;
      k := k + 1;
    }
    assert out + [] == out;
  }

  lemma LastLiteral(list: seq<seq<byte>>)
    requires list != []
    ensures Joined(list) == Literal(list[0]) + (if |list| > 1 then [32] else []) + Joined(list[1..])
  {
    hide Literal;
    assert |list| == 1 ==> list[1..] == [];
    assert Literal(list[0]) + [] + [] == Literal(list[0]);
  }

  lemma {:induction false} NoNulJoined(list: seq<seq<byte>>)
    requires forall z <- list :: 0 !in z
    ensures 0 !in Joined(list)
  {
    hide Escaped;
    if list != [] {
      assert list[0] in list;
      NoNulEscaped(list[0]);
      NoNulJoined(list[1..]);
    }
  }

  lemma {:induction false} NoNulEscaped(z: seq<byte>)
    requires 0 !in z
    ensures 0 !in Escaped(z)
  {
    hide Escape;
    if z != [] {
      NoNulEscaped(z[1..]);
      NoNulEscape(z[0]);
    }
  }

  lemma NoNulEscape(c: byte)
    requires c != 0
    ensures 0 !in Escape(c)
  {
  }

  /** Printing strings and reading the line back. */
  method RoundTrip(first: byte, list: seq<seq<byte>>) returns (a: array<byte>, azArg: seq<nat>)
    requires first != 0 && |list| <= MAX_TOKENS && forall z <- list :: 0 !in z
    ensures fresh(a) && Args(a[..], azArg, list, a.Length)
  {
    hide Joined, Tokens, WellTokens, Args;
    var line := PrintLine(first, list);
    NoNulJoined(list);
    assert line[1..] == Joined(list);
    TokensJoined(line, 1, list, MAX_TOKENS);
    a := new byte[|line| + 1](i requires 0 <= i <= |line| => if i < |line| then line[i] else 0);
    assert a[..] == line + [0];
    azArg := Tokenize(a, line);
  }
}
