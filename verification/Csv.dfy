/** The CSV writer and the reader of one field. */
module Csv {
  import opened Bytes
  import opened Characters
  import opened Sequences
  import opened Wrappers

  const EOF := -1

  /** One ASCII byte that is not a quote or part of a line end. */
  predicate Separator(sep: int) {
    0 < sep < 128 && sep != DQUOTE && sep != CR && sep != LF
  }

  // needCsvQuote
  predicate NeedQuote(c: byte) {
    c <= 32 || c == DQUOTE || c == 39 || c >= 127
  }

  // The written form.

  function Doubled(z: seq<byte>): seq<byte> {
    if z == [] then []
    else Doubled(z[..|z| - 1]) + if z[|z| - 1] == DQUOTE then [DQUOTE, DQUOTE] else [z[|z| - 1]]
  }

  /** What output_csv takes for the separator at position `i`: its first byte, if it has more than one and the field
    begins with it. */
  predicate SeparatorAt(z: seq<byte>, separator: seq<byte>, i: nat)
    requires i < |z|
  {
    separator != [] && z[i] == separator[0] && (|separator| == 1 || separator <= z)
  }

  predicate Unmarked(z: seq<byte>, separator: seq<byte>) {
    forall i :: 0 <= i < |z| ==> !NeedQuote(z[i]) && !SeparatorAt(z, separator, i)
  }

  function Output(z: seq<byte>, separator: seq<byte>): seq<byte> {
    if z == [] || !Unmarked(z, separator) then [DQUOTE] + Doubled(z) + [DQUOTE] else z
  }

  /** A separator of several bytes is seen only at the start of a field: further on it does not cause quotes. */
  lemma LongSeparator(z: seq<byte>, separator: seq<byte>)
    requires |separator| > 1
    ensures Unmarked(z, separator) <==> !(separator <= z) && forall c <- z :: 33 <= c <= 126 && c != 34 && c != 39
  {
    if separator <= z { assert SeparatorAt(z, separator, 0); }
    forall i | 0 <= i < |z| ensures z[i] in z {}
  }

  // Fields with a separator of one byte.

  predicate Plain(z: seq<byte>, sep: byte) {
    forall i :: 0 <= i < |z| ==> !NeedQuote(z[i]) && z[i] != sep
  }

  function Field(z: seq<byte>, sep: byte): seq<byte> {
    if z == [] || !Plain(z, sep) then [DQUOTE] + Doubled(z) + [DQUOTE] else z
  }

  lemma OutputField(z: seq<byte>, sep: byte)
    ensures Output(z, [sep]) == Field(z, sep)
  {
    hide NeedQuote;
    if Unmarked(z, [sep]) {
      assert forall i :: 0 <= i < |z| ==> !SeparatorAt(z, [sep], i);
    } else {
      var i :| 0 <= i < |z| && (NeedQuote(z[i]) || SeparatorAt(z, [sep], i));
    }
  }

  /** A field is written as it is if it is not empty and all its bytes are printable ASCII characters other than the blank,
    both quotes and the separator, and in quotes with its double quotes doubled otherwise. */
  lemma OutputExact(z: seq<byte>, sep: byte)
    ensures if z != [] && forall c <- z :: 33 <= c <= 126 && c != 34 && c != 39 && c != sep
      then Output(z, [sep]) == z else Output(z, [sep]) == [34] + Doubled(z) + [34]
  {
    OutputField(z, sep);
    if forall c <- z :: 33 <= c <= 126 && c != 34 && c != 39 && c != sep {
      forall i | 0 <= i < |z| ensures !NeedQuote(z[i]) && z[i] != sep { assert z[i] in z; }
      assert Plain(z, sep);
    }
  }

  /** The doubled form, byte by byte. */
  lemma DoubledAt(z: seq<byte>, i: nat)
    requires i < |z|
    ensures Doubled(z) == Doubled(z[..i]) + (if z[i] == 34 then [34, 34] else [z[i]]) + Doubled(z[i + 1..])
  {
    hide Doubled;
    Around(z, i);
    DoubledAround(z[..i], z[i], z[i + 1..]);
  }

  lemma Around(z: seq<byte>, i: nat)
    requires i < |z|
    ensures z == z[..i] + [z[i]] + z[i + 1..]
  {
  }

  lemma DoubledAround(a: seq<byte>, c: byte, b: seq<byte>)
    ensures Doubled(a + [c] + b) == Doubled(a) + (if c == 34 then [34, 34] else [c]) + Doubled(b)
  {
    hide Doubled;
    DoubledNext(a, c);
    DoubledSplit(a + [c], b);
  }

  lemma DoubledNext(a: seq<byte>, c: byte)
    ensures Doubled(a + [c]) == Doubled(a) + if c == 34 then [34, 34] else [c]
  {
    assert (a + [c])[..|a|] == a;
  }

  lemma {:induction false} DoubledSplit(a: seq<byte>, b: seq<byte>)
    ensures Doubled(a + b) == Doubled(a) + Doubled(b)
  {
    if b == [] {
      assert a + b == a;
    } else {
      DoubledSplit(a, b[..|b| - 1]);
      assert (a + b)[..|a + b| - 1] == a + b[..|b| - 1];
    }
  }

  /** A row is its fields, separated, and CR LF. */
  function Fields(row: seq<seq<byte>>, sep: byte): seq<byte> {
    if row == [] then []
    else if |row| == 1 then Field(row[0], sep) + [CR, LF]
    else Field(row[0], sep) + [sep] + Fields(row[1..], sep)
  }

  /** output_csv */
  method OutputCsv(out0: seq<byte>, z: Option<seq<byte>>, nullValue: seq<byte>, separator: seq<byte>, bSep: bool) returns (out: seq<byte>)
    requires z.Some? ==> 0 !in z.value
    ensures out == out0 + (if z.None? then nullValue else Output(z.value, separator)) + if bSep then separator else []
    ensures z.Some? && |separator| == 1 ==>
      out == out0 + (if z.value != [] && forall c <- z.value :: 33 <= c <= 126 && c != 34 && c != 39 && c != separator[0] then z.value else [34] + Doubled(z.value) + [34]) + if bSep then separator else []
  {
    hide Output;
    if z.Some? && |separator| == 1 {
      OutputExact(z.value, separator[0]);
      assert separator == [separator[0]];
    }
    if z == None {
      out := out0 + nullValue;
    } else {
      out := PutField(out0, z.value, separator);
    }
    if bSep {
      out := out + separator;
    }
  }

  method PutField(out0: seq<byte>, s: seq<byte>, separator: seq<byte>) returns (out: seq<byte>)
    ensures out == out0 + Output(s, separator)
  {
    hide Doubled, NeedQuote;
    var i := 0;
    while i < |s|
      invariant 0 <= i <= |s| && forall k :: 0 <= k < i ==> !NeedQuote(s[k]) && !SeparatorAt(s, separator, k)
    {
      if NeedQuote(s[i]) || SeparatorAt(s, separator, i) {
        assert !Unmarked(s, separator);
        i := 0;
        break;
      }
      i := i + 1;
    }
    if i == 0 {
      out := PutQuoted(out0, s);
      Regroup(out0, [DQUOTE], Doubled(s), [DQUOTE]);
    } else {
      out := out0 + s;
    }
  }

  method PutQuoted(out0: seq<byte>, s: seq<byte>) returns (out: seq<byte>)
    ensures out == out0 + ([DQUOTE] + Doubled(s) + [DQUOTE])
  {
    out := out0 + [DQUOTE];
    assert s[..0] == [];
    var j := 0;
    while j < |s|
      invariant 0 <= j <= |s| && out == out0 + [DQUOTE] + Doubled(s[..j])
    {
      assert s[..j + 1][..j] == s[..j];
      if s[j] == DQUOTE {
        out := out + [DQUOTE];
      }
      out := out + [s[j]];
      j := j + 1;
    }
    assert s[..j] == s;
    out := out + [DQUOTE];
  }

  // The reader, as a function of its input.

  /** What reading one field leaves: the text, the terminator, the position, the number of lines passed and of
    complaints on stderr. */
  datatype Read = Read(z: seq<byte>, term: int, pos: nat, lines: int, errors: int)

  function Char(input: seq<byte>, pos: nat): (c: int)
    ensures c == EOF <==> pos >= |input|
  {
    if pos < |input| then input[pos] else EOF
  }

  function UpToQuote(z: seq<byte>): (r: seq<byte>)
    ensures |r| <= |z|
  {
    if z == [] then [] else if z[|z| - 1] == DQUOTE then z[..|z| - 1] else UpToQuote(z[..|z| - 1])
  }

  predicate Closes(c: int, sep: int, pc: int, ppc: int) {
    (c == sep && pc == DQUOTE) || (c == LF && pc == DQUOTE) || (c == LF && pc == CR && ppc == DQUOTE) || (c == EOF && pc == DQUOTE)
  }

  /** The loop over a quoted field: the position, the two characters before it, and what has been read so far. */
  datatype State = State(pos: nat, pc: int, ppc: int, z: seq<byte>, lines: int, errors: int)

  function Start(pos: nat): State {
    State(pos, 0, 0, [], 0, 0)
  }

  function Quoted(input: seq<byte>, sep: int, s: State): Read
    decreases |input| - s.pos
  {
    var c := Char(input, s.pos);
    var lines := s.lines + if c == LF then 1 else 0;
    if c == DQUOTE && s.pc == DQUOTE then Quoted(input, sep, s.(pos := s.pos + 1, pc := 0))
    else if Closes(c, sep, s.pc, s.ppc) then Read(UpToQuote(s.z), c, if c == EOF then s.pos else s.pos + 1, lines, s.errors)
    else
      var errors := s.errors + if s.pc == DQUOTE && c != CR then 1 else 0;
      if c == EOF then Read(s.z, EOF, s.pos, lines, errors + 1)
      else Quoted(input, sep, State(s.pos + 1, c, s.pc, s.z + [c], lines, errors))
  }

  function NoCR(z: seq<byte>): seq<byte> {
    if |z| > 0 && z[|z| - 1] == CR then z[..|z| - 1] else z
  }

  /** The loop over any other field. */
  function Unquoted(input: seq<byte>, sep: int, pos: nat, z: seq<byte>, lines: int): Read
    decreases |input| - pos
  {
    var c := Char(input, pos);
    if c == EOF then Read(z, EOF, pos, lines, 0)
    else if c == LF then Read(NoCR(z), c, pos + 1, lines + 1, 0)
    else if c == sep then Read(z, c, pos + 1, lines, 0)
    else Unquoted(input, sep, pos + 1, z + [c], lines)
  }

  function ReadField(input: seq<byte>, sep: int, pos: nat): Option<Read> {
    var c := Char(input, pos);
    if c == EOF then None
    else if c == DQUOTE then Some(Quoted(input, sep, Start(pos + 1)))
    else Some(Unquoted(input, sep, pos, [], 0))
  }

  class CsvReader {
    const input: seq<byte>    // the file
    const cSeparator: byte
    var pos: nat              // how much of the file has been read
    var z: seq<byte>
    var nLine: nat
    var cTerm: int
    var errors: nat           // messages on stderr

    constructor (input: seq<byte>, sep: byte)
      ensures this.input == input && cSeparator == sep && pos == 0 && nLine == 0 && errors == 0
    {
      this.input, cSeparator := input, sep;
      pos, z, nLine, cTerm, errors := 0, [], 0, 0, 0;
    }

    /** fgetc */
    method GetC() returns (c: int)
      modifies `pos
      ensures c == Char(input, old(pos)) && pos == if c == EOF then old(pos) else old(pos) + 1
    {
      c := Char(input, pos);
      if c != EOF {
        pos := pos + 1;
      }
    }

    /** csv_read_one_field: true, and the field in z, or false at the end of the file. */
    method ReadOneField() returns (more: bool)
      modifies this
      ensures more == ReadField(input, cSeparator, old(pos)).Some?
      ensures more ==> Read(z, cTerm, pos, nLine - old(nLine), errors - old(errors)) == ReadField(input, cSeparator, old(pos)).value
      ensures !more ==> cTerm == EOF && pos == old(pos)
      ensures more <==> old(pos) < |input|
    {
      z := [];
      var c := GetC();
      if c == EOF {
        cTerm := EOF;
        return false;
      }
      if c == DQUOTE {
        ReadQuoted();
      } else {
        ReadUnquoted(c);
      }
      more := true;
    }

    method ReadQuoted()
      requires z == []
      modifies this
      ensures nLine >= old(nLine) && errors >= old(errors)
      ensures Read(z, cTerm, pos, nLine - old(nLine), errors - old(errors)) == Quoted(input, cSeparator, Start(old(pos)))
    {
      var pc, ppc := 0, 0;
      var c := 0;
      ghost var sep, whole := cSeparator, Quoted(input, cSeparator, Start(pos));
      while true
        invariant whole == Quoted(input, cSeparator, State(pos, pc, ppc, z, nLine - old(nLine), errors - old(errors)))
        invariant nLine >= old(nLine) && errors >= old(errors)
        invariant pc == DQUOTE ==> |z| > 0 && z[|z| - 1] == DQUOTE
        invariant pc == CR && ppc == DQUOTE ==> |z| > 1 && z[|z| - 2] == DQUOTE
        decreases |input| - pos
      {
        c := GetC();
        if c == LF {
          nLine := nLine + 1;
        }
        if c == DQUOTE && pc == DQUOTE {
          pc := 0;
          continue;
        }
        if Closes(c, cSeparator, pc, ppc) {
          BackToQuote();
          cTerm := c;
          break;
        }
        if pc == DQUOTE && c != CR {
          errors := errors + 1;
        }
        if c == EOF {
          errors := errors + 1;
          cTerm := EOF;
          break;
        }
        z := z + [c];
        ppc := pc;
        pc := c;
      }
    }

    /** do { n--; } while (z[n] != cQuote) */
    method BackToQuote()
      requires DQUOTE in z
      modifies `z
      ensures z == UpToQuote(old(z))
    {
      var n := |z| - 1;
      assert z[..n + 1] == z;
      while z[n] != DQUOTE
        invariant 0 <= n < |z| && DQUOTE in z[..n + 1] && UpToQuote(z) == UpToQuote(z[..n + 1])
        decreases n
      {
        assert z[..n + 1][..n] == z[..n];
        n := n - 1;
      }
      assert z[..n + 1][..n] == z[..n];
      z := z[..n];
    }

    method ReadUnquoted(c0: int)
      requires z == [] && pos > 0 && c0 == Char(input, pos - 1) != EOF
      modifies this
      ensures nLine >= old(nLine) && errors == old(errors)
      ensures Read(z, cTerm, pos, nLine - old(nLine), 0) == Unquoted(input, cSeparator, old(pos) - 1, [], 0)
    {
      var c := c0;
      ghost var whole, at := Unquoted(input, cSeparator, pos - 1, [], 0), pos - 1;
      while c != EOF && c != cSeparator && c != LF
        invariant whole == Unquoted(input, cSeparator, at, z, 0) && c == Char(input, at)
        invariant pos == if c == EOF then at else at + 1
        invariant nLine == old(nLine) && errors == old(errors)
        decreases |input| - at
      {
        z := z + [c];
        c := GetC();
        at := at + 1;
      }
      if c == LF {
        nLine := nLine + 1;
        if |z| > 0 && z[|z| - 1] == CR {
          z := z[..|z| - 1];
        }
      }
      cTerm := c;
    }
  }

  // Reading what was written.

  lemma HoldsAt(input: seq<byte>, pos: nat, s: seq<byte>, k: nat)
    requires Holds(input, pos, s) && k < |s|
    ensures Char(input, pos + k) == s[k]
  {
    assert input[pos..pos + |s|][k] == s[k];
  }

  /** How a field ends: at the separator, a line end of either kind, or the end of the file. */
  datatype Stop = Sep | Lf | CrLf | Eof

  function StopBytes(stop: Stop, sep: byte): seq<byte> {
    match stop
    case Sep => [sep]
    case Lf => [LF]
    case CrLf => [CR, LF]
    case Eof => []
  }

  function Term(stop: Stop, sep: byte): int {
    match stop
    case Sep => sep
    case Eof => EOF
    case _ => LF
  }

  function LineEnds(stop: Stop): nat {
    if stop.Lf? || stop.CrLf? then 1 else 0
  }

  /** The bytes of a field and its end. */
  ghost predicate EndsAt(input: seq<byte>, pos: nat, s: seq<byte>, stop: Stop, sep: byte) {
    Holds(input, pos, s + StopBytes(stop, sep)) && (stop.Eof? ==> pos + |s| == |input|)
  }

  /** The character at the end, in front of a possible second one. */
  lemma EndChar(input: seq<byte>, pos: nat, s: seq<byte>, stop: Stop, sep: byte)
    requires EndsAt(input, pos, s, stop, sep)
    ensures Holds(input, pos, s) && Char(input, pos + |s|) == if stop.CrLf? then CR else Term(stop, sep)
    ensures stop.CrLf? ==> Char(input, pos + |s| + 1) == LF
  {
    hide Holds;
    HoldsBoth(input, pos, s, StopBytes(stop, sep));
    if !stop.Eof? { HoldsAt(input, pos + |s|, StopBytes(stop, sep), 0); }
    if stop.CrLf? { HoldsAt(input, pos + |s|, StopBytes(stop, sep), 1); }
  }

  lemma FromQuote(input: seq<byte>, pos: nat, s: seq<byte>, stop: Stop, sep: byte)
    requires EndsAt(input, pos, [DQUOTE] + s, stop, sep)
    ensures Char(input, pos) == DQUOTE && EndsAt(input, pos + 1, s, stop, sep)
  {
    hide Holds;
    assert [DQUOTE] + s + StopBytes(stop, sep) == [DQUOTE] + (s + StopBytes(stop, sep));
    HoldsBoth(input, pos, [DQUOTE], s + StopBytes(stop, sep));
    HoldsAt(input, pos, [DQUOTE], 0);
  }

  // One turn of the reader's loop.

  lemma Take(input: seq<byte>, sep: byte, s: State, c: byte)
    requires Char(input, s.pos) == c && !Closes(c, sep, s.pc, s.ppc) && (s.pc == DQUOTE ==> c != DQUOTE)
    ensures Quoted(input, sep, s) == Quoted(input, sep,
      State(s.pos + 1, c, s.pc, s.z + [c], s.lines + if c == LF then 1 else 0, s.errors + if s.pc == DQUOTE && c != CR then 1 else 0))
  {
  }

  lemma TakePair(input: seq<byte>, sep: byte, s: State)
    requires Char(input, s.pos) == DQUOTE == s.pc
    ensures Quoted(input, sep, s) == Quoted(input, sep, s.(pos := s.pos + 1, pc := 0))
  {
  }

  lemma Close(input: seq<byte>, sep: byte, s: State, c: int)
    requires Char(input, s.pos) == c != DQUOTE && Closes(c, sep, s.pc, s.ppc)
    ensures Quoted(input, sep, s) == Read(UpToQuote(s.z), c, if c == EOF then s.pos else s.pos + 1, s.lines + if c == LF then 1 else 0, s.errors)
  {
  }

  lemma Unended(input: seq<byte>, sep: byte, s: State)
    requires Char(input, s.pos) == EOF && s.pc != DQUOTE && Separator(sep)
    ensures Quoted(input, sep, s) == Read(s.z, EOF, s.pos, s.lines, s.errors + 1)
  {
  }

  // Text in which every quote is doubled.

  function PcAfter(f: seq<byte>, pc: int): int {
    if f == [] then pc else if f[|f| - 1] == DQUOTE then 0 else f[|f| - 1]
  }

  function PpcAfter(f: seq<byte>, pc: int, ppc: int): int {
    if f == [] then ppc else PcAfter(f[..|f| - 1], pc)
  }

  function After(s: State, f: seq<byte>): State {
    State(s.pos + |Doubled(f)|, PcAfter(f, s.pc), PpcAfter(f, s.pc, s.ppc), s.z + f, s.lines + multiset(f)[LF], s.errors)
  }

  /** The last quote is not one that a line end would still close the field behind. */
  predicate Inside(s: State, f: seq<byte>) {
    s.pc != DQUOTE && (s.pc == CR && s.ppc == DQUOTE && f != [] ==> f[0] != LF)
  }

  /** The reader passes over the text: quotes are single again, and no character is taken for the end, whatever the text
    holds. */
  lemma {:induction false} QuotedPrefix(input: seq<byte>, sep: byte, s: State, f: seq<byte>)
    requires Separator(sep) && Inside(s, f) && Holds(input, s.pos, Doubled(f))
    ensures Quoted(input, sep, s) == Quoted(input, sep, After(s, f)) && After(s, f).pc != DQUOTE
  {
    hide Quoted, Holds, Separator, Doubled;
    if f == [] {
      NoneDoubled(s);
    } else {
      var n := |f| - 1;
      var c := f[n];
      var one := if c == DQUOTE then [DQUOTE, DQUOTE] else [c];
      assert f == f[..n] + [c];
      DoubledNext(f[..n], c);
      HoldsBoth(input, s.pos, Doubled(f[..n]), one);
      QuotedPrefix(input, sep, s, f[..n]);
      QuotedChar(input, sep, s, f[..n], c, one);
    }
  }

  lemma NoneDoubled(s: State)
    ensures After(s, []) == s
  {
  }

  lemma QuotedChar(input: seq<byte>, sep: byte, s: State, f: seq<byte>, c: byte, one: seq<byte>)
    requires Separator(sep) && Inside(s, f + [c]) && After(s, f).pc != DQUOTE && one == if c == DQUOTE then [DQUOTE, DQUOTE] else [c]
    requires Holds(input, After(s, f).pos, one)
    ensures Quoted(input, sep, After(s, f)) == Quoted(input, sep, After(s, f + [c])) && After(s, f + [c]).pc != DQUOTE
  {
    hide Quoted, Holds, After;
    var q := After(s, f);
    HoldsAt(input, q.pos, one, 0);
    NoQuoteBefore(s, f, c);
    AfterNext(s, f, c);
    Take(input, sep, q, c);
    if c == DQUOTE {
      HoldsAt(input, q.pos, one, 1);
      TakePair(input, sep, State(q.pos + 1, c, q.pc, q.z + [c], q.lines, q.errors));
    }
  }

  /** What one more character of the text changes. */
  lemma AfterNext(s: State, f: seq<byte>, c: byte)
    ensures var q := After(s, f);
      After(s, f + [c]) == State(q.pos + if c == DQUOTE then 2 else 1, if c == DQUOTE then 0 else c, q.pc, q.z + [c], q.lines + if c == LF then 1 else 0, q.errors)
  {
    hide Doubled;
    DoubledNext(f, c);
    assert (f + [c])[..|f|] == f && s.z + (f + [c]) == s.z + f + [c];
  }

  lemma NoQuoteBefore(s: State, f: seq<byte>, c: byte)
    requires Inside(s, f + [c])
    ensures After(s, f).pc == CR && After(s, f).ppc == DQUOTE ==> c != LF
  {
    hide Doubled;
    assert f == [] ==> (f + [c])[0] == c;
  }

  // A quote that is not doubled, and is not at the end of the field, is a complaint, and is taken as it is, unless CR is
  // behind it.

  /** The character behind such a quote, and the text up to the next one. */
  datatype Stray = Stray(c: byte, f: seq<byte>)

  predicate Strayed(strays: seq<Stray>, sep: byte) {
    forall s <- strays :: s.c != DQUOTE && s.c != sep && s.c != LF && (s.c == CR && s.f != [] ==> s.f[0] != LF)
  }

  function Raw(strays: seq<Stray>): seq<byte> {
    if strays == [] then []
    else Raw(strays[..|strays| - 1]) + ([DQUOTE, strays[|strays| - 1].c] + Doubled(strays[|strays| - 1].f))
  }

  function Text(strays: seq<Stray>): seq<byte> {
    if strays == [] then []
    else Text(strays[..|strays| - 1]) + ([DQUOTE, strays[|strays| - 1].c] + strays[|strays| - 1].f)
  }

  function Complaints(strays: seq<Stray>): nat {
    if strays == [] then 0 else Complaints(strays[..|strays| - 1]) + if strays[|strays| - 1].c != CR then 1 else 0
  }

  function AfterStray(q: State, s: Stray): State {
    After(State(q.pos + 2, s.c, DQUOTE, q.z + [DQUOTE, s.c], q.lines, q.errors + if s.c != CR then 1 else 0), s.f)
  }

  lemma StrayStep(input: seq<byte>, sep: byte, q: State, s: Stray)
    requires Separator(sep) && Strayed([s], sep) && q.pc != DQUOTE && Holds(input, q.pos, [DQUOTE, s.c] + Doubled(s.f))
    ensures var q' := AfterStray(q, s);
      && Quoted(input, sep, q) == Quoted(input, sep, q') && q'.pc != DQUOTE && q'.pos == q.pos + |[DQUOTE, s.c] + Doubled(s.f)|
      && q'.z == q.z + ([DQUOTE, s.c] + s.f) && q'.lines == q.lines + multiset([DQUOTE, s.c] + s.f)[LF]
      && q'.errors == q.errors + if s.c != CR then 1 else 0
  {
    hide Quoted, Holds, Doubled;
    assert s in [s];
    HoldsBoth(input, q.pos, [DQUOTE, s.c], Doubled(s.f));
    HoldsAt(input, q.pos, [DQUOTE, s.c], 0);
    HoldsAt(input, q.pos, [DQUOTE, s.c], 1);
    Take(input, sep, q, DQUOTE);
    var q1 := State(q.pos + 1, DQUOTE, q.pc, q.z + [DQUOTE], q.lines, q.errors);
    Take(input, sep, q1, s.c);
    assert q.z + [DQUOTE] + [s.c] == q.z + [DQUOTE, s.c];
    QuotedPrefix(input, sep, State(q.pos + 2, s.c, DQUOTE, q.z + [DQUOTE, s.c], q.lines, q.errors + if s.c != CR then 1 else 0), s.f);
  }

  lemma {:induction false} StraysPrefix(input: seq<byte>, sep: byte, s: State, strays: seq<Stray>) returns (q: State)
    requires Separator(sep) && Strayed(strays, sep) && s.pc != DQUOTE && Holds(input, s.pos, Raw(strays))
    ensures Quoted(input, sep, s) == Quoted(input, sep, q) && q.pc != DQUOTE && q.pos == s.pos + |Raw(strays)|
    ensures q.z == s.z + Text(strays) && q.lines == s.lines + multiset(Text(strays))[LF] && q.errors == s.errors + Complaints(strays)
    decreases |strays|
  {
    hide Quoted, Holds, Separator, Doubled, AfterStray;
    if strays == [] {
      q := s;
    } else {
      var a, one := strays[..|strays| - 1], strays[|strays| - 1];
      HoldsBoth(input, s.pos, Raw(a), [DQUOTE, one.c] + Doubled(one.f));
      var q0 := StraysPrefix(input, sep, s, a);
      assert one in strays;
      StrayStep(input, sep, q0, one);
      q := AfterStray(q0, one);
      Assoc(s.z, Text(a), [DQUOTE, one.c] + one.f);
    }
  }

  // Whole fields, with each of the four ends.

  /** The reader has passed over everything but the closing quote, if there is one. */
  lemma QuotedText(input: seq<byte>, sep: byte, pos: nat, f: seq<byte>, strays: seq<Stray>) returns (q: State)
    requires Separator(sep) && Strayed(strays, sep) && Holds(input, pos, Doubled(f) + Raw(strays))
    ensures Quoted(input, sep, Start(pos)) == Quoted(input, sep, q) && q.pc != DQUOTE && q.pos == pos + |Doubled(f) + Raw(strays)|
    ensures q.z == f + Text(strays) && q.lines == multiset(f + Text(strays))[LF] && q.errors == Complaints(strays)
  {
    hide Quoted, Holds, Separator, Doubled, Raw, Text, Complaints;
    HoldsBoth(input, pos, Doubled(f), Raw(strays));
    QuotedPrefix(input, sep, Start(pos), f);
    q := StraysPrefix(input, sep, After(Start(pos), f), strays);
    assert [] + f + Text(strays) == f + Text(strays);
  }

  lemma CutAtQuote(f: seq<byte>)
    ensures UpToQuote(f + [DQUOTE]) == f && UpToQuote(f + [DQUOTE] + [CR]) == f
  {
    assert (f + [DQUOTE])[..|f|] == f;
    assert (f + [DQUOTE] + [CR])[..|f| + 1] == f + [DQUOTE];
  }

  lemma ClosedField(input: seq<byte>, sep: byte, pos: nat, f: seq<byte>, strays: seq<Stray>, stop: Stop)
    requires Separator(sep) && Strayed(strays, sep) && EndsAt(input, pos, Doubled(f) + Raw(strays) + [DQUOTE], stop, sep)
    ensures var z := f + Text(strays);
      Quoted(input, sep, Start(pos)) == Read(z, Term(stop, sep), pos + |Doubled(f) + Raw(strays)| + 1 + |StopBytes(stop, sep)|, multiset(z)[LF] + LineEnds(stop), Complaints(strays))
  {
    hide Quoted, Holds, Doubled, Raw, Text, Complaints, UpToQuote, Strayed, EndsAt;
    var raw := Doubled(f) + Raw(strays);
    EndChar(input, pos, raw + [DQUOTE], stop, sep);
    HoldsBoth(input, pos, raw, [DQUOTE]);
    HoldsAt(input, pos + |raw|, [DQUOTE], 0);
    var q := QuotedText(input, sep, pos, f, strays);
    Take(input, sep, q, DQUOTE);
    var q1 := State(q.pos + 1, DQUOTE, q.pc, q.z + [DQUOTE], q.lines, q.errors);
    CutAtQuote(q.z);
    if stop.CrLf? {
      Take(input, sep, q1, CR);
      Close(input, sep, State(q1.pos + 1, CR, DQUOTE, q1.z + [CR], q1.lines, q1.errors), LF);
    } else {
      Close(input, sep, q1, Term(stop, sep));
    }
  }

  lemma OpenField(input: seq<byte>, sep: byte, pos: nat, f: seq<byte>, strays: seq<Stray>)
    requires Separator(sep) && Strayed(strays, sep) && EndsAt(input, pos, Doubled(f) + Raw(strays), Eof, sep)
    ensures var z := f + Text(strays);
      Quoted(input, sep, Start(pos)) == Read(z, EOF, |input|, multiset(z)[LF], Complaints(strays) + 1)
  {
    hide Quoted, Holds, Doubled, Raw, Text, Complaints, Strayed;
    EndChar(input, pos, Doubled(f) + Raw(strays), Eof, sep);
    var q := QuotedText(input, sep, pos, f, strays);
    Unended(input, sep, q);
  }

  predicate Unquotable(f: seq<byte>, sep: byte) {
    sep !in f && LF !in f && (f != [] ==> f[0] != DQUOTE)
  }

  lemma {:induction false} UnquotedPrefix(input: seq<byte>, sep: byte, pos: nat, f: seq<byte>)
    requires sep !in f && LF !in f && Holds(input, pos, f)
    ensures Unquoted(input, sep, pos, [], 0) == Unquoted(input, sep, pos + |f|, f, 0)
    decreases |f|
  {
    hide Holds;
    if f != [] {
      var n := |f| - 1;
      assert f == f[..n] + [f[n]] && f[n] in f;
      HoldsBoth(input, pos, f[..n], [f[n]]);
      UnquotedPrefix(input, sep, pos, f[..n]);
      HoldsAt(input, pos, f, n);
    }
  }

  /** A line end takes a CR before it along, whether the CR was meant to be part of it or not. */
  lemma BareField(input: seq<byte>, sep: byte, pos: nat, f: seq<byte>, stop: Stop)
    requires Separator(sep) && Unquotable(f, sep) && EndsAt(input, pos, f, stop, sep)
    ensures var z := if stop.Lf? && f != [] && f[|f| - 1] == CR then f[..|f| - 1] else f;
      Unquoted(input, sep, pos, [], 0) == Read(z, Term(stop, sep), pos + |f| + |StopBytes(stop, sep)|, LineEnds(stop), 0)
  {
    hide Holds, EndsAt;
    EndChar(input, pos, f, stop, sep);
    UnquotedPrefix(input, sep, pos, f);
    if stop.CrLf? { assert (f + [CR])[..|f|] == f; }
  }

  /** Reading one written field: the field, its terminator, no complaint, and the position after it. */
  lemma FieldRoundTrip(input: seq<byte>, sep: byte, pos: nat, f: seq<byte>, stop: Stop)
    requires Separator(sep) && EndsAt(input, pos, Field(f, sep), stop, sep)
    ensures ReadField(input, sep, pos) == Some(Read(f, Term(stop, sep), pos + |Field(f, sep)| + |StopBytes(stop, sep)|, multiset(f)[LF] + LineEnds(stop), 0))
  {
    hide Quoted, Unquoted, Doubled, Holds, Plain;
    var written, end := Field(f, sep), StopBytes(stop, sep);
    HoldsAt(input, pos, written + end, 0);
    if f == [] || !Plain(f, sep) {
      QuotedRoundTrip(input, sep, pos, f, stop);
    } else {
      PlainBare(f, sep);
      BareField(input, sep, pos, f, stop);
    }
  }

  lemma QuotedRoundTrip(input: seq<byte>, sep: byte, pos: nat, f: seq<byte>, stop: Stop)
    requires Separator(sep) && EndsAt(input, pos, [DQUOTE] + Doubled(f) + [DQUOTE], stop, sep)
    ensures Char(input, pos) == DQUOTE
    ensures Quoted(input, sep, Start(pos + 1)) == Read(f, Term(stop, sep), pos + |[DQUOTE] + Doubled(f) + [DQUOTE]| + |StopBytes(stop, sep)|, multiset(f)[LF] + LineEnds(stop), 0)
  {
    hide Quoted, Doubled, Holds;
    assert Doubled(f) + Raw([]) == Doubled(f) && f + Text([]) == f;
    assert [DQUOTE] + Doubled(f) + [DQUOTE] == [DQUOTE] + (Doubled(f) + [DQUOTE]);
    FromQuote(input, pos, Doubled(f) + [DQUOTE], stop, sep);
    ClosedField(input, sep, pos + 1, f, [], stop);
  }

  lemma PlainBare(f: seq<byte>, sep: byte)
    requires f != [] && Plain(f, sep)
    ensures f[0] != DQUOTE && Unquotable(f, sep) && multiset(f)[LF] == 0 && f[|f| - 1] != CR
  {
    assert LF !in f;
  }

  // Whole rows.

  /** A row of strings, written field by field and ended by CR LF. */
  method WriteRow(out0: seq<byte>, row: seq<seq<byte>>, nullValue: seq<byte>, sep: byte) returns (out: seq<byte>)
    requires row != [] && forall f <- row :: 0 !in f
    ensures out == out0 + Fields(row, sep)
  {
    hide Field, Output;
    out := out0;
    var i := 0;
    assert row[0..] == row;
    while i < |row|
      invariant 0 <= i <= |row|
      invariant out + (if i < |row| then Fields(row[i..], sep) else [CR, LF]) == out0 + Fields(row, sep)
    {
      assert row[i] in row && row[i..][0] == row[i] && row[i..][1..] == row[i + 1..];
      Regroup(out, Field(row[i], sep), if i < |row| - 1 then [sep] else [CR, LF], if i < |row| - 1 then Fields(row[i + 1..], sep) else []);
      OutputField(row[i], sep);
      out := OutputCsv(out, Some(row[i]), nullValue, [sep], i < |row| - 1);
      i := i + 1;
    }
    out := out + [CR, LF];
  }

  lemma Regroup(a: seq<byte>, b: seq<byte>, c: seq<byte>, d: seq<byte>)
    ensures a + (b + c + d) == (a + b + c) + d && b + c + [] == b + c && a + b + [] == a + b && a + (b + c) == a + b + c
  {
  }

  /** Fields are read until one is not ended by the separator. */
  method ReadRow(r: CsvReader, ghost row: seq<seq<byte>>, ghost rest: seq<byte>) returns (got: seq<seq<byte>>, terms: seq<int>)
    requires row != [] && Separator(r.cSeparator) && Holds(r.input, r.pos, Fields(row, r.cSeparator) + rest)
    modifies r
    ensures got == row && r.errors == old(r.errors) && Holds(r.input, r.pos, rest)
    ensures |terms| == |row| && forall i :: 0 <= i < |row| ==> terms[i] == if i < |row| - 1 then r.cSeparator else LF
  {
    hide Field, Fields, Holds, Separator;
    got, terms := [], [];
    ghost var i := 0;
    assert row[0..] == row;
    var more := true;
    while more
      invariant 0 <= i <= |row| && got == row[..i] && |terms| == i && r.errors == old(r.errors)
      invariant forall k :: 0 <= k < i ==> terms[k] == if k < |row| - 1 then r.cSeparator else LF
      invariant more == (i < |row|)
      invariant Holds(r.input, r.pos, if i < |row| then Fields(row[i..], r.cSeparator) + rest else rest)
      decreases |row| - i
    {
      var term := ReadNext(r, row, rest, i);
      got := got + [r.z];
      terms := terms + [term];
      more := term == r.cSeparator;
      i := i + 1;
    }
  }

  /** The field at `i`. */
  method ReadNext(r: CsvReader, ghost row: seq<seq<byte>>, ghost rest: seq<byte>, ghost i: nat) returns (term: int)
    requires i < |row| && Separator(r.cSeparator) && Holds(r.input, r.pos, Fields(row[i..], r.cSeparator) + rest)
    modifies r
    ensures r.z == row[i] && r.errors == old(r.errors)
    ensures term == (if i < |row| - 1 then r.cSeparator else LF) && (term == r.cSeparator <==> i < |row| - 1)
    ensures Holds(r.input, r.pos, if i + 1 < |row| then Fields(row[i + 1..], r.cSeparator) + rest else rest)
  {
    hide Field, ReadField, Holds, Separator;
    ghost var sep, last := r.cSeparator, i == |row| - 1;
    assert row[i..][0] == row[i] && row[i..][1..] == row[i + 1..];
    ghost var tail, stop := if last then rest else Fields(row[i + 1..], sep) + rest, if last then CrLf else Sep;
    FirstField(row[i..], sep, rest, tail);
    HoldsBoth(r.input, r.pos, Field(row[i], sep) + StopBytes(stop, sep), tail);
    FieldRoundTrip(r.input, sep, r.pos, row[i], stop);
    var read := r.ReadOneField();
    term := r.cTerm;
    SeparatorApart(sep);
  }

  lemma SeparatorApart(sep: byte)
    requires Separator(sep)
    ensures sep != LF
  {
  }

  lemma FirstField(row: seq<seq<byte>>, sep: byte, rest: seq<byte>, tail: seq<byte>)
    requires row != [] && tail == if |row| == 1 then rest else Fields(row[1..], sep) + rest
    ensures Fields(row, sep) + rest == Field(row[0], sep) + StopBytes(if |row| == 1 then CrLf else Sep, sep) + tail
  {
    hide Field;
    if |row| > 1 {
      Regroup(Field(row[0], sep), [sep], Fields(row[1..], sep), rest);
    }
  }

  /** Writing a row and reading it back. */
  method RoundTrip(row: seq<seq<byte>>, nullValue: seq<byte>, sep: byte) returns (got: seq<seq<byte>>, terms: seq<int>, errors: nat)
    requires row != [] && (forall f <- row :: 0 !in f) && Separator(sep)
    ensures got == row && errors == 0
    ensures |terms| == |row| && forall i :: 0 <= i < |row| ==> terms[i] == if i < |row| - 1 then sep else LF
  {
    var out := WriteRow([], row, nullValue, sep);
    var r := new CsvReader(out, sep);
    assert out[0..|out|] == Fields(row, sep) + [];
    got, terms := ReadRow(r, row, []);
    errors := r.errors;
  }

  // The reader on files that this writer did not write.

  /** A field without quotes: any text without the separator and LF that does not begin with a quote. At the end of the
    file there is no field where there is no text. */
  method ReadBare(r: CsvReader, ghost f: seq<byte>, ghost stop: Stop) returns (more: bool)
    requires Separator(r.cSeparator) && r.cSeparator !in f && LF !in f && (f != [] ==> f[0] != DQUOTE)
    requires EndsAt(r.input, r.pos, f, stop, r.cSeparator)
    modifies r
    ensures more == !(stop.Eof? && f == []) && r.cTerm == Term(stop, r.cSeparator)
    ensures more ==> r.z == if stop.Lf? && f != [] && f[|f| - 1] == CR then f[..|f| - 1] else f
    ensures r.pos == old(r.pos) + |f| + |StopBytes(stop, r.cSeparator)|
    ensures more ==> r.nLine == old(r.nLine) + LineEnds(stop) && r.errors == old(r.errors)
  {
    hide Unquoted, Quoted, Holds;
    EndChar(r.input, r.pos, f, stop, r.cSeparator);
    BareField(r.input, r.cSeparator, r.pos, f, stop);
    if f != [] { HoldsAt(r.input, r.pos, f, 0); }
    more := r.ReadOneField();
  }

  /** A field in quotes: text with its quotes doubled, and then any number of stray quotes with such text behind them. Each
    stray quote is a complaint unless CR is behind it. */
  method ReadClosed(r: CsvReader, ghost f: seq<byte>, ghost strays: seq<Stray>, ghost stop: Stop) returns (more: bool)
    requires Separator(r.cSeparator) && Strayed(strays, r.cSeparator)
    requires EndsAt(r.input, r.pos, [DQUOTE] + Doubled(f) + Raw(strays) + [DQUOTE], stop, r.cSeparator)
    modifies r
    ensures more && r.z == f + Text(strays) && r.cTerm == Term(stop, r.cSeparator)
    ensures r.pos == old(r.pos) + |Doubled(f)| + |Raw(strays)| + 2 + |StopBytes(stop, r.cSeparator)|
    ensures r.nLine == old(r.nLine) + multiset(f + Text(strays))[LF] + LineEnds(stop) && r.errors == old(r.errors) + Complaints(strays)
  {
    hide Unquoted, Quoted, Holds, Doubled, Raw, Text, Complaints, Strayed;
    assert [DQUOTE] + Doubled(f) + Raw(strays) + [DQUOTE] == [DQUOTE] + (Doubled(f) + Raw(strays) + [DQUOTE]);
    FromQuote(r.input, r.pos, Doubled(f) + Raw(strays) + [DQUOTE], stop, r.cSeparator);
    ClosedField(r.input, r.cSeparator, r.pos + 1, f, strays, stop);
    more := r.ReadOneField();
  }

  /** The same without the closing quote, up to the end of the file, is one complaint more. */
  method ReadOpen(r: CsvReader, ghost f: seq<byte>, ghost strays: seq<Stray>) returns (more: bool)
    requires Separator(r.cSeparator) && Strayed(strays, r.cSeparator)
    requires EndsAt(r.input, r.pos, [DQUOTE] + Doubled(f) + Raw(strays), Eof, r.cSeparator)
    modifies r
    ensures more && r.z == f + Text(strays) && r.cTerm == EOF && r.pos == |r.input|
    ensures r.nLine == old(r.nLine) + multiset(f + Text(strays))[LF] && r.errors == old(r.errors) + Complaints(strays) + 1
  {
    hide Unquoted, Quoted, Holds, Doubled, Raw, Text, Complaints, Strayed;
    assert [DQUOTE] + Doubled(f) + Raw(strays) == [DQUOTE] + (Doubled(f) + Raw(strays));
    FromQuote(r.input, r.pos, Doubled(f) + Raw(strays), Eof, r.cSeparator);
    OpenField(r.input, r.cSeparator, r.pos + 1, f, strays);
    more := r.ReadOneField();
  }
}
