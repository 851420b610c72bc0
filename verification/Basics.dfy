/** Optional values. */
module Wrappers {

  datatype Option<T> = None | Some(value: T)
}

/** The size of a page. */
module Paging {

  const PAGE_SIZE := 4096
}

/** Sequences. */
module Sequences {

  /** No element occurs twice. */
  ghost predicate Distinct<T>(s: seq<T>) {
    forall i, j :: 0 <= i < j < |s| ==> s[i] != s[j]
  }

  lemma Assoc<T>(a: seq<T>, b: seq<T>, c: seq<T>)
    ensures (a + b) + c == a + (b + c)
  {
  }
}

/** Characters that the text codecs treat specially. */
module Characters {

  const TAB := 9
  const LF := 10
  const CR := 13
  const DQUOTE := 34
  const SQUOTE := 39
  const BACKSLASH := 92
}

/** Bytes, and what a buffer holds from a position on. */
module Bytes {

  type byte = x: int | 0 <= x < 256

  ghost predicate Holds(text: seq<byte>, pos: nat, s: seq<byte>) {
    pos + |s| <= |text| && text[pos..pos + |s|] == s
  }

  lemma HoldsBoth(text: seq<byte>, pos: nat, a: seq<byte>, b: seq<byte>)
    requires Holds(text, pos, a + b)
    ensures Holds(text, pos, a) && Holds(text, pos + |a|, b)
  {
    var t := text[pos..pos + |a + b|];
    assert t[..|a|] == a && t[|a|..] == b;
  }
}
