/** What a load that failed leaves behind. */
module TplFlags {
  import opened Wrappers
  import opened Bytes
  import opened TplWords
  import opened TplFormat
  import opened TplImage
  import opened TplPack
  import opened TplSize
  import opened TplSanity
  import opened TplDecode
  import opened TplUnpack
  import opened TplOldForm

  /** The image of "ab" in the current form, and a buffer of a big-endian machine that is too short. */
  const GOOD_IMAGE: seq<byte> := MAGIC + [2] + [16, 0, 0, 0] + [STR_CHAR, 0] + [3, 0, 0, 0] + [97, 98]
  const BAD_IMAGE: seq<byte> := MAGIC + [3] + [0, 0, 0, 0] + [0]

  lemma GoodImageSane()
    ensures Mapped(STRING_MAP) && Refs(STRING_MAP.f)
    ensures SaneWith(GOOD_IMAGE, STRING_MAP, NoFlags(false), false)
  {
  }

  lemma GoodImageRead()
    ensures Refs(STRING_MAP.f) && Readable(NATIVE, GOOD_IMAGE, STRING_MAP) && DataOf(NATIVE, GOOD_IMAGE, STRING_MAP) == [Strs([Some([97, 98])])]
  {
    hide Readable, DataOf, EncVals, EncOldVals, Mapped;
    OldStrings(Some([97, 98]));
    assert GOOD_IMAGE[10..16] == [3, 0, 0, 0] + [97, 98] && EncStr(NATIVE, Some([97, 98])) == [3, 0, 0, 0] + [97, 98];
    ReadableExact(NATIVE, GOOD_IMAGE, STRING_MAP, [Strs([Some([97, 98])])]);
  }

  /** With TPL_XENDIAN set, its length is read the other way round. */
  lemma GoodImageRefused()
    ensures Refs(STRING_MAP.f) && !SaneWith(GOOD_IMAGE, STRING_MAP, Way(Order(false, true), false), false)
  {
    assert GOOD_IMAGE[4..8] == [16, 0, 0, 0];
    assert Reverse([16, 0, 0, 0]) == [0, 0, 0, 16];
  }

  lemma BadImageRefused()
    ensures Refs(STRING_MAP.f) && !SaneWith(BAD_IMAGE, STRING_MAP, NoFlags(false), false)
    ensures FlagsLeft(NoFlags(false), BAD_IMAGE) == Way(Order(false, true), false)
  {
    assert BAD_IMAGE[4..8] == [0, 0, 0, 0];
    assert Reverse([0, 0, 0, 0]) == [0, 0, 0, 0];
  }

  /** An image that a new tpl loads is refused by one that has refused a buffer of the other kind of machine before. */
  method LoadAfterFailure() returns (first: int, second: int, fresh_: int)
    ensures first == -1 && second == -1 && fresh_ == 0
  {
    hide Mapped, Refs, SaneWith, Readable, DataOf, FlagsLeft;
    GoodImageSane();
    GoodImageRead();
    GoodImageRefused();
    BadImageRefused();
    var r := new Reader(STRING_MAP, false);
    first := r.Load(BAD_IMAGE, false);
    second := r.Load(GOOD_IMAGE, false);
    var r' := new Reader(STRING_MAP, false);
    fresh_ := r'.Load(GOOD_IMAGE, false);
  }
}
