/** The four levels of the slab tree: a directory of outers, outers of inners, inners of buckets, buckets of
  entries. The levels fill from left to right, so an entry's place in the order of creation is the mixed-radix
  number of its position. */
module SlabShape {

  const BUCKET := 28
  const INNER := 127
  const OUTER := 127
  const DIR := 124

  /** The entries for which the four levels have room. */
  const CAPACITY := DIR * OUTER * INNER * BUCKET

  type Dir<T> = seq<seq<seq<seq<T>>>>

  function Place(i: nat, j: nat, k: nat, l: nat): nat {
    ((i * OUTER + j) * INNER + k) * BUCKET + l
  }

  ghost predicate Position<T>(d: Dir<T>, i: nat, j: nat, k: nat, l: nat) {
    i < |d| && j < |d[i]| && k < |d[i][j]| && l < |d[i][j][k]|
  }

  /** Every page but the last of its level is full. */
  ghost predicate Packed<T>(d: Dir<T>) {
    && 0 < |d| <= DIR
    && (forall i :: 0 <= i < |d| ==> 0 < |d[i]| <= OUTER && (i < |d| - 1 ==> |d[i]| == OUTER))
    && (forall i, j :: 0 <= i < |d| && 0 <= j < |d[i]| ==> 0 < |d[i][j]| <= INNER)
    && (forall i, j :: 0 <= i < |d| && 0 <= j < |d[i]| && (i < |d| - 1 || j < |d[i]| - 1) ==> |d[i][j]| == INNER)
    && (forall i, j, k :: 0 <= i < |d| && 0 <= j < |d[i]| && 0 <= k < |d[i][j]| ==> |d[i][j][k]| == BUCKET)
  }

  function Buckets<T>(d: Dir<T>): int
    requires |d| > 0 && |d[|d| - 1]| > 0
  {
    var i := |d| - 1;
    var j := |d[i]| - 1;
    (i * OUTER + j) * INNER + |d[i][j]|
  }

  /** `all` is the entries in the order of their positions. */
  ghost predicate Spread<T>(d: Dir<T>, all: seq<T>) {
    && Packed(d) && |all| == BUCKET * Buckets(d)
    && forall i, j, k, l :: 0 <= i < |d| && 0 <= j < |d[i]| && 0 <= k < |d[i][j]| && 0 <= l < BUCKET ==> Place(i, j, k, l) < |all| && d[i][j][k][l] == all[Place(i, j, k, l)]
  }

  // The arithmetic of get_slab_entry_by_id.

  function SbIdx(seid: nat): nat { seid % BUCKET }
  function SbId(seid: nat): nat { seid / BUCKET }
  function SiIdx(seid: nat): nat { SbId(seid) % INNER }
  function SiId(seid: nat): nat { SbId(seid) / INNER }
  function SoIdx(seid: nat): nat { SiId(seid) % OUTER }
  function SoId(seid: nat): nat { SiId(seid) / OUTER }
  function SdIdx(seid: nat): nat { SoId(seid) % DIR }

  lemma PlaceOfId(seid: nat)
    ensures seid == Place(SoId(seid), SoIdx(seid), SiIdx(seid), SbIdx(seid))
    ensures SoIdx(seid) < OUTER && SiIdx(seid) < INNER && SbIdx(seid) < BUCKET
  {
  }

  lemma IdOfPlace(i: nat, j: nat, k: nat, l: nat)
    requires i < DIR && j < OUTER && k < INNER && l < BUCKET
    ensures var seid := Place(i, j, k, l); SdIdx(seid) == i && SoIdx(seid) == j && SiIdx(seid) == k && SbIdx(seid) == l
  {
    var seid := Place(i, j, k, l);
    var sb := (i * OUTER + j) * INNER + k;
    assert SbId(seid) == sb && SbIdx(seid) == l;
    assert SiId(seid) == i * OUTER + j && SiIdx(seid) == k;
  }

  /** An id that exceeds the capacity leads to the position of its remainder, since the directory index wraps. */
  lemma IdModulo(seid: nat)
    ensures Place(SdIdx(seid), SoIdx(seid), SiIdx(seid), SbIdx(seid)) == seid % CAPACITY
    ensures SdIdx(seid) < DIR && SoIdx(seid) < OUTER && SiIdx(seid) < INNER && SbIdx(seid) < BUCKET
  {
    PlaceOfId(seid);
    hide SoIdx, SiIdx, SbIdx, SoId;
    var p := Place(SdIdx(seid), SoIdx(seid), SiIdx(seid), SbIdx(seid));
    var q := SoId(seid) / DIR;
    assert SoId(seid) == q * DIR + SdIdx(seid);
    Remainder(seid, q, p);
  }

  lemma Remainder(a: nat, q: nat, p: nat)
    requires a == q * CAPACITY + p && p < CAPACITY
    ensures a % CAPACITY == p
  {
  }

  /** The position of an entry's id exists as soon as the entry does. */
  lemma IdInside<T>(d: Dir<T>, all: seq<T>, seid: nat)
    requires Spread(d, all) && seid < |all|
    ensures SdIdx(seid) == SoId(seid) < DIR && Position(d, SdIdx(seid), SoIdx(seid), SiIdx(seid), SbIdx(seid))
  {
    PlaceOfId(seid);
    var i, j, k := SoId(seid), SoIdx(seid), SiIdx(seid);
    var si, sj := |d| - 1, |d[|d| - 1]| - 1;
    assert |d[si]| <= OUTER && |d[si][sj]| <= INNER;
    assert (i * OUTER + j) * INNER + k < (si * OUTER + sj) * INNER + |d[si][sj]|;
    assert i * OUTER + j <= si * OUTER + sj;
    assert i <= si;
    if i == si {
      assert j <= sj;
    } else {
      assert |d[i]| == OUTER;
    }
  }

  /** get_slab_entry_by_id finds the entry that was created in the place of the id, modulo the capacity, and leaves the
    pages that exist for any other id. */
  lemma LookupAll<T>(d: Dir<T>, all: seq<T>, seid: nat)
    requires Spread(d, all)
    ensures Position(d, SdIdx(seid), SoIdx(seid), SiIdx(seid), SbIdx(seid)) <==> seid % CAPACITY < |all|
    ensures seid % CAPACITY < |all| ==> d[SdIdx(seid)][SoIdx(seid)][SiIdx(seid)][SbIdx(seid)] == all[seid % CAPACITY]
  {
    hide Spread, Position, Place, SdIdx, SoIdx, SiIdx, SbIdx;
    IdModulo(seid);
    var q, i, j, k, l := seid % CAPACITY, SdIdx(seid), SoIdx(seid), SiIdx(seid), SbIdx(seid);
    IdOfPlace(i, j, k, l);
    if q < |all| {
      IdInside(d, all, q);
      InPosition(d, all, i, j, k, l);
    } else if Position(d, i, j, k, l) {
      InPosition(d, all, i, j, k, l);
    }
  }

  lemma InPosition<T>(d: Dir<T>, all: seq<T>, i: nat, j: nat, k: nat, l: nat)
    requires Spread(d, all) && Position(d, i, j, k, l)
    ensures i < |d| && j < |d[i]| && k < |d[i][j]| && l < |d[i][j][k]| && Place(i, j, k, l) < |all| && d[i][j][k][l] == all[Place(i, j, k, l)]
  {
  }

  /** The last pages of all levels are full exactly if there are as many entries as there can be. */
  lemma FullExact<T>(d: Dir<T>, all: seq<T>)
    requires Spread(d, all)
    ensures |d| > 0 && |LastOuter(d)| > 0 && |all| <= CAPACITY
    ensures |LastInner(d)| == INNER && |LastOuter(d)| == OUTER && |d| == DIR <==> |all| == CAPACITY
  {
    var i, j, k := |d| - 1, |LastOuter(d)| - 1, |LastInner(d)|;
    assert |all| == BUCKET * ((i * OUTER + j) * INNER + k) && i < DIR && j < OUTER && k <= INNER;
  }

  // The loops over the levels, in the order of the positions.

  /** The number of entries before inner page `j` of outer page `i`. */
  function Before<T>(d: Dir<T>, i: nat, j: nat): nat
    requires |d| > 0 && |d[|d| - 1]| > 0
  {
    if i >= |d| || (i == |d| - 1 && j >= |d[i]|) then BUCKET * (if Buckets(d) > 0 then Buckets(d) else 0) else Place(i, j, 0, 0)
  }

  lemma BeforeEnd<T>(d: Dir<T>, all: seq<T>)
    requires Spread(d, all)
    ensures Before(d, |d|, 0) == |all|
  {
  }

  lemma BeforePlace<T>(d: Dir<T>, i: nat, j: nat)
    requires Packed(d) && i < |d| && j < |d[i]|
    ensures Before(d, i, j) == Place(i, j, 0, 0)
  {
  }

  /** After the last bucket of an inner page comes the next inner page. */
  lemma BeforeInner<T>(d: Dir<T>, i: nat, j: nat)
    requires Packed(d) && i < |d| && j < |d[i]|
    ensures Before(d, i, j + 1) == Place(i, j, |d[i][j]|, 0)
  {
  }

  /** After the last inner page of an outer page comes the next outer page. */
  lemma BeforeNext<T>(d: Dir<T>, i: nat)
    requires Packed(d) && i < |d|
    ensures Before(d, i + 1, 0) == Before(d, i, |d[i]|)
  {
  }

  lemma AtPlace<T>(d: Dir<T>, all: seq<T>, i: nat, j: nat, k: nat, l: nat)
    requires Spread(d, all) && i < |d| && j < |d[i]| && k < |d[i][j]| && l < BUCKET
    ensures l < |d[i][j][k]| && Place(i, j, k, l) < |all| && d[i][j][k][l] == all[Place(i, j, k, l)]
  {
  }

  // Growth: a bucket joins the last inner page, a new inner page, or a new inner page of a new outer page.

  function LastOuter<T>(d: Dir<T>): seq<seq<seq<T>>>
    requires |d| > 0
  {
    d[|d| - 1]
  }

  function LastInner<T>(d: Dir<T>): seq<seq<T>>
    requires |d| > 0 && |d[|d| - 1]| > 0
  {
    d[|d| - 1][|d[|d| - 1]| - 1]
  }

  function AddOuter<T>(d: Dir<T>): (r: Dir<T>)
    ensures |r| == |d| + 1
  {
    d + [[]]
  }

  function AddInner<T>(d: Dir<T>): (r: Dir<T>)
    requires |d| > 0
    ensures |r| == |d| && |r[|r| - 1]| > 0
  {
    d[|d| - 1 := LastOuter(d) + [[]]]
  }

  function AddBucket<T>(d: Dir<T>, b: seq<T>): (r: Dir<T>)
    requires |d| > 0 && |d[|d| - 1]| > 0
  {
    d[|d| - 1 := LastOuter(d)[|LastOuter(d)| - 1 := LastInner(d) + [b]]]
  }

  /** The bucket at the end of `d'` is new, and all others are where they were. */
  ghost predicate OneMore<T>(d: Dir<T>, d': Dir<T>, b: seq<T>) {
    && |d'| > 0 && |LastOuter(d')| > 0 && |LastInner(d')| > 0 && LastInner(d')[|LastInner(d')| - 1] == b
    && forall i, j, k :: 0 <= i < |d'| && 0 <= j < |d'[i]| && 0 <= k < |d'[i][j]| ==> LastBucket(d', i, j, k) || (i < |d| && j < |d[i]| && k < |d[i][j]| && d[i][j][k] == d'[i][j][k])
  }

  predicate LastBucket<T>(d: Dir<T>, i: nat, j: nat, k: nat)
    requires i < |d| && j < |d[i]|
  {
    i == |d| - 1 && j == |d[i]| - 1 && k == |d[i][j]| - 1
  }

  lemma Grown<T>(d: Dir<T>, all: seq<T>, b: seq<T>, d': Dir<T>)
    requires Spread(d, all) && |b| == BUCKET && OneMore(d, d', b) && Packed(d') && Buckets(d') == Buckets(d) + 1
    ensures Spread(d', all + b)
  {
    forall i, j, k, l | 0 <= i < |d'| && 0 <= j < |d'[i]| && 0 <= k < |d'[i][j]| && 0 <= l < BUCKET
      ensures Place(i, j, k, l) < |all + b| && d'[i][j][k][l] == (all + b)[Place(i, j, k, l)]
    {
      if LastBucket(d', i, j, k) {
        assert Place(i, j, k, l) == |all| + l;
      } else {
        assert d[i][j][k][l] == all[Place(i, j, k, l)];
      }
    }
  }

  lemma InLastInner<T>(d: Dir<T>, all: seq<T>, b: seq<T>)
    requires Spread(d, all) && |LastInner(d)| < INNER && |b| == BUCKET
    ensures Spread(AddBucket(d, b), all + b)
  {
    hide Spread;
    assert Packed(d) by { PackedOf(d, all); }
    Grown(d, all, b, AddBucket(d, b));
  }

  lemma PackedOf<T>(d: Dir<T>, all: seq<T>)
    requires Spread(d, all)
    ensures Packed(d)
  {
  }

  lemma InNewInner<T>(d: Dir<T>, all: seq<T>, b: seq<T>)
    requires Spread(d, all) && |LastInner(d)| == INNER && |LastOuter(d)| < OUTER && |b| == BUCKET
    ensures Spread(AddBucket(AddInner(d), b), all + b)
  {
    hide Spread;
    assert Packed(d) by { PackedOf(d, all); }
    Grown(d, all, b, AddBucket(AddInner(d), b));
  }

  lemma InNewOuter<T>(d: Dir<T>, all: seq<T>, b: seq<T>)
    requires Spread(d, all) && |LastInner(d)| == INNER && |LastOuter(d)| == OUTER && |d| < DIR && |b| == BUCKET
    ensures Spread(AddBucket(AddInner(AddOuter(d)), b), all + b)
  {
    hide Spread;
    assert Packed(d) by { PackedOf(d, all); }
    Grown(d, all, b, AddBucket(AddInner(AddOuter(d)), b));
  }

  lemma FirstBucket<T>(b: seq<T>)
    requires |b| == BUCKET
    ensures Spread([[[b]]], b)
  {
  }
}
