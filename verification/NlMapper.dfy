/** The nonlinear mapper: pages are known by where they are mapped, and two pages in use can swap the parts of the
  file that they are mapped to. Page `i` is the one mapped `i` pages after `start_addr`. */
module NlMapper {
  import opened Paging
  import opened Sequences
  import opened FixMapper

  /** Every page of the file is the offset of exactly one mapped page. */
  ghost predicate Permutation(s: seq<nat>) {
    (forall i :: 0 <= i < |s| ==> s[i] < |s|) && Distinct(s)
  }

  /** Distinct values below their number leave none out. */
  lemma Onto(s: seq<nat>, v: nat)
    requires Permutation(s) && v < |s|
    ensures v in s
  {
    DistinctSize(s, |s|);
    BelowIs(|s|);
    assert s[..|s|] == s;
    if v !in s {
      assert Values(s, |s|) <= Below(|s|) - {v};
      Smaller(Values(s, |s|), Below(|s|) - {v});
    }
  }

  ghost function Values(s: seq<nat>, n: nat): (r: set<nat>)
    requires n <= |s|
    ensures forall x: nat :: x in r <==> x in s[..n]
  {
    if n == 0 then {} else assert s[..n] == s[..n - 1] + [s[n - 1]]; Values(s, n - 1) + {s[n - 1]}
  }

  ghost function Below(n: nat): (r: set<nat>)
    ensures forall x: nat :: x in r <==> x < n
  {
    if n == 0 then {} else Below(n - 1) + {n - 1}
  }

  lemma BelowIs(n: nat)
    ensures |Below(n)| == n
  {
    Cardinal(Below(n), n);
  }

  lemma {:induction false} DistinctSize(s: seq<nat>, n: nat)
    requires Distinct(s) && n <= |s|
    ensures |Values(s, n)| == n
  {
    if n > 0 {
      DistinctSize(s, n - 1);
      assert s[n - 1] !in s[..n - 1];
    }
  }

  lemma {:induction false} Smaller(a: set<nat>, b: set<nat>)
    requires a <= b
    ensures |a| <= |b|
  {
    if a != {} {
      var x :| x in a;
      Smaller(a - {x}, b - {x});
    }
  }

  datatype Freed = Done | OutsideMap | NotFound

  class Nlm {
    var freeList: seq<nat>     // first to last
    var freeSize: nat
    var last: int              // or -1
    var inUse: set<nat>        // the tree of pages in use, by address
    var pgcnt: nat
    var fileSize: nat
    var prevSize: nat
    var pgoff: seq<nat>        // of each page, in pages
    var nonlinear: seq<bool>   // is_nonlinear of each page
    var isFree: seq<bool>      // page status

    ghost predicate Valid()
      reads this
    {
      && fileSize % PAGE_SIZE == 0 && pgcnt == fileSize / PAGE_SIZE == |pgoff| == |nonlinear| == |isFree| > 0
      && Lists()
      && Permutation(pgoff) && (forall p :: 0 <= p < pgcnt ==> (nonlinear[p] <==> pgoff[p] != p))
    }

    /** Each page is in exactly one of the free list and the tree. */
    ghost predicate Lists()
      reads this
    {
      && |isFree| == pgcnt && freeSize == |freeList| && last == (if freeList == [] then -1 else freeList[|freeList| - 1])
      && Distinct(freeList) && (forall p: nat :: p in freeList ==> p !in inUse)
      && (forall p: nat :: p < pgcnt <==> p in freeList || p in inUse)
      && (forall p :: 0 <= p < pgcnt ==> (isFree[p] <==> p in freeList))
    }

    /** nlm_init */
    constructor (bytes: nat)
      requires bytes > 0 && bytes % PAGE_SIZE == 0
      ensures Valid() && inUse == {} && fileSize == bytes && freeList == From(0, bytes / PAGE_SIZE) && pgoff == From(0, bytes / PAGE_SIZE)
    {
      freeList, freeSize, last, inUse, pgcnt := [], 0, -1, {}, 0;
      fileSize, prevSize, pgoff, nonlinear, isFree := bytes, 0, [], [], [];
      new;
      AddPages();
    }

    /** __nlm_free_page of a page that is not in the tree any more. */
    method ToFreeList(p: nat)
      requires p < |isFree| && freeSize == |freeList| && last == (if freeList == [] then -1 else freeList[|freeList| - 1])
      modifies `freeList, `freeSize, `last, `isFree
      ensures freeList == old(freeList) + [p] && freeSize == |freeList| && last == p && isFree == old(isFree)[p := true]
    {
      freeList := freeList + [p];
      last := p;
      freeSize := freeSize + 1;
      isFree := isFree[p := true];
    }

    /** add_pages_to_free_list: the pages by which the file has grown, each at its own offset. */
    method AddPages()
      requires prevSize % PAGE_SIZE == 0 && fileSize % PAGE_SIZE == 0 && fileSize > prevSize
      requires pgcnt == prevSize / PAGE_SIZE == |pgoff| == |nonlinear| && Lists() && freeList == []
      requires Permutation(pgoff) && (forall p :: 0 <= p < pgcnt ==> (nonlinear[p] <==> pgoff[p] != p))
      modifies `freeList, `freeSize, `last, `isFree, `pgoff, `nonlinear, `pgcnt
      ensures Valid() && freeList == From(old(pgcnt), pgcnt - old(pgcnt))
      ensures pgoff == old(pgoff) + From(old(pgcnt), pgcnt - old(pgcnt))
    {
      var pgs, i := (fileSize - prevSize) / PAGE_SIZE, 0;
      ghost var n0 := pgcnt;
      while i < pgs
        invariant 0 <= i <= pgs && pgcnt == n0 + i == |pgoff| == |nonlinear| && Lists()
        invariant freeList == From(n0, i) && pgoff == old(pgoff) + From(n0, i)
        invariant forall p :: 0 <= p < pgcnt ==> (nonlinear[p] <==> pgoff[p] != p)
      {
        AddPage(n0, i);
        i := i + 1;
      }
      Extended(old(pgoff), i);
    }

    method AddPage(ghost n0: nat, ghost i: nat)
      requires pgcnt == n0 + i == |pgoff| == |nonlinear| && Lists() && freeList == From(n0, i)
      requires forall p :: 0 <= p < pgcnt ==> (nonlinear[p] <==> pgoff[p] != p)
      modifies `freeList, `freeSize, `last, `isFree, `pgoff, `nonlinear, `pgcnt
      ensures pgcnt == old(pgcnt) + 1 == |pgoff| == |nonlinear| && Lists() && freeList == From(n0, i + 1)
      ensures pgoff == old(pgoff) + [old(pgcnt)] && forall p :: 0 <= p < pgcnt ==> (nonlinear[p] <==> pgoff[p] != p)
    {
      InFrom(n0, i);
      InFrom(n0, i + 1);
      pgoff, nonlinear, isFree := pgoff + [pgcnt], nonlinear + [false], isFree + [false];
      pgcnt := pgcnt + 1;
      ToFreeList(pgcnt - 1);
    }

    /** nlm_alloc_page: the page that has been free longest, and its part of the file. */
    method AllocPage() returns (p: nat, laddr: nat)
      requires Valid()
      modifies this
      ensures Valid() && p !in old(inUse) && inUse == old(inUse) + {p} && p < |pgoff| && laddr == pgoff[p] * PAGE_SIZE
      ensures old(freeList) != [] ==> p == old(freeList)[0] && freeList == old(freeList)[1..] && pgoff == old(pgoff) && fileSize == old(fileSize)
      ensures old(freeList) == [] ==> p == old(pgcnt) && pgoff == old(pgoff) + From(old(pgcnt), old(pgcnt)) && fileSize == 2 * old(fileSize)
    {
      if freeSize == 0 {
        prevSize := fileSize;
        fileSize := fileSize * 2;
        AddPages();
      }
      p := freeList[0];
      Use(p);
      laddr := pgoff[p] * PAGE_SIZE;
    }

    /** __nlm_use_page */
    method Use(p: nat)
      requires Valid() && freeList != [] && p == freeList[0]
      modifies `freeList, `freeSize, `last, `isFree, `inUse
      ensures Valid() && inUse == old(inUse) + {p} && freeList == old(freeList)[1..]
    {
      assert p in freeList;
      assert isFree[p];
      freeList := freeList[1..];
      freeSize := freeSize - 1;
      if freeSize == 0 {
        last := -1;
      }
      inUse := inUse + {p};
      isFree := isFree[p := false];
    }

    /** nlm_free_pages, for the page at offset `off` from start_addr. */
    method FreePages(off: int) returns (r: Freed)
      requires Valid()
      modifies this
      ensures Valid() && r == if off >= 0 && off / PAGE_SIZE in old(inUse) then Done else if off < 0 || off >= fileSize then OutsideMap else NotFound
      ensures r == Done ==> inUse == old(inUse) - {off / PAGE_SIZE} && freeList == old(freeList) + [off / PAGE_SIZE]
      ensures r != Done ==> inUse == old(inUse) && freeList == old(freeList)
      ensures pgoff == old(pgoff) && fileSize == old(fileSize)
    {
      if off >= 0 && off / PAGE_SIZE in inUse {
        var p := off / PAGE_SIZE;
        assert !isFree[p];
        inUse := inUse - {p};
        ToFreeList(p);
        r := Done;
      } else if off < 0 || off >= fileSize {
        r := OutsideMap;
      } else {
        r := NotFound;
      }
    }

    /** update_swapped_pages */
    method Swap(x: nat, y: nat)
      requires Valid()
      modifies `pgoff, `nonlinear
      ensures Valid()
      ensures pgoff == if x in inUse && y in inUse then old(pgoff)[x := old(pgoff)[y]][y := old(pgoff)[x]] else old(pgoff)
    {
      if x in inUse {
        if y in inUse {
          pgoff := pgoff[x := pgoff[y]][y := pgoff[x]];
          nonlinear := nonlinear[x := pgoff[x] != x];
          nonlinear := nonlinear[y := pgoff[y] != y];
        }
      }
    }

    /** nlm_close: all pages are found, in the tree or in the free list. */
    method Close()
      requires Valid()
      modifies this
      ensures pgcnt == 0 && inUse == {} && freeList == []
    {
      assert pgcnt == fileSize / PAGE_SIZE;
      AllPages();
      while inUse != {}
        invariant pgcnt == |inUse| + |freeList| && freeSize == |freeList| && freeList == old(freeList) && isFree == old(isFree) && inUse <= old(inUse)
        decreases |inUse|
      {
        var p :| p in inUse;
        inUse := inUse - {p};
        pgcnt := pgcnt - 1;
      }
      while freeSize > 0
        invariant pgcnt == |freeList| == freeSize && inUse == {}
        decreases freeSize
      {
        freeList := freeList[1..];
        freeSize := freeSize - 1;
        pgcnt := pgcnt - 1;
      }
      assert pgcnt == 0;
    }

    lemma AllPages()
      requires Lists()
      ensures pgcnt == |inUse| + |freeList|
    {
      var free := Values(freeList, |freeList|);
      DistinctSize(freeList, |freeList|);
      assert freeList[..|freeList|] == freeList;
      assert free !! inUse;
      assert forall p: nat :: p < pgcnt <==> p in free + inUse;
      Cardinal(free + inUse, pgcnt);
    }
  }

  lemma Extended(s: seq<nat>, n: nat)
    requires Permutation(s)
    ensures Permutation(s + From(|s|, n))
  {
  }
}
