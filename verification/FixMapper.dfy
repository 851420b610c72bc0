/** The fixed mapper: the free list of container pages, and the file that doubles when it is empty. A page is
  known by its number; `start_addr` plus the page's offset is its address. */
module FixMapper {
  import opened Paging
  import opened Sequences

  function Max(a: nat, b: nat): nat {
    if a < b then b else a
  }

  function From(first: nat, count: nat): (s: seq<nat>)
    ensures |s| == count && forall i :: 0 <= i < count ==> s[i] == first + i
  {
    seq(count, i => first + i)
  }

  lemma InFrom(first: nat, count: nat)
    ensures forall p: nat :: p in From(first, count) <==> first <= p < first + count
  {
    forall p: nat | first <= p < first + count
      ensures p in From(first, count)
    {
      assert From(first, count)[p - first] == p;
    }
  }

  lemma {:induction false} Cardinal(s: set<nat>, n: nat)
    requires forall p: nat :: p < n <==> p in s
    ensures |s| == n
  {
    if n > 0 {
      assert n - 1 in s;
      Cardinal(s - {n - 1}, n - 1);
    } else if p: nat :| p in s {
      assert false;
    }
  }

  class FixedMapper {
    var free: seq<nat>        // free_list, first to last
    var last: int             // free_list.last, or -1
    var size: nat             // free_list.size
    var index: seq<nat>       // the page structures, by page number
    var fileSize: nat
    ghost var live: set<nat>  // handed out and not given back
    ghost var peak: nat       // the largest number of live pages so far
    ghost const initial: nat

    ghost function Pages(): nat
      reads this
    {
      fileSize / PAGE_SIZE
    }

    /** Every page of the file is either free or live, and not both; the file is no larger than its first size or
      twice the largest number of pages that were ever live at once. */
    ghost predicate Valid()
      reads this
    {
      && fileSize % PAGE_SIZE == 0 && fileSize > 0
      && size == |free| && last == (if free == [] then -1 else free[|free| - 1])
      && index == From(0, Pages())
      && Distinct(free) && (forall p: nat :: p in free ==> p !in live)
      && (forall p: nat :: p < Pages() <==> p in free || p in live)
      && |live| <= peak && Pages() <= Max(initial, 2 * peak)
    }

    /** fixed_mapper_init for a new container file of the given size. */
    constructor (bytes: nat)
      requires bytes > 0 && bytes % PAGE_SIZE == 0
      ensures Valid() && live == {} && free == From(0, bytes / PAGE_SIZE) && fileSize == bytes
      ensures initial == bytes / PAGE_SIZE && peak == 0
    {
      free, last, size, index, fileSize := [], -1, 0, [], 0;
      live, peak, initial := {}, 0, bytes / PAGE_SIZE;
      new;
      InFrom(0, bytes / PAGE_SIZE);
      Grow(bytes);
    }

    /** fixed_mapper_grow_file: the new pages join the free list in order. */
    method Grow(bytes: nat)
      requires bytes % PAGE_SIZE == 0 && bytes > fileSize && fileSize % PAGE_SIZE == 0
      requires free == [] && size == 0 && index == From(0, Pages())
      modifies this`free, this`last, this`size, this`index, this`fileSize
      ensures fileSize == bytes && index == From(0, Pages()) && size == |free|
      ensures free == From(old(Pages()), Pages() - old(Pages())) && last == Pages() - 1
    {
      var current, pages := fileSize / PAGE_SIZE, bytes / PAGE_SIZE;
      index := index + [current];
      free, last, size := [current], current, 1;
      current := current + 1;
      var i := current;
      while i < pages
        invariant current <= i <= pages && index == From(0, i)
        invariant free == From(current - 1, i - current + 1) && last == i - 1 && size == |free|
      {
        index := index + [i];
        free := free + [i];
        size := size + 1;
        last := i;
        i := i + 1;
      }
      fileSize := bytes;
    }

    /** The file doubles. Every page was live, so twice the peak is at least the new size once a page is taken. */
    method Double()
      requires Valid() && free == []
      modifies this`free, this`last, this`size, this`index, this`fileSize
      ensures fileSize == 2 * old(fileSize) && Pages() == 2 * old(Pages()) && old(Pages()) == |live| > 0
      ensures index == From(0, Pages()) && size == |free| && free == From(old(Pages()), old(Pages()))
      ensures last == free[|free| - 1] && Distinct(free) && forall p: nat :: p in free ==> p !in live
      ensures forall p: nat :: p < Pages() <==> p in free || p in live
    {
      ghost var n := Pages();
      assert forall p: nat :: p < n <==> p in live by { assert forall p: nat :: p !in free; }
      Cardinal(live, n);
      Grow(fileSize * 2);
      InFrom(n, n);
    }

    /** fixed_mapper_alloc_page: the page that has been free longest; the file doubles when there is none. */
    method AllocPage() returns (laddr: nat)
      requires Valid()
      modifies this
      ensures Valid() && laddr % PAGE_SIZE == 0 && laddr / PAGE_SIZE !in old(live)
      ensures live == old(live) + {laddr / PAGE_SIZE} && peak == Max(old(peak), |live|)
      ensures old(free) != [] ==> laddr / PAGE_SIZE == old(free)[0] && free == old(free)[1..] && fileSize == old(fileSize)
      ensures old(free) == [] ==> laddr / PAGE_SIZE == old(Pages()) && fileSize == 2 * old(fileSize)
      ensures old(free) == [] ==> free == From(old(Pages()), old(Pages()))[1..]
    {
      if size == 0 {
        Double();
      }
      var p := Take();
      laddr := p * PAGE_SIZE;
    }

    method Take() returns (p: nat)
      requires fileSize % PAGE_SIZE == 0 && fileSize > 0 && index == From(0, Pages())
      requires size == |free| > 0 && last == free[|free| - 1]
      requires Distinct(free) && (forall p: nat :: p in free ==> p !in live)
      requires forall p: nat :: p < Pages() <==> p in free || p in live
      requires |live| <= peak && (Pages() <= Max(initial, 2 * peak) || Pages() == 2 * |live|)
      modifies this`free, this`last, this`size, this`live, this`peak
      ensures Valid() && p == old(free)[0] && free == old(free)[1..]
      ensures p !in old(live) && live == old(live) + {p} && peak == Max(old(peak), |live|)
    {
      p := free[0];
      free := free[1..];
      size := size - 1;
      if size == 0 {
        last := -1;
      }
      live := live + {p};
      peak := Max(peak, |live|);
    }

    /** fixed_mapper_freepages: the page goes to the end of the free list. */
    method FreePages(laddr: nat)
      requires Valid() && laddr % PAGE_SIZE == 0 && laddr / PAGE_SIZE in live
      modifies this
      ensures Valid() && live == old(live) - {laddr / PAGE_SIZE} && free == old(free) + [laddr / PAGE_SIZE]
      ensures fileSize == old(fileSize) && peak == old(peak)
    {
      var p := index[laddr / PAGE_SIZE];
      free := free + [p];
      last := p;
      size := size + 1;
      live := live - {p};
    }
  }

  /** fixed_mapper_freepages does not look whether the page is in use. The free list stays one exactly if it is: a
    page that is free already would be in it twice. */
  lemma FreeExact(free: seq<nat>, live: set<nat>, pages: nat, p: nat)
    requires Distinct(free) && (forall q: nat :: q in free ==> q !in live)
    requires (forall q: nat :: q < pages <==> q in free || q in live) && p < pages
    ensures Distinct(free + [p]) <==> p in live
  {
    if p in free {
      var i :| 0 <= i < |free| && free[i] == p;
      assert (free + [p])[i] == (free + [p])[|free|];
    }
  }

  // The links of the free list. LIST_INSERT_AFTER gives the page the next of the last page, and the last page this
  // page as its next.

  function InsertAfter(next: map<nat, nat>, last: nat, p: nat): map<nat, nat> {
    (if last in next then next[p := next[last]] else next - {p})[last := p]
  }

  ghost predicate Threaded(next: map<nat, nat>, f: seq<nat>) {
    && f != [] && f[|f| - 1] !in next
    && forall i :: 0 <= i < |f| - 1 ==> f[i] in next && next[f[i]] == f[i + 1]
  }

  /** A page that is not listed becomes the last one. A page that is listed becomes the last one where it is, and the
    pages after it are lost, except that the last page becomes its own successor. */
  lemma InsertExact(next: map<nat, nat>, f: seq<nat>, p: nat)
    requires Threaded(next, f) && Distinct(f)
    ensures var next' := InsertAfter(next, f[|f| - 1], p);
      && (p !in f ==> Threaded(next', f + [p]))
      && (forall i :: 0 <= i < |f| - 1 && f[i] == p ==> Threaded(next', f[..i + 1]))
      && (p == f[|f| - 1] ==> p in next' && next'[p] == p)
  {
    var last := f[|f| - 1];
    forall i | 0 <= i < |f| - 1 ensures f[i] != last {
      assert f[i] != f[|f| - 1];
    }
    if p !in f {
      assert forall i | 0 <= i < |f| :: (f + [p])[i] == f[i];
    }
    forall i | 0 <= i < |f| - 1 && f[i] == p ensures Threaded(InsertAfter(next, last, p), f[..i + 1]) {
      assert forall k | 0 <= k < i :: f[k] != f[i];
    }
  }

  datatype Request = Alloc | Free(laddr: nat)

  /** Any run of allocations and frees. A free of a page that is not live is no request of the library. */
  method Run(m: FixedMapper, requests: seq<Request>)
    requires m.Valid()
    modifies m
    ensures m.Valid() && m.Pages() <= Max(m.initial, 2 * m.peak)
    ensures forall p: nat :: p < m.Pages() <==> (p in m.free) != (p in m.live)
  {
    var i := 0;
    while i < |requests|
      invariant 0 <= i <= |requests| && m.Valid()
      decreases |requests| - i
    {
      match requests[i] {
        case Alloc =>
          var laddr := m.AllocPage();
        case Free(laddr) =>
          if laddr % PAGE_SIZE == 0 && laddr < m.fileSize && laddr / PAGE_SIZE !in m.free {
            m.FreePages(laddr);
          }
      }
      i := i + 1;
    }
  }
}
