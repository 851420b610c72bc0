/** Closure: every registered volatile allocation that is reachable from a persistent pointer moves into the
  container, and the pointers are rewritten.

  Memory is word-addressed: an address names one word, and a word holds data or the address it points
  to. Freed words leave the domain of the memory map, so every access is also proved to be to live memory. */
module Closure {
  import opened Sequences

  const NULL := 0

  /** struct mallocat_entry. `paddr` is NULL until the allocation has moved; `ptrs` are the registered
    pointer locations inside it. */
  datatype Entry = Entry(addr: int, size: nat, paddr: int, ptrs: seq<int>)

  predicate Contains(e: Entry, a: int) {
    e.addr <= a < e.addr + e.size
  }

  /** SPLAY_FIND with mallocat_entry_cpm, on entries whose ranges do not overlap: the index of the one that
    contains the address, or -1. */
  function Find(es: seq<Entry>, a: int): (i: int)
    ensures i == -1 || 0 <= i < |es|
    ensures i >= 0 ==> Contains(es[i], a)
    ensures i == -1 ==> forall j :: 0 <= j < |es| ==> !Contains(es[j], a)
  {
    if es == [] then -1
    else if Contains(es[|es| - 1], a) then |es| - 1
    else Find(es[..|es| - 1], a)
  }

  /** PTR_REBASE. */
  function Rebase(base: int, p: int, newbase: int): int {
    newbase + (p - base)
  }

  // What is given: the registered allocations, where the container will put them, the initial memory, the
  // persistent pointer locations, and the locations that stay in the hash table after classification.

  datatype World = World(es: seq<Entry>, place: seq<int>, mem: map<int, int>, roots: seq<int>, regs: set<int>)

  ghost predicate RangesApart(a: int, n: nat, b: int, m: nat) {
    a + n <= b || b + m <= a
  }

  /** Disjoint non-empty live allocations, and container memory for each that overlaps nothing. */
  ghost predicate Sane(w: World) {
    && |w.place| == |w.es|
    && (forall i :: 0 <= i < |w.es| ==> w.es[i].size > 0 && w.es[i].addr > NULL && w.place[i] > NULL && w.es[i].paddr == NULL)
    && (forall i, j :: 0 <= i < j < |w.es| ==> RangesApart(w.es[i].addr, w.es[i].size, w.es[j].addr, w.es[j].size))
    && (forall i, j :: 0 <= i < j < |w.es| ==> RangesApart(w.place[i], w.es[i].size, w.place[j], w.es[j].size))
    && (forall i, j :: 0 <= i < |w.es| && 0 <= j < |w.es| ==> RangesApart(w.place[i], w.es[i].size, w.es[j].addr, w.es[j].size))
    && (forall i, a :: 0 <= i < |w.es| && w.es[i].addr <= a < w.es[i].addr + w.es[i].size ==> a in w.mem)
    && (forall i, a :: 0 <= i < |w.es| && w.place[i] <= a < w.place[i] + w.es[i].size ==> a !in w.mem)
  }

  /** Pointer locations have been classified: each one inside an allocation is listed there, once; the roots
    are live words outside all allocations. */
  ghost predicate Classified(w: World) {
    && Distinct(w.roots)
    && (forall l <- w.roots :: l in w.mem && Find(w.es, l) == -1 && l !in w.regs)
    && (forall i :: 0 <= i < |w.es| ==> Distinct(w.es[i].ptrs) && forall l <- w.es[i].ptrs :: Contains(w.es[i], l))
    && (forall l <- w.regs :: l in w.mem && (Find(w.es, l) >= 0 ==> l in w.es[Find(w.es, l)].ptrs))
  }

  /** Where an address goes when its allocation moves. */
  function Rho(w: World, a: int): int
    requires |w.place| == |w.es|
  {
    var i := Find(w.es, a);
    if i == -1 then a else Rebase(w.es[i].addr, a, w.place[i])
  }

  /** Where the word that started out at `a` is, once the allocations in `moved` have moved. */
  function Cur(w: World, moved: set<int>, a: int): int
    requires |w.place| == |w.es|
  {
    if Find(w.es, a) in moved then Rho(w, a) else a
  }

  lemma FindUnique(w: World, i: int, a: int)
    requires Sane(w) && 0 <= i < |w.es| && Contains(w.es[i], a)
    ensures Find(w.es, a) == i
  {
  }

  lemma RhoRange(w: World, a: int)
    requires Sane(w) && Find(w.es, a) >= 0
    ensures var i := Find(w.es, a); w.place[i] <= Rho(w, a) < w.place[i] + w.es[i].size
    ensures Rho(w, a) !in w.mem && Find(w.es, Rho(w, a)) == -1
  {
  }

  lemma CurInjective(w: World, moved: set<int>, a: int, b: int)
    requires Sane(w) && a in w.mem && b in w.mem && a != b && -1 !in moved
    ensures Cur(w, moved, a) != Cur(w, moved, b)
  {
    var i, j := Find(w.es, a), Find(w.es, b);
    if i in moved { RhoRange(w, a); }
    if j in moved { RhoRange(w, b); }
  }

  // What is reachable.

  /** The word at `l` points into a registered allocation. */
  predicate Enters(w: World, l: int) {
    l in w.mem && Find(w.es, w.mem[l]) >= 0
  }

  /** A set of allocations that holds the targets of all roots and of all pointers inside its members. */
  ghost predicate Closed(w: World, c: set<int>) {
    && (forall l <- w.roots :: Enters(w, l) ==> Find(w.es, w.mem[l]) in c)
    && (forall i, l | i in c && 0 <= i < |w.es| && l in w.es[i].ptrs :: Enters(w, l) ==> Find(w.es, w.mem[l]) in c)
  }

  // The invariant of the worklist.

  /** `orig` lists the original locations of the pointers in the worklist `vec`; the first `n` are done. */
  ghost predicate Listed(w: World, moved: set<int>, vec: seq<int>, orig: seq<int>, n: nat) {
    && |w.place| == |w.es| && |vec| == |orig| && n <= |vec| && w.roots <= orig && Distinct(orig)
    && (forall i <- moved :: 0 <= i < |w.es|)
    && (forall k :: 0 <= k < |orig| ==> Source(w, moved, orig[k]))
    && (forall k :: 0 <= k < |vec| ==> vec[k] == Rho(w, orig[k]))
    && (forall i, l | i in moved && l in w.es[i].ptrs :: l in orig)
    && (forall k :: 0 <= k < n && Enters(w, orig[k]) ==> Find(w.es, w.mem[orig[k]]) in moved)
  }

  /** A pointer location that belongs in the worklist: a root, or a pointer of an allocation that has moved. */
  ghost predicate Source(w: World, moved: set<int>, l: int) {
    && l in w.mem
    && var i := Find(w.es, l);
      if i == -1 then l in w.roots else i in moved && l in w.es[i].ptrs
  }

  /** The word is at its current place, rewritten exactly if it is a pointer that has been done. */
  ghost predicate Kept(w: World, moved: set<int>, mem: map<int, int>, done: seq<int>, a: int)
    requires |w.place| == |w.es| && a in w.mem
  {
    Cur(w, moved, a) in mem && mem[Cur(w, moved, a)] == if a in done then Rho(w, w.mem[a]) else w.mem[a]
  }

  /** Every original word is kept, and none is left where an allocation moved away. */
  ghost predicate Tracked(w: World, moved: set<int>, mem: map<int, int>, done: seq<int>) {
    && |w.place| == |w.es|
    && (forall a <- w.mem :: Kept(w, moved, mem, done, a))
    && (forall b <- mem :: Find(w.es, b) !in moved)
  }

  ghost predicate EntriesMatch(w: World, moved: set<int>, entries: seq<Entry>) {
    && |w.place| == |w.es| == |entries|
    && forall i :: 0 <= i < |entries| ==>
      entries[i] == w.es[i].(paddr := if i in moved then w.place[i] else NULL)
  }

  lemma {:induction false} FindSame(es: seq<Entry>, es': seq<Entry>, a: int)
    requires |es| == |es'| && forall i :: 0 <= i < |es| ==> es[i].addr == es'[i].addr && es[i].size == es'[i].size
    ensures Find(es, a) == Find(es', a)
  {
    if es != [] && !Contains(es[|es| - 1], a) { FindSame(es[..|es| - 1], es'[..|es| - 1], a); }
  }

  // pmemcpy and free.

  function Range(a: int, n: nat): (r: set<int>)
    ensures forall x :: x in r <==> a <= x < a + n
  {
    if n == 0 then {} else Range(a, n - 1) + {a + n - 1}
  }

  /** The memory after the `n` words at `src` have been copied to `dst` and freed. */
  function Moved(mem: map<int, int>, src: int, dst: int, n: nat): map<int, int>
    requires Range(src, n) <= mem.Keys
  {
    (mem + map x | x in Range(dst, n) :: mem[src + (x - dst)]) - Range(src, n)
  }

  lemma MovedAt(mem: map<int, int>, src: int, dst: int, n: nat, x: int)
    requires Range(src, n) <= mem.Keys && RangesApart(dst, n, src, n)
    ensures var mem' := Moved(mem, src, dst, n);
      && (x in mem' <==> x in Range(dst, n) || (x in mem && x !in Range(src, n)))
      && (x in Range(dst, n) ==> mem'[x] == mem[src + (x - dst)])
      && (x in mem' && x !in Range(dst, n) ==> mem'[x] == mem[x])
  {
    assert Range(dst, n) !! Range(src, n);
  }

  function Rebased(ptrs: seq<int>, base: int, newbase: int): seq<int> {
    seq(|ptrs|, k requires 0 <= k < |ptrs| => Rebase(base, ptrs[k], newbase))
  }

  /** A word of another allocation, or of none, is neither where allocation `i` was nor where it goes. */
  lemma StaysClear(w: World, moved: set<int>, i: int, a: int)
    requires Sane(w) && 0 <= i < |w.es| && a in w.mem && Find(w.es, a) != i && -1 !in moved
    ensures var b := Cur(w, moved, a); b !in Range(w.es[i].addr, w.es[i].size) && b !in Range(w.place[i], w.es[i].size)
  {
    var j := Find(w.es, a);
    if j in moved { RhoRange(w, a); }
  }

  lemma RangeLive(w: World, moved: set<int>, mem: map<int, int>, done: seq<int>, i: int)
    requires Sane(w) && Tracked(w, moved, mem, done) && 0 <= i < |w.es| && i !in moved
    requires forall a <- done :: Find(w.es, a) != i
    ensures forall x <- Range(w.es[i].addr, w.es[i].size) :: x in mem && x in w.mem && mem[x] == w.mem[x]
  {
    forall x | x in Range(w.es[i].addr, w.es[i].size) ensures x in mem && x in w.mem && mem[x] == w.mem[x] {
      FindUnique(w, i, x);
      assert x in w.mem && Kept(w, moved, mem, done, x);
    }
  }

  /** Moving an allocation: a word inside. */
  lemma MoveInside(w: World, moved: set<int>, mem: map<int, int>, done: seq<int>, i: int, a: int)
    requires Sane(w) && 0 <= i < |w.es| && i !in moved && a in w.mem && Kept(w, moved, mem, done, a)
    requires Find(w.es, a) == i && a !in done
    requires Range(w.es[i].addr, w.es[i].size) <= mem.Keys
    ensures Kept(w, moved + {i}, Moved(mem, w.es[i].addr, w.place[i], w.es[i].size), done, a)
  {
    RhoRange(w, a);
    MovedAt(mem, w.es[i].addr, w.place[i], w.es[i].size, Rho(w, a));
  }

  /** Moving an allocation: a word elsewhere. */
  lemma MoveOutside(w: World, moved: set<int>, mem: map<int, int>, done: seq<int>, i: int, a: int)
    requires Sane(w) && 0 <= i < |w.es| && -1 !in moved && a in w.mem && Kept(w, moved, mem, done, a)
    requires Find(w.es, a) != i
    requires Range(w.es[i].addr, w.es[i].size) <= mem.Keys
    ensures Kept(w, moved + {i}, Moved(mem, w.es[i].addr, w.place[i], w.es[i].size), done, a)
  {
    StaysClear(w, moved, i, a);
    MovedAt(mem, w.es[i].addr, w.place[i], w.es[i].size, Cur(w, moved, a));
  }

  /** Moving an allocation: nothing is left behind. */
  lemma MoveAway(w: World, moved: set<int>, mem: map<int, int>, i: int, b: int)
    requires Sane(w) && -1 !in moved && 0 <= i < |w.es|
    requires forall x <- mem :: Find(w.es, x) !in moved
    requires Range(w.es[i].addr, w.es[i].size) <= mem.Keys
    requires b in Moved(mem, w.es[i].addr, w.place[i], w.es[i].size)
    ensures Find(w.es, b) !in moved + {i}
  {
    MovedAt(mem, w.es[i].addr, w.place[i], w.es[i].size, b);
    hide Sane, Moved;
    if b in Range(w.place[i], w.es[i].size) {
      PlaceOutside(w, i, b);
    }
  }

  lemma PlaceOutside(w: World, i: int, b: int)
    requires Sane(w) && 0 <= i < |w.es| && w.place[i] <= b < w.place[i] + w.es[i].size
    ensures Find(w.es, b) == -1
  {
  }

  /** Moving an allocation keeps track of every word. */
  lemma MoveTracked(w: World, moved: set<int>, mem: map<int, int>, done: seq<int>, i: int)
    requires Sane(w) && Tracked(w, moved, mem, done) && -1 !in moved && 0 <= i < |w.es| && i !in moved
    requires forall a <- done :: Find(w.es, a) != i
    ensures Range(w.es[i].addr, w.es[i].size) <= mem.Keys
    ensures Tracked(w, moved + {i}, Moved(mem, w.es[i].addr, w.place[i], w.es[i].size), done)
  {
    RangeLive(w, moved, mem, done, i);
    var mem' := Moved(mem, w.es[i].addr, w.place[i], w.es[i].size);
    forall a | a in w.mem ensures Kept(w, moved + {i}, mem', done, a) {
      if Find(w.es, a) == i {
        MoveInside(w, moved, mem, done, i, a);
      } else {
        MoveOutside(w, moved, mem, done, i, a);
      }
    }
    forall b | b in mem' ensures Find(w.es, b) !in moved + {i} {
      MoveAway(w, moved, mem, i, b);
    }
  }

  /** Rewriting one pointer. */
  lemma RewriteTracked(w: World, moved: set<int>, mem: map<int, int>, done: seq<int>, o: int)
    requires Sane(w) && Tracked(w, moved, mem, done) && -1 !in moved && o in w.mem && o !in done
    ensures Tracked(w, moved, mem[Cur(w, moved, o) := Rho(w, w.mem[o])], done + [o])
  {
    var mem' := mem[Cur(w, moved, o) := Rho(w, w.mem[o])];
    forall a | a in w.mem ensures Kept(w, moved, mem', done + [o], a) {
      assert Kept(w, moved, mem, done, a);
      if a != o { CurInjective(w, moved, a, o); }
    }
    assert Kept(w, moved, mem, done, o);
    forall b | b in mem' ensures Find(w.es, b) !in moved {
      assert b in mem;
    }
  }

  /** Moving an allocation appends its pointers to the worklist, where they are now. */
  lemma MoveListed(w: World, moved: set<int>, vec: seq<int>, orig: seq<int>, n: nat, i: int)
    requires Sane(w) && Classified(w) && Listed(w, moved, vec, orig, n) && 0 <= i < |w.es| && i !in moved && -1 !in moved
    ensures var e := w.es[i];
      Listed(w, moved + {i}, vec + Rebased(e.ptrs, e.addr, w.place[i]), orig + e.ptrs, n)
  {
    var e := w.es[i];
    var vec', orig' := vec + Rebased(e.ptrs, e.addr, w.place[i]), orig + e.ptrs;
    forall l | l in e.ptrs ensures l in w.mem && Find(w.es, l) == i {
      FindUnique(w, i, l);
    }
    forall k | 0 <= k < |orig'| ensures Source(w, moved + {i}, orig'[k]) && vec'[k] == Rho(w, orig'[k]) {
      if k < |orig| {
        assert orig'[k] == orig[k] && vec'[k] == vec[k];
      } else {
        assert orig'[k] == e.ptrs[k - |orig|] && vec'[k] == Rebase(e.addr, e.ptrs[k - |orig|], w.place[i]);
      }
    }
    MoveNoDup(w, moved, orig, i);
    forall j, l | j in moved + {i} && l in w.es[j].ptrs ensures l in orig' {
      if j != i { assert l in orig; }
    }
    assert w.roots <= orig';
  }

  lemma MoveNoDup(w: World, moved: set<int>, orig: seq<int>, i: int)
    requires Distinct(orig) && 0 <= i < |w.es| && Distinct(w.es[i].ptrs) && i !in moved && i != -1
    requires forall k :: 0 <= k < |orig| ==> Source(w, moved, orig[k])
    requires forall l <- w.es[i].ptrs :: Find(w.es, l) == i
    ensures Distinct(orig + w.es[i].ptrs)
  {
    forall k, l | 0 <= k < |orig| && 0 <= l < |w.es[i].ptrs| ensures orig[k] != w.es[i].ptrs[l] {
      assert Source(w, moved, orig[k]);
    }
  }

  /** A pointer that has been done enters only allocations that have moved. */
  lemma NextListed(w: World, moved: set<int>, vec: seq<int>, orig: seq<int>, n: nat)
    requires Listed(w, moved, vec, orig, n) && n < |vec|
    requires Enters(w, orig[n]) ==> Find(w.es, w.mem[orig[n]]) in moved
    ensures Listed(w, moved, vec, orig, n + 1)
  {
  }

  /** Only what is reachable moves. */
  lemma Reachable(w: World, moved: set<int>, c: set<int>, l: int)
    requires Closed(w, c) && moved <= c && Source(w, moved, l) && Enters(w, l) && forall i <- moved :: 0 <= i < |w.es|
    ensures Find(w.es, w.mem[l]) in c
  {
  }

  /** When every pointer is done, the allocations moved are closed. */
  lemma ListedClosed(w: World, moved: set<int>, vec: seq<int>, orig: seq<int>)
    requires Listed(w, moved, vec, orig, |vec|)
    ensures Closed(w, moved)
  {
    forall l | l in w.roots && Enters(w, l) ensures Find(w.es, w.mem[l]) in moved {
      var k :| 0 <= k < |w.roots| && w.roots[k] == l;
      assert orig[k] == l;
    }
    forall i, l | i in moved && 0 <= i < |w.es| && l in w.es[i].ptrs && Enters(w, l) ensures Find(w.es, w.mem[l]) in moved {
      assert l in orig;
      var k :| 0 <= k < |orig| && orig[k] == l;
    }
  }

  function Elements(s: seq<int>): set<int> {
    set l | l in s
  }

  function Total(es: seq<Entry>, moved: set<int>): nat {
    if es == [] then 0
    else Total(es[..|es| - 1], moved) + if |es| - 1 in moved then |es[|es| - 1].ptrs| else 0
  }

  lemma {:induction false} TotalAdd(es: seq<Entry>, moved: set<int>, i: int)
    requires 0 <= i < |es| && i !in moved
    ensures Total(es, moved + {i}) == Total(es, moved) + |es[i].ptrs|
  {
    if i < |es| - 1 {
      TotalAdd(es[..|es| - 1], moved, i);
    } else {
      TotalSame(es[..|es| - 1], moved, i);
    }
  }

  lemma {:induction false} TotalSame(es: seq<Entry>, moved: set<int>, i: int)
    requires i >= |es|
    ensures Total(es, moved + {i}) == Total(es, moved)
  {
    if es != [] { TotalSame(es[..|es| - 1], moved, i); }
  }

  lemma SubsetSize(moved: set<int>, n: nat)
    requires forall i <- moved :: 0 <= i < n
    ensures |moved| <= n
  {
    if n == 0 {
      assert forall i :: i !in moved;
      assert moved == {};
    } else {
      SubsetSize(moved - {n - 1}, n - 1);
    }
  }

  // The whole invariant, and the three steps of persist_valloc that keep it.

  /** The first `n` pointers of the worklist are done. */
  ghost predicate Good(w: World, moved: set<int>, entries: seq<Entry>, mem: map<int, int>, vec: seq<int>,
                       orig: seq<int>, pointerat: set<int>, n: nat) {
    && Sane(w) && Classified(w) && EntriesMatch(w, moved, entries) && -1 !in moved
    && Listed(w, moved, vec, orig, n) && Tracked(w, moved, mem, orig[..n])
    && |vec| == |w.roots| + Total(w.es, moved)
    && (forall l :: l in pointerat <==> l in w.regs && l !in orig)
    && Least(w, moved)
  }

  /** Every closed set contains all that has moved. */
  ghost predicate Least(w: World, moved: set<int>) {
    forall c: set<int> :: Closed(w, c) ==> moved <= c
  }

  /** What the pointer at the head of the worklist is. */
  lemma Head(w: World, moved: set<int>, entries: seq<Entry>, mem: map<int, int>, vec: seq<int>, orig: seq<int>, p: set<int>, n: nat)
    requires Good(w, moved, entries, mem, vec, orig, p, n) && n < |vec|
    ensures |orig| == |vec| && |entries| == |w.es| == |w.place| && forall i <- moved :: 0 <= i < |w.es|
    ensures var o := orig[n];
      && o in w.mem && Source(w, moved, o) && o !in orig[..n] && vec[n] == Cur(w, moved, o)
      && vec[n] in mem && mem[vec[n]] == w.mem[o] && Find(entries, w.mem[o]) == Find(w.es, w.mem[o])
    ensures forall i :: 0 <= i < |entries| ==> (entries[i].paddr == NULL <==> i !in moved)
    ensures forall i :: 0 <= i < |entries| ==> entries[i] == w.es[i].(paddr := entries[i].paddr)
    ensures forall i <- moved :: 0 <= i < |entries| && entries[i].paddr == w.place[i]
  {
    var o := orig[n];
    assert Source(w, moved, o);
    assert Kept(w, moved, mem, orig[..n], o);
    FindSame(entries, w.es, w.mem[o]);
  }

  lemma MoveLeast(w: World, moved: set<int>, o: int, i: int)
    requires Least(w, moved) && Source(w, moved, o) && Enters(w, o) && i == Find(w.es, w.mem[o])
    requires forall j <- moved :: 0 <= j < |w.es|
    ensures Least(w, moved + {i})
  {
    forall c: set<int> | Closed(w, c) ensures moved + {i} <= c {
      Reachable(w, moved, c, o);
    }
  }

  lemma MoveEntries(w: World, moved: set<int>, entries: seq<Entry>, i: int)
    requires EntriesMatch(w, moved, entries) && 0 <= i < |entries|
    ensures EntriesMatch(w, moved + {i}, entries[i := entries[i].(paddr := w.place[i])])
  {
  }

  lemma MoveGood(w: World, moved: set<int>, entries: seq<Entry>, mem: map<int, int>, vec: seq<int>, orig: seq<int>, p: set<int>, n: nat, i: int)
    requires Good(w, moved, entries, mem, vec, orig, p, n) && n < |orig| && n < |vec|
    requires Enters(w, orig[n]) && i == Find(w.es, w.mem[orig[n]]) && i !in moved
    ensures 0 <= i < |w.es| == |entries| == |w.place|
    ensures Range(entries[i].addr, entries[i].size) <= mem.Keys
    ensures var e := entries[i].(paddr := w.place[i]);
      Good(w, moved + {i}, entries[i := e], Moved(mem, e.addr, e.paddr, e.size),
        vec + Rebased(e.ptrs, e.addr, e.paddr), orig + e.ptrs, p - Elements(e.ptrs), n)
  {
    hide Sane, Classified, Listed, Tracked, Least, EntriesMatch, Moved, Total, Rebased, Elements;
    Head(w, moved, entries, mem, vec, orig, p, n);
    FindRange(w, orig[n]);
    var e := w.es[i];
    DoneElsewhere(w, moved, vec, orig, n, i);
    MoveTracked(w, moved, mem, orig[..n], i);
    MoveListed(w, moved, vec, orig, n, i);
    TotalAdd(w.es, moved, i);
    MoveEntries(w, moved, entries, i);
    MoveLeast(w, moved, orig[n], i);
    MoveTable(w, orig, p, e.ptrs);
    assert (orig + e.ptrs)[..n] == orig[..n];
  }

  lemma FindRange(w: World, l: int)
    requires Enters(w, l)
    ensures 0 <= Find(w.es, w.mem[l]) < |w.es|
  {
  }

  lemma MoveTable(w: World, orig: seq<int>, p: set<int>, ptrs: seq<int>)
    requires forall l :: l in p <==> l in w.regs && l !in orig
    ensures forall l :: l in p - Elements(ptrs) <==> l in w.regs && l !in orig + ptrs
  {
  }

  lemma RewriteGood(w: World, moved: set<int>, entries: seq<Entry>, mem: map<int, int>, vec: seq<int>, orig: seq<int>, p: set<int>, n: nat)
    requires Good(w, moved, entries, mem, vec, orig, p, n) && n < |orig| && n < |vec|
    requires Enters(w, orig[n]) ==> Find(w.es, w.mem[orig[n]]) in moved
    ensures orig[n] in w.mem && |w.es| == |w.place|
    ensures Good(w, moved, entries, mem[vec[n] := Rho(w, w.mem[orig[n]])], vec, orig, p, n + 1)
    ensures !Enters(w, orig[n]) ==> Good(w, moved, entries, mem, vec, orig, p, n + 1)
  {
    hide Sane, Classified, Listed, Tracked, Least, EntriesMatch, Total;
    var o := orig[n];
    Head(w, moved, entries, mem, vec, orig, p, n);
    RewriteTracked(w, moved, mem, orig[..n], o);
    if !Enters(w, o) { SkipTracked(w, moved, mem, orig[..n], o); }
    assert orig[..n + 1] == orig[..n] + [o];
    NextListed(w, moved, vec, orig, n);
  }

  lemma Extend(v: seq<int>, v': seq<int>, i: nat)
    requires i < |v| <= |v'| && v'[..|v|] == v
    ensures v'[..i + 1] == v[..i] + [v[i]]
  {
    assert v[..i + 1] == v'[..|v|][..i + 1];
  }

  /** No more allocations can move than there are. */
  lemma MovedSize(before: set<int>, w: World, moved: set<int>, entries: seq<Entry>, mem: map<int, int>, vec: seq<int>,
                  orig: seq<int>, p: set<int>, n: nat)
    requires Good(w, moved, entries, mem, vec, orig, p, n) && before <= moved
    ensures |before| <= |moved| <= |entries| && (before != moved ==> |before| < |moved|)
  {
    SubsetSize(moved, |entries|);
    assert before + (moved - before) == moved;
  }

  /** The globals of the closure computation. */
  class State {
    var entries: seq<Entry>      // mallocat_tree
    var pointerat: set<int>      // the keys of ht_pointerat
    var pptrVec: seq<int>        // pptr_vec
    var mem: map<int, int>
    var recorded: seq<int>       // the locations given to slab_insert_pointer
    const place: seq<int>        // what container_palloc returns, allocation by allocation
    const slab: set<int>         // the words of the data pages that the container has at first

    ghost const w: World
    ghost var moved: set<int>
    ghost var orig: seq<int>

    ghost predicate Inv(n: nat)
      reads this
    {
      place == w.place && Good(w, moved, entries, mem, pptrVec, orig, pointerat, n)
    }

    /** After classification, before anything has moved. */
    constructor (ghost w: World, entries: seq<Entry>, place: seq<int>, slab: set<int>, mem: map<int, int>, pptrVec: seq<int>, pointerat: set<int>)
      requires Sane(w) && Classified(w)
      requires w == World(entries, place, mem, pptrVec, pointerat)
      ensures Inv(0) && moved == {} && this.w == w && recorded == [] && this.slab == slab
    {
      this.slab := slab;
      this.w, this.entries, this.place, this.mem, this.pptrVec, this.pointerat := w, entries, place, mem, pptrVec, pointerat;
      recorded, moved, orig := [], {}, pptrVec;
      new;
      StartListed(w);
    }

    /** VECTOR_FOREACH over the pointers of an allocation that has moved: into the worklist, out of the table. */
    method AppendPointers(e: Entry)
      modifies this`pptrVec, this`pointerat
      ensures pptrVec == old(pptrVec) + Rebased(e.ptrs, e.addr, e.paddr)
      ensures pointerat == old(pointerat) - Elements(e.ptrs)
      ensures |old(pptrVec)| <= |pptrVec| && pptrVec[..|old(pptrVec)|] == old(pptrVec)
    {
      var k := 0;
      while k < |e.ptrs|
        invariant 0 <= k <= |e.ptrs|
        invariant pptrVec == old(pptrVec) + Rebased(e.ptrs[..k], e.addr, e.paddr)
        invariant pointerat == old(pointerat) - Elements(e.ptrs[..k])
      {
        pptrVec := pptrVec + [Rebase(e.addr, e.ptrs[k], e.paddr)];
        pointerat := pointerat - {e.ptrs[k]};
        k := k + 1;
      }
      assert e.ptrs[..k] == e.ptrs;
    }

    /** The first half of persist_valloc: container_palloc, pmemcpy, free, and the pointers inside. */
    method MoveAllocation(i: int, ghost n: nat)
      requires Inv(n) && n < |pptrVec| && 0 <= i < |entries| && entries[i].paddr == NULL
      requires n < |orig| && Enters(w, orig[n]) && i == Find(w.es, w.mem[orig[n]]) && i !in moved
      modifies this
      ensures Inv(n) && moved == old(moved) + {i} && i !in old(moved)
      ensures n < |orig| && orig[n] == old(orig)[n] && n < |pptrVec| && pptrVec[n] == old(pptrVec)[n]
      ensures |old(pptrVec)| <= |pptrVec| && pptrVec[..|old(pptrVec)|] == old(pptrVec)
      ensures recorded == old(recorded) && |entries| == |old(entries)|
      ensures |old(orig)| <= |orig| && orig[..|old(orig)|] == old(orig)
    {
      hide Good, Moved, Rebased, Elements, Find;
      MoveGood(w, moved, entries, mem, pptrVec, orig, pointerat, n, i);
      var e := entries[i].(paddr := place[i]);
      mem := Moved(mem, e.addr, e.paddr, e.size);
      entries := entries[i := e];
      AppendPointers(e);
      moved := moved + {i};
      orig := orig + e.ptrs;
    }

    /** persist_valloc: the target of the pointer moves if it has not moved yet, and the pointer follows. */
    method PersistValloc(ptrLoc: int, ghost n: nat)
      requires Inv(n) && n < |pptrVec| && ptrLoc == pptrVec[n]
      modifies this
      ensures Inv(n + 1) && old(moved) <= moved && |entries| == |old(entries)|
      ensures recorded == old(recorded) && (moved == old(moved) ==> |pptrVec| == |old(pptrVec)|)
      ensures |old(pptrVec)| <= |pptrVec| && pptrVec[..|old(pptrVec)|] == old(pptrVec)
      ensures |old(orig)| <= |orig| && orig[..|old(orig)|] == old(orig)
    {
      Head(w, moved, entries, mem, pptrVec, orig, pointerat, n);
      var i := Find(entries, mem[ptrLoc]);
      hide Good;
      if i != -1 {
        if entries[i].paddr == NULL {
          MoveAllocation(i, n);
          Head(w, moved, entries, mem, pptrVec, orig, pointerat, n);
        }
        RewriteGood(w, moved, entries, mem, pptrVec, orig, pointerat, n);
        mem := mem[ptrLoc := Rebase(entries[i].addr, mem[ptrLoc], entries[i].paddr)];
      } else {
        RewriteGood(w, moved, entries, mem, pptrVec, orig, pointerat, n);
      }
    }

    /** slab_find: the address is on a data page of the container. Of the pages that container_palloc adds, the words
      that have been handed out are known. */
    predicate OnPage(a: int)
      reads this
    {
      a in slab || exists i :: 0 <= i < |entries| && entries[i].paddr != NULL && entries[i].paddr <= a < entries[i].paddr + entries[i].size
    }

    /** The worklist loop of move_volatile_allocations. It ends although the worklist grows: the list grows
      only when an allocation moves, which each does at most once. slab_insert_pointer ends the process at a pointer
      that is neither NULL nor to a data page. */
    method MoveVolatileAllocations() returns (ok: bool)
      requires Inv(0) && moved == {} && recorded == []
      modifies this
      ensures ok ==> Inv(|pptrVec|) && recorded == pptrVec
      ensures FreshWorld(w) ==> (ok <==> Completes(w, slab))
    {
      var i := 0;
      hide Good, FreshWorld, Completes, AllInsertable;
      NoneInserted(w, slab, orig);
      SameLength(w, moved, entries, mem, pptrVec, orig, pointerat, 0);
      while i < |pptrVec|
        invariant i <= |pptrVec| && Inv(i) && recorded == pptrVec[..i] && |orig| == |pptrVec|
        invariant FreshWorld(w) ==> AllInsertable(w, slab, orig[..i])
        decreases |entries| - |moved|, |pptrVec| - i
      {
        var ptrLoc := pptrVec[i];
        ghost var before, vec, orig0 := moved, pptrVec, orig;
        PersistValloc(ptrLoc, i);
        assert orig[..i] == orig0[..i] by { assert orig[..|orig0|][..i] == orig[..i]; }
        MovedSize(before, w, moved, entries, mem, pptrVec, orig, pointerat, i + 1);
        Extend(vec, pptrVec, i);
        var found := InsertPointer(ptrLoc, i);
        if !found {
          if FreshWorld(w) { Stopped(w, slab, moved, entries, mem, pptrVec, orig, pointerat, i); }
          return false;
        }
        recorded := recorded + [ptrLoc];
        i := i + 1;
      }
      if FreshWorld(w) { Completed(w, slab, moved, entries, mem, pptrVec, orig, pointerat); }
      ok := true;
    }

    /** The test in slab_insert_pointer of the pointer that has just been done. */
    method InsertPointer(ptrLoc: int, ghost n: nat) returns (found: bool)
      requires Inv(n + 1) && n < |pptrVec| && ptrLoc == pptrVec[n]
      ensures |orig| == |pptrVec| && orig[n] in w.mem
      ensures FreshWorld(w) ==> (found <==> Insertable(w, slab, orig[n]))
      ensures FreshWorld(w) && AllInsertable(w, slab, orig[..n]) && found ==> AllInsertable(w, slab, orig[..n + 1])
    {
      hide Good, Listed, Tracked, FreshWorld, OnPage, Insertable, AllInsertable, Find, Rho, Source, Kept;
      DoneValue(w, moved, entries, mem, pptrVec, orig, pointerat, n);
      found := mem[ptrLoc] == NULL || OnPage(mem[ptrLoc]);
      if FreshWorld(w) {
        FreshAt(w, moved, orig[n]);
        FoundExact(n);
      }
      if AllInsertable(w, slab, orig[..n]) && Insertable(w, slab, orig[n]) {
        NextInsertable(w, slab, orig, n);
      }
    }

    lemma FoundExact(n: nat)
      requires Inv(n + 1) && n < |pptrVec| && |orig| == |pptrVec| && orig[n] in w.mem && |w.es| == |w.place| && FreshValue(w, w.mem[orig[n]])
      ensures pptrVec[n] in mem
      ensures mem[pptrVec[n]] == NULL || OnPage(mem[pptrVec[n]]) <==> Insertable(w, slab, orig[n])
    {
      DoneValue(w, moved, entries, mem, pptrVec, orig, pointerat, n);
      var v := w.mem[orig[n]];
      if Find(w.es, v) >= 0 {
        RhoRange(w, v);
        assert entries[Find(w.es, v)].paddr == w.place[Find(w.es, v)];
      }
    }
  }

  // When the loop runs to its end.

  /** Nothing pointed into the container memory before it was handed out. */
  ghost predicate FreshValue(w: World, v: int) {
    forall i :: 0 <= i < |w.place| && i < |w.es| ==> !(w.place[i] <= v < w.place[i] + w.es[i].size)
  }

  /** A persistent pointer, or a pointer inside a registered allocation. */
  predicate Pointer(w: World, l: int) {
    var i := Find(w.es, l);
    if i == -1 then l in w.roots else l in w.es[i].ptrs
  }

  ghost predicate FreshWorld(w: World) {
    forall l <- w.mem :: Pointer(w, l) ==> FreshValue(w, w.mem[l])
  }

  lemma FreshAt(w: World, moved: set<int>, l: int)
    requires FreshWorld(w) && l in w.mem && Source(w, moved, l)
    ensures FreshValue(w, w.mem[l])
  {
  }

  /** The pointer is NULL, or points into a registered allocation or to a data page of the container. */
  predicate Insertable(w: World, slab: set<int>, l: int) {
    l in w.mem ==> w.mem[l] == NULL || Find(w.es, w.mem[l]) >= 0 || w.mem[l] in slab
  }

  ghost predicate AllInsertable(w: World, slab: set<int>, ls: seq<int>) {
    forall l <- ls :: Insertable(w, slab, l)
  }

  lemma SameLength(w: World, moved: set<int>, entries: seq<Entry>, mem: map<int, int>, vec: seq<int>, orig: seq<int>, p: set<int>, n: nat)
    requires Good(w, moved, entries, mem, vec, orig, p, n)
    ensures |orig| == |vec|
  {
  }

  lemma NextInsertable(w: World, slab: set<int>, orig: seq<int>, n: nat)
    requires n < |orig| && AllInsertable(w, slab, orig[..n]) && Insertable(w, slab, orig[n])
    ensures AllInsertable(w, slab, orig[..n + 1])
  {
    hide Insertable;
    assert orig[..n + 1] == orig[..n] + [orig[n]];
  }

  lemma NoneInserted(w: World, slab: set<int>, orig: seq<int>)
    ensures AllInsertable(w, slab, orig[..0])
  {
  }

  /** All pointers in some closed set of allocations, and all roots, are such. */
  ghost predicate Safe(w: World, slab: set<int>, c: set<int>) {
    forall l :: Source(w, c, l) ==> Insertable(w, slab, l)
  }

  ghost predicate Completes(w: World, slab: set<int>) {
    exists c: set<int> :: Closed(w, c) && Safe(w, slab, c)
  }

  /** What a pointer that is done holds. */
  lemma DoneValue(w: World, moved: set<int>, entries: seq<Entry>, mem: map<int, int>, vec: seq<int>, orig: seq<int>, p: set<int>, n: nat)
    requires Good(w, moved, entries, mem, vec, orig, p, n + 1) && n < |vec|
    ensures |orig| == |vec| && orig[n] in w.mem && |w.es| == |w.place| == |entries| && Source(w, moved, orig[n])
    ensures vec[n] in mem && mem[vec[n]] == Rho(w, w.mem[orig[n]])
    ensures Enters(w, orig[n]) ==> Find(w.es, w.mem[orig[n]]) in moved
  {
    assert Source(w, moved, orig[n]) && Kept(w, moved, mem, orig[..n + 1], orig[n]);
    assert orig[..n + 1][n] == orig[n];
  }

  lemma Completed(w: World, slab: set<int>, moved: set<int>, entries: seq<Entry>, mem: map<int, int>, vec: seq<int>, orig: seq<int>, p: set<int>)
    requires Good(w, moved, entries, mem, vec, orig, p, |vec|) && |orig| == |vec| && AllInsertable(w, slab, orig[..|vec|])
    ensures Completes(w, slab)
  {
    ListedClosed(w, moved, vec, orig);
    assert orig[..|vec|] == orig;
    forall l | Source(w, moved, l) ensures Insertable(w, slab, l) {
      SourceListed(w, moved, vec, orig, l);
    }
    assert Safe(w, slab, moved);
  }

  lemma SourceListed(w: World, moved: set<int>, vec: seq<int>, orig: seq<int>, l: int)
    requires Listed(w, moved, vec, orig, |vec|) && Source(w, moved, l)
    ensures l in orig
  {
    if Find(w.es, l) == -1 {
      var k :| 0 <= k < |w.roots| && w.roots[k] == l;
      assert orig[k] == l;
    }
  }

  lemma Stopped(w: World, slab: set<int>, moved: set<int>, entries: seq<Entry>, mem: map<int, int>, vec: seq<int>, orig: seq<int>, p: set<int>, n: nat)
    requires Good(w, moved, entries, mem, vec, orig, p, n + 1) && n < |vec| && n < |orig| && !Insertable(w, slab, orig[n])
    ensures !Completes(w, slab)
  {
    DoneValue(w, moved, entries, mem, vec, orig, p, n);
    forall c: set<int> | Closed(w, c) ensures !Safe(w, slab, c) {
      assert moved <= c && Source(w, c, orig[n]);
    }
  }

  lemma StartListed(w: World)
    requires Sane(w) && Classified(w)
    ensures Listed(w, {}, w.roots, w.roots, 0) && Tracked(w, {}, w.mem, []) && EntriesMatch(w, {}, w.es)
    ensures Total(w.es, {}) == 0
  {
    TotalNone(w.es);
  }

  lemma {:induction false} TotalNone(es: seq<Entry>)
    ensures Total(es, {}) == 0
  {
    if es != [] { TotalNone(es[..|es| - 1]); }
  }

  lemma DoneElsewhere(w: World, moved: set<int>, vec: seq<int>, orig: seq<int>, n: nat, i: int)
    requires 0 <= i < |w.es| && i !in moved && Listed(w, moved, vec, orig, n)
    ensures forall a <- orig[..n] :: Find(w.es, a) != i
  {
    forall a | a in orig[..n] ensures Find(w.es, a) != i {
      assert Source(w, moved, a);
    }
  }

  /** A pointer to nothing that is registered stays as it is. */
  lemma SkipTracked(w: World, moved: set<int>, mem: map<int, int>, done: seq<int>, o: int)
    requires Tracked(w, moved, mem, done) && o in w.mem && Find(w.es, w.mem[o]) == -1
    ensures Tracked(w, moved, mem, done + [o])
  {
    forall a | a in w.mem ensures Kept(w, moved, mem, done + [o], a) {
      assert Kept(w, moved, mem, done, a);
    }
  }
}
