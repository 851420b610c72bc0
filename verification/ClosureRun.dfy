/** What the closure computation achieves: classification, the moved graph, and the back references. */
module ClosureRun {
  import opened Closure
  import opened Sequences

  // classify_pointers.

  /** The keys of the table inside allocation `i`, in the order of the walk. */
  ghost function Inside(es: seq<Entry>, keys: seq<int>, i: int): seq<int> {
    if keys == [] then []
    else
      var l := keys[|keys| - 1];
      Inside(es, keys[..|keys| - 1], i) + if Find(es, l) == i then [l] else []
  }

  lemma {:induction false} InsideFacts(es: seq<Entry>, keys: seq<int>, i: int)
    requires Distinct(keys)
    ensures forall l :: l in Inside(es, keys, i) <==> l in keys && Find(es, l) == i
    ensures Distinct(Inside(es, keys, i))
  {
    if keys != [] {
      var n := |keys| - 1;
      InsideFacts(es, keys[..n], i);
      assert keys == keys[..n] + [keys[n]];
    }
  }

  /** htable_filter with classify_pointers_callback: a location inside a registered allocation is listed there
    and stays in the table; one on a data page of the container goes to the worklist; the rest stay. */
  method ClassifyPointers(entries0: seq<Entry>, keys: seq<int>, slab: set<int>)
    returns (entries: seq<Entry>, pptrVec: seq<int>, pointerat: set<int>)
    requires Distinct(keys) && forall i :: 0 <= i < |entries0| ==> entries0[i].ptrs == []
    ensures |entries| == |entries0|
    ensures forall i :: 0 <= i < |entries| ==> entries[i] == entries0[i].(ptrs := Inside(entries0, keys, i))
    ensures Distinct(pptrVec) && forall l :: l in pptrVec <==> l in keys && Find(entries0, l) == -1 && l in slab
    ensures forall l :: l in pointerat <==> l in keys && l !in pptrVec
  {
    hide Inside, Find;
    entries, pptrVec, pointerat := entries0, [], {};
    InsideNone(entries0, keys);
    var k := 0;
    while k < |keys|
      invariant 0 <= k <= |keys| && |entries| == |entries0|
      invariant forall i :: 0 <= i < |entries| ==> entries[i] == entries0[i].(ptrs := Inside(entries0, keys[..k], i))
      invariant Distinct(pptrVec) && forall l :: l in pptrVec <==> l in keys[..k] && Find(entries0, l) == -1 && l in slab
      invariant forall l :: l in pointerat <==> l in keys[..k] && l !in pptrVec
    {
      var l := keys[k];
      InsideNext(entries0, keys, k);
      FindSame(entries, entries0, l);
      NextKey(keys, k);
      var i := Find(entries, l);
      if i != -1 {
        entries := entries[i := entries[i].(ptrs := entries[i].ptrs + [l])];
        pointerat := pointerat + {l};
      } else if l in slab {
        pptrVec := pptrVec + [l];
      } else {
        pointerat := pointerat + {l};
      }
      k := k + 1;
    }
    assert keys[..k] == keys;
  }

  lemma InsideNone(es: seq<Entry>, keys: seq<int>)
    ensures forall i :: Inside(es, keys[..0], i) == []
  {
  }

  lemma InsideNext(es: seq<Entry>, keys: seq<int>, k: nat)
    requires k < |keys|
    ensures forall i :: Inside(es, keys[..k + 1], i) == Inside(es, keys[..k], i) + if Find(es, keys[k]) == i then [keys[k]] else []
  {
    assert keys[..k + 1][..k] == keys[..k];
  }

  lemma NextKey(keys: seq<int>, k: nat)
    requires k < |keys| && Distinct(keys)
    ensures keys[k] !in keys[..k] && forall l :: l in keys[..k + 1] <==> l in keys[..k] || l == keys[k]
  {
    assert keys[..k + 1] == keys[..k] + [keys[k]];
  }

  /** Classification meets what the worklist needs. */
  lemma ClassificationSuffices(w: World, entries0: seq<Entry>, keys: seq<int>, slab: set<int>)
    requires Distinct(keys) && forall l <- keys :: l in w.mem
    requires |w.es| == |entries0| && forall i :: 0 <= i < |w.es| ==> w.es[i] == entries0[i].(ptrs := Inside(entries0, keys, i))
    requires Distinct(w.roots) && forall l :: l in w.roots <==> l in keys && Find(entries0, l) == -1 && l in slab
    requires forall l :: l in w.regs <==> l in keys && l !in w.roots
    ensures Classified(w)
  {
    forall a ensures Find(w.es, a) == Find(entries0, a) { FindSame(w.es, entries0, a); }
    forall i | 0 <= i < |w.es| ensures Distinct(w.es[i].ptrs) && forall l <- w.es[i].ptrs :: Contains(w.es[i], l) {
      InsideFacts(entries0, keys, i);
    }
    forall l | l in w.regs && Find(w.es, l) >= 0 ensures l in w.es[Find(w.es, l)].ptrs {
      InsideFacts(entries0, keys, Find(w.es, l));
    }
  }

  // The worklist.

  /** The worklist is exhausted. */
  ghost predicate Finished(w: World, moved: set<int>, entries: seq<Entry>, mem: map<int, int>, vec: seq<int>,
                           orig: seq<int>, p: set<int>) {
    Good(w, moved, entries, mem, vec, orig, p, |vec|)
  }

  /** Exactly the reachable allocations have moved: they form the least closed set. */
  lemma MovedReachable(w: World, moved: set<int>, entries: seq<Entry>, mem: map<int, int>, vec: seq<int>, orig: seq<int>, p: set<int>)
    requires Finished(w, moved, entries, mem, vec, orig, p)
    ensures Closed(w, moved) && forall c: set<int> :: Closed(w, c) ==> moved <= c
  {
    ListedClosed(w, moved, vec, orig);
  }

  /** The length of the worklist: the roots and the pointers of the allocations moved, each once. */
  lemma WorklistLength(w: World, moved: set<int>, entries: seq<Entry>, mem: map<int, int>, vec: seq<int>, orig: seq<int>, p: set<int>)
    requires Finished(w, moved, entries, mem, vec, orig, p)
    ensures |vec| == |w.roots| + Total(w.es, moved) && Distinct(vec)
  {
    forall i, j | 0 <= i < j < |vec| ensures vec[i] != vec[j] {
      assert Source(w, moved, orig[i]) && Source(w, moved, orig[j]);
      CurInjective(w, moved, orig[i], orig[j]);
    }
  }

  /** A pointer that was processed holds the relocated image of the value it had, and targets no registered
    volatile allocation. */
  lemma ProcessedPointer(w: World, moved: set<int>, entries: seq<Entry>, mem: map<int, int>, vec: seq<int>, orig: seq<int>, p: set<int>, k: nat)
    requires Finished(w, moved, entries, mem, vec, orig, p) && k < |vec|
    ensures k < |orig| && orig[k] in w.mem && |w.es| == |w.place|
    ensures vec[k] == Rho(w, orig[k]) && vec[k] in mem && mem[vec[k]] == Rho(w, w.mem[orig[k]])
    ensures Find(w.es, mem[vec[k]]) == -1
  {
    var o := orig[k];
    assert Source(w, moved, o) && Kept(w, moved, mem, orig[..|vec|], o);
    assert orig[..|vec|] == orig;
    if Find(w.es, w.mem[o]) >= 0 { RhoRange(w, w.mem[o]); }
  }

  lemma RhoInjective(w: World, u: int, v: int)
    requires Sane(w) && FreshValue(w, u) && FreshValue(w, v)
    ensures Rho(w, u) == Rho(w, v) <==> u == v
  {
    if Find(w.es, u) >= 0 { RhoRange(w, u); }
    if Find(w.es, v) >= 0 { RhoRange(w, v); }
  }

  /** Aliasing is preserved: two processed pointers are equal after the run iff they were equal before. */
  lemma AliasingPreserved(w: World, moved: set<int>, entries: seq<Entry>, mem: map<int, int>, vec: seq<int>, orig: seq<int>, p: set<int>, j: nat, k: nat)
    requires Finished(w, moved, entries, mem, vec, orig, p) && j < |vec| && k < |vec|
    requires |orig| == |vec| && orig[j] in w.mem && orig[k] in w.mem && FreshValue(w, w.mem[orig[j]]) && FreshValue(w, w.mem[orig[k]])
    ensures vec[j] in mem && vec[k] in mem && (mem[vec[j]] == mem[vec[k]] <==> w.mem[orig[j]] == w.mem[orig[k]])
  {
    ProcessedPointer(w, moved, entries, mem, vec, orig, p, j);
    ProcessedPointer(w, moved, entries, mem, vec, orig, p, k);
    RhoInjective(w, w.mem[orig[j]], w.mem[orig[k]]);
  }

  /** An allocation that moved is intact at its new place, word for word, its pointers relocated; its old place
    is gone. */
  lemma AllocationIntact(w: World, moved: set<int>, entries: seq<Entry>, mem: map<int, int>, vec: seq<int>, orig: seq<int>, p: set<int>, i: int, x: int)
    requires Finished(w, moved, entries, mem, vec, orig, p) && i in moved && 0 <= i < |w.es| && Contains(w.es[i], x)
    ensures x in w.mem && x !in mem && |w.place| == |w.es|
    ensures var y := w.place[i] + (x - w.es[i].addr);
      y in mem && mem[y] == if x in w.es[i].ptrs then Rho(w, w.mem[x]) else w.mem[x]
  {
    FindUnique(w, i, x);
    assert Kept(w, moved, mem, orig[..|vec|], x);
    assert orig[..|vec|] == orig;
    if x in orig {
      var k :| 0 <= k < |orig| && orig[k] == x;
      assert Source(w, moved, orig[k]);
    }
  }

  /** What did not move and is no processed pointer is as it was. */
  lemma RestUntouched(w: World, moved: set<int>, entries: seq<Entry>, mem: map<int, int>, vec: seq<int>, orig: seq<int>, p: set<int>, x: int)
    requires Finished(w, moved, entries, mem, vec, orig, p) && x in w.mem && Find(w.es, x) !in moved && x !in w.roots
    ensures x in mem && mem[x] == w.mem[x]
  {
    assert Kept(w, moved, mem, orig[..|vec|], x);
    assert orig[..|vec|] == orig;
  }

  // fix_back_references.

  /** The callback: the value written to a location that held `v`. An allocation that never moved has a NULL
    paddr, and the callback does not look. */
  function Fixed(entries: seq<Entry>, v: int): int {
    if v == NULL then v
    else
      var i := Find(entries, v);
      if i == -1 then v else Rebase(entries[i].addr, v, entries[i].paddr)
  }

  /** htable_foreach with fix_back_references_callback. */
  method FixBackReferences(entries: seq<Entry>, keys: seq<int>, mem0: map<int, int>) returns (mem: map<int, int>)
    requires Distinct(keys) && forall l <- keys :: l in mem0
    ensures mem.Keys == mem0.Keys
    ensures forall l <- mem0 :: mem[l] == if l in keys then Fixed(entries, mem0[l]) else mem0[l]
  {
    mem := mem0;
    var k := 0;
    while k < |keys|
      invariant 0 <= k <= |keys| && mem.Keys == mem0.Keys
      invariant forall l <- mem0 :: mem[l] == if l in keys[..k] then Fixed(entries, mem0[l]) else mem0[l]
    {
      var ptrLoc := keys[k];
      if mem[ptrLoc] != NULL {
        var i := Find(entries, mem[ptrLoc]);
        if i != -1 {
          mem := mem[ptrLoc := Rebase(entries[i].addr, mem[ptrLoc], entries[i].paddr)];
        }
      }
      assert keys[..k + 1] == keys[..k] + [ptrLoc];
      k := k + 1;
    }
    assert keys[..k] == keys;
  }

  /** Every location still in the table is live and untouched when the back references are fixed. */
  lemma BackReferenceLive(w: World, moved: set<int>, entries: seq<Entry>, mem: map<int, int>, vec: seq<int>, orig: seq<int>, p: set<int>, l: int)
    requires Finished(w, moved, entries, mem, vec, orig, p) && l in p
    ensures l in w.mem && l in mem && mem[l] == w.mem[l]
  {
    RestUntouched(w, moved, entries, mem, vec, orig, p, l);
  }

  /** A back reference follows its target exactly when the target is not a registered allocation that stayed
    behind: then the value is rebased onto a NULL address. */
  lemma BackReferenceExact(w: World, moved: set<int>, entries: seq<Entry>, mem: map<int, int>, vec: seq<int>, orig: seq<int>, p: set<int>, v: int)
    requires Finished(w, moved, entries, mem, vec, orig, p)
    ensures |w.place| == |w.es|
    ensures Fixed(entries, v) == Cur(w, moved, v) <==> Find(w.es, v) == -1 || Find(w.es, v) in moved
  {
    FindSame(entries, w.es, v);
  }

  /** For example, one registered allocation that no persistent pointer reaches, and a pointer to its second
    word from elsewhere. */
  lemma BackReferenceToUnmoved()
    ensures var w := World([Entry(10, 2, NULL, [])], [100], map[10 := 0, 11 := 0, 50 := 11], [], {50});
      Sane(w) && Classified(w) && Fixed(w.es, w.mem[50]) == 1
  {
    var w := World([Entry(10, 2, NULL, [])], [100], map[10 := 0, 11 := 0, 50 := 11], [], {50});
    assert Find(w.es, 50) == -1 && Find(w.es, 11) == 0;
  }

  // The whole run.

  /** The world after classification: each allocation knows the pointers inside it, and the pointers on data pages of
    the container are the roots. */
  ghost predicate Starts(w: World, entries0: seq<Entry>, place: seq<int>, mem0: map<int, int>, keys: seq<int>, slab: set<int>) {
    && w.place == place && w.mem == mem0 && |w.es| == |entries0|
    && (forall i :: 0 <= i < |w.es| ==> w.es[i] == entries0[i].(ptrs := Inside(entries0, keys, i)))
    && Distinct(w.roots) && (forall l :: l in w.roots <==> l in keys && Find(entries0, l) == -1 && l in slab)
    && (forall l :: l in w.regs <==> l in keys && l !in w.roots)
  }

  lemma StartsSane(w: World, entries0: seq<Entry>, place: seq<int>, mem0: map<int, int>, keys: seq<int>, slab: set<int>)
    requires Starts(w, entries0, place, mem0, keys, slab) && Sane(World(entries0, place, mem0, [], {}))
    requires Distinct(keys) && forall l <- keys :: l in mem0
    ensures Sane(w) && Classified(w) && |w.place| == |w.es|
  {
    hide Inside;
    ClassificationSuffices(w, entries0, keys, slab);
  }

  /** The word that started out at `a`, after the run: it is where its allocation is; if it is a pointer in the
    container or in an allocation that moved, it has been relocated; if it is another registered location, it has been
    treated as a back reference; otherwise it is as it was. */
  ghost predicate Ends(w: World, moved: set<int>, keys: seq<int>, mem: map<int, int>, a: int)
    requires |w.place| == |w.es| && a in w.mem
  {
    && Cur(w, moved, a) in mem
    && mem[Cur(w, moved, a)] ==
      if Source(w, moved, a) then Rho(w, w.mem[a])
      else if a in keys then BackReference(w, moved, w.mem[a])
      else w.mem[a]
  }

  /** A back reference follows its target, except that one to a registered allocation that stayed behind is rebased
    onto NULL. */
  function BackReference(w: World, moved: set<int>, v: int): int
    requires |w.place| == |w.es|
  {
    var i := Find(w.es, v);
    if i == -1 || i in moved then Cur(w, moved, v) else Rebase(w.es[i].addr, v, NULL)
  }

  /** What is left in the table, in the order of the walk. */
  function Left(keys: seq<int>, table: set<int>): (r: seq<int>)
    ensures forall l :: l in r <==> l in keys && l in table
  {
    if keys == [] then []
    else Left(keys[..|keys| - 1], table) + if keys[|keys| - 1] in table then [keys[|keys| - 1]] else []
  }

  lemma {:induction false} LeftNoDup(keys: seq<int>, table: set<int>)
    requires Distinct(keys)
    ensures Distinct(Left(keys, table))
  {
    if keys != [] { LeftNoDup(keys[..|keys| - 1], table); }
  }

  /** classify_pointers, move_volatile_allocations and fix_back_references: exactly the allocations reachable from the
    container move into it, every word is where its allocation is, and every pointer follows its target. */
  method Run(entries0: seq<Entry>, place: seq<int>, mem0: map<int, int>, keys: seq<int>, slab: set<int>)
    returns (ok: bool, mem: map<int, int>, ghost w: World, ghost moved: set<int>)
    requires Sane(World(entries0, place, mem0, [], {})) && Distinct(keys) && forall l <- keys :: l in mem0
    requires forall i :: 0 <= i < |entries0| ==> entries0[i].ptrs == []
    ensures Starts(w, entries0, place, mem0, keys, slab) && |w.place| == |w.es|
    ensures FreshWorld(w) ==> (ok <==> Completes(w, slab))
    ensures ok ==> Closed(w, moved) && forall c: set<int> :: Closed(w, c) ==> moved <= c
    ensures ok ==> forall a <- mem0 :: Ends(w, moved, keys, mem, a)
    ensures ok ==> forall a, b | a in mem0 && b in mem0 && Aliases(w, moved, a, b) :: Alike(w, moved, mem, a, b)
    ensures ok ==> forall a | a in mem0 && a in keys && !Source(w, moved, a) :: FollowsExactly(w, moved, mem, a)
    ensures ok ==> forall b <- mem :: Find(w.es, b) !in moved
  {
    hide Sane, Classified, Good, Inside, Closed, Ends, Alike, Aliases, FollowsExactly, Source, FreshWorld, Completes;
    var entries, pptrVec, pointerat := ClassifyPointers(entries0, keys, slab);
    w := World(entries, place, mem0, pptrVec, pointerat);
    StartsSane(w, entries0, place, mem0, keys, slab);
    var s := new State(w, entries, place, slab, mem0, pptrVec, pointerat);
    ok := s.MoveVolatileAllocations();
    moved, mem := s.moved, s.mem;
    if !ok {
      return;
    }
    MovedReachable(w, moved, s.entries, s.mem, s.pptrVec, s.orig, s.pointerat);
    var table := Left(keys, s.pointerat);
    LeftNoDup(keys, s.pointerat);
    TableLeft(w, moved, s.entries, s.mem, s.pptrVec, s.orig, s.pointerat);
    NoneLeft(w, moved, s.entries, s.mem, s.pptrVec, s.orig, s.pointerat);
    mem := FixBackReferences(s.entries, table, s.mem);
    forall a | a in mem0 ensures Ends(w, moved, keys, mem, a) {
      WordEnds(w, moved, s.entries, s.mem, s.pptrVec, s.orig, s.pointerat, keys, table, mem, a);
    }
    forall a, b | a in mem0 && b in mem0 && Aliases(w, moved, a, b) ensures Alike(w, moved, mem, a, b) {
      EndsAliasing(w, moved, keys, mem, a, b);
    }
    forall a | a in mem0 && a in keys && !Source(w, moved, a) ensures FollowsExactly(w, moved, mem, a) {
      EndsFollowing(w, moved, keys, mem, a);
    }
    OldPlacesGone(w, moved, s.mem, mem);
  }

  /** Two pointers of the graph, whose values do not point into container memory that was still free. */
  ghost predicate Aliases(w: World, moved: set<int>, a: int, b: int) {
    && a in w.mem && b in w.mem && Source(w, moved, a) && Source(w, moved, b)
    && FreshValue(w, w.mem[a]) && FreshValue(w, w.mem[b])
  }

  /** The two are equal after the run exactly if they were equal before. */
  ghost predicate Alike(w: World, moved: set<int>, mem: map<int, int>, a: int, b: int) {
    && |w.place| == |w.es| && a in w.mem && b in w.mem && Cur(w, moved, a) in mem && Cur(w, moved, b) in mem
    && (mem[Cur(w, moved, a)] == mem[Cur(w, moved, b)] <==> w.mem[a] == w.mem[b])
  }

  lemma EndsAliasing(w: World, moved: set<int>, keys: seq<int>, mem: map<int, int>, a: int, b: int)
    requires Sane(w) && Aliases(w, moved, a, b) && Ends(w, moved, keys, mem, a) && Ends(w, moved, keys, mem, b)
    ensures Alike(w, moved, mem, a, b)
  {
    RhoInjective(w, w.mem[a], w.mem[b]);
  }

  /** The target of a back reference is no registered allocation that stayed behind. */
  predicate Follows(w: World, moved: set<int>, v: int) {
    Find(w.es, v) == -1 || Find(w.es, v) in moved
  }

  ghost predicate FollowsExactly(w: World, moved: set<int>, mem: map<int, int>, a: int) {
    && |w.place| == |w.es| && a in w.mem && Cur(w, moved, a) in mem
    && (mem[Cur(w, moved, a)] == Cur(w, moved, w.mem[a]) <==> Follows(w, moved, w.mem[a]))
  }

  lemma EndsFollowing(w: World, moved: set<int>, keys: seq<int>, mem: map<int, int>, a: int)
    requires Sane(w) && a in w.mem && a in keys && !Source(w, moved, a) && Ends(w, moved, keys, mem, a)
    ensures FollowsExactly(w, moved, mem, a)
  {
  }

  lemma OldPlacesGone(w: World, moved: set<int>, mem1: map<int, int>, mem: map<int, int>)
    requires mem.Keys == mem1.Keys && forall b <- mem1 :: Find(w.es, b) !in moved
    ensures forall b <- mem :: Find(w.es, b) !in moved
  {
    assert forall b <- mem :: b in mem1;
  }

  lemma TableLeft(w: World, moved: set<int>, entries: seq<Entry>, mem: map<int, int>, vec: seq<int>, orig: seq<int>, p: set<int>)
    requires Finished(w, moved, entries, mem, vec, orig, p)
    ensures forall l <- p :: l in mem
  {
    hide Finished;
    forall l | l in p ensures l in mem { BackReferenceLive(w, moved, entries, mem, vec, orig, p, l); }
  }

  lemma NoneLeft(w: World, moved: set<int>, entries: seq<Entry>, mem: map<int, int>, vec: seq<int>, orig: seq<int>, p: set<int>)
    requires Finished(w, moved, entries, mem, vec, orig, p)
    ensures |w.place| == |w.es| && forall b <- mem :: Find(w.es, b) !in moved
  {
  }

  /** The worklist lists exactly the pointers of the graph. */
  lemma Processed(w: World, moved: set<int>, entries: seq<Entry>, mem: map<int, int>, vec: seq<int>, orig: seq<int>, p: set<int>, a: int)
    requires Finished(w, moved, entries, mem, vec, orig, p) && a in w.mem
    ensures a in orig <==> Source(w, moved, a)
    ensures |w.place| == |w.es| && Kept(w, moved, mem, orig, a)
    ensures a in p <==> a in w.regs && a !in orig
  {
    assert orig[..|vec|] == orig;
    if a in orig {
      var k :| 0 <= k < |orig| && orig[k] == a;
      assert Source(w, moved, orig[k]);
    }
    if a in w.roots {
      var k :| 0 <= k < |w.roots| && w.roots[k] == a;
      assert orig[k] == a;
    }
  }

  lemma WordEnds(w: World, moved: set<int>, entries: seq<Entry>, mem1: map<int, int>, vec: seq<int>, orig: seq<int>, p: set<int>,
                 keys: seq<int>, table: seq<int>, mem: map<int, int>, a: int)
    requires Finished(w, moved, entries, mem1, vec, orig, p) && a in w.mem
    requires (forall l :: l in w.regs <==> l in keys && l !in w.roots) && (forall l <- w.roots :: l in keys)
    requires forall l :: l in table <==> l in keys && l in p
    requires mem.Keys == mem1.Keys && forall l <- mem1 :: mem[l] == if l in table then Fixed(entries, mem1[l]) else mem1[l]
    ensures |w.place| == |w.es| && Ends(w, moved, keys, mem, a)
  {
    hide Finished;
    Processed(w, moved, entries, mem1, vec, orig, p, a);
    var b := Cur(w, moved, a);
    if b in p { NotMoved(w, moved, entries, mem1, vec, orig, p, a); }
    if a in p {
      BackReferenceLive(w, moved, entries, mem1, vec, orig, p, a);
      StaysPut(w, moved, entries, mem1, vec, orig, p, a);
      FixedValue(w, moved, entries, mem1, vec, orig, p, w.mem[a]);
    }
    RootSource(w, moved, entries, mem1, vec, orig, p, a);
  }

  lemma RootSource(w: World, moved: set<int>, entries: seq<Entry>, mem: map<int, int>, vec: seq<int>, orig: seq<int>, p: set<int>, a: int)
    requires Finished(w, moved, entries, mem, vec, orig, p) && a in w.mem
    ensures a in w.roots ==> Source(w, moved, a)
    ensures Source(w, moved, a) ==> |w.place| == |w.es|
  {
  }

  /** A location in the table is in no allocation that has moved. */
  lemma StaysPut(w: World, moved: set<int>, entries: seq<Entry>, mem: map<int, int>, vec: seq<int>, orig: seq<int>, p: set<int>, a: int)
    requires Finished(w, moved, entries, mem, vec, orig, p) && a in p
    ensures |w.place| == |w.es| && Cur(w, moved, a) == a
  {
    assert a in w.regs && Find(w.es, a) !in moved;
  }

  /** No other word is where a location of the table is. */
  lemma NotMoved(w: World, moved: set<int>, entries: seq<Entry>, mem: map<int, int>, vec: seq<int>, orig: seq<int>, p: set<int>, a: int)
    requires Finished(w, moved, entries, mem, vec, orig, p) && a in w.mem && |w.place| == |w.es| && Cur(w, moved, a) in p
    ensures Cur(w, moved, a) == a
  {
    var b := Cur(w, moved, a);
    StaysPut(w, moved, entries, mem, vec, orig, p, b);
    BackReferenceLive(w, moved, entries, mem, vec, orig, p, b);
    if a != b { CurInjective(w, moved, a, b); }
  }

  lemma FixedValue(w: World, moved: set<int>, entries: seq<Entry>, mem: map<int, int>, vec: seq<int>, orig: seq<int>, p: set<int>, v: int)
    requires Finished(w, moved, entries, mem, vec, orig, p)
    ensures |w.place| == |w.es| && Fixed(entries, v) == BackReference(w, moved, v)
  {
    FindSame(entries, w.es, v);
  }
}
