/** The persistent-pointer list: an append-only log over inode and data pages. */
module PptrList {
  import opened Paging
  import opened FixMapper
  import opened PptrPages

  class Head {
    const alloc: FixedMapper
    var base: nat                       // where the container is mapped
    var firstL: nat                     // ph_first
    var firstM: Ptr
    var lastM: Ptr                      // ph_last
    var inodes: map<nat, Inode>         // the inode pages of the container
    var dnodes: map<nat, seq<Entry>>    // the data pages of the container

    ghost var chain: seq<nat>           // the inodes in list order
    ghost var all: seq<Slot>            // their slots
    ghost var n: nat                    // slots with a current page
    ghost var m: nat                    // slots with a page at the last checkpoint
    ghost var own: map<nat, Ref>        // the pages of the list
    ghost var others: set<nat>          // the other live pages of the container
    ghost var appended: seq<Entry>      // everything appended so far
    ghost var kept: seq<Entry>          // everything appended before the last checkpoint

    /** The position of the last inode's current slot. */
    ghost function Pos(): int
      reads `chain, `inodes
      requires |chain| > 0 && chain[|chain| - 1] in inodes
    {
      PosOf(chain, inodes)
    }

    /** The pages are backed by the allocator. */
    ghost predicate Store()
      reads `own, `others, alloc
    {
      alloc.Valid() && Backed(own, others, alloc.live)
    }

    /** What is in the pages, when a checkpoint has reached slot `k`. */
    ghost predicate Log(k: nat)
      reads `firstL, `chain, `inodes, `dnodes, `all, `n, `m, `own, `appended
    {
      && Linked(chain, inodes, all) && firstL == chain[0]
      && Places(all, n, m, k) && Filled(all, dnodes, n) && Owned(own, chain, all, n) && CursorOk(chain, inodes, dnodes, all, n)
      && Spell(dnodes, all, n, false) == appended
    }

    /** What the memory addresses in the pages and in the head are. */
    ghost predicate Volatile()
      reads this
    {
      Mapped(base, all, n) && LinkedM(base, chain, inodes) && |chain| > 0 &&
      firstM == At(base, chain[0]) && lastM == At(base, chain[|chain| - 1])
    }

    /** The current pages spell what has been appended, the snapshot pages what had been at the last checkpoint, and
      every live page of the list is one of those or an inode. */
    ghost predicate Valid()
      reads this, alloc
    {
      Store() && Whole()
    }

    ghost predicate Whole()
      reads this
    {
      Log(0) && Volatile() && Spell(dnodes, all, m, true) == kept
    }

    /** page_allocator_getpage, for the use `r`. */
    method GetPage(ghost r: Ref) returns (l: nat)
      requires Store()
      modifies alloc
      ensures alloc.Valid() && l != 0 && l !in own && Backed(own[l := r], others, alloc.live)
    {
      l := alloc.AllocPage();
      BackedAdd(own, others, old(alloc.live), l, r);
    }

    /** pptr_init, in a container whose page 0 is in use. */
    constructor (alloc: FixedMapper, base: nat)
      requires alloc.Valid() && 0 in alloc.live
      modifies alloc
      ensures Valid() && this.alloc == alloc && others == old(alloc.live) && appended == kept == []
    {
      hide FixedMapper.Valid, Zeros, Owned, Linked, LinkedM, Mapped, Places, Backed, Filled, Spell;
      this.alloc, this.base := alloc, base;
      firstL, firstM, lastM := 0, Null, Null;
      inodes, dnodes := map[], map[];
      chain, all, n, m := [], [], 0, 0;
      own, others := map[], alloc.live;
      appended, kept := [], [];
      new;
      FirstLive(others);
      var l := GetPage(InodeRef(0));
      firstL := l;
      inodes := inodes[l := Inode(0, Null, 0, Zeros())];
      firstM, lastM := At(base, l), At(base, l);
      chain, all, own := [l], Zeros(), own[l := InodeRef(0)];
      Initial(l, base, inodes);
    }

    /** pptr_extend_list */
    method ExtendList()
      requires Valid() && n == |all| > 0 && |dnodes[all[n - 1].curL]| == D
      modifies this, alloc
      ensures Valid() && Pos() == n && n < |all| && Same(old(n), old(m), old(others), old(appended), old(kept))
    {
      hide Whole, Backed, FixedMapper.Valid;
      assert Whole();
      var l := GetPage(InodeRef(|chain|));
      LinkLast(l);
    }

    method LinkLast(l: nat)
      requires Whole() && n == |all| > 0 && |dnodes[all[n - 1].curL]| == D && l != 0 && l !in own
      modifies this
      ensures Whole() && own == old(own)[l := InodeRef(|old(chain)|)]
      ensures Pos() == n && n < |all| && Same(old(n), old(m), old(others), old(appended), old(kept))
    {
      hide Owned, Linked, LinkedM, Mapped, Places, Spell, Filled, CursorOk;
      ghost var c := |chain|;
      ListLength(chain, inodes, all);
      var last := lastM.laddr;
      ChainDistinct(own, chain, all, n);
      FilledLast(all, dnodes, n);
      AddInode(own, chain, all, dnodes, n, m, 0, base, l);
      LinkInode(chain, inodes, all, base, l, inodes[last := inodes[last].(nextL := l, nextM := At(base, l))][l := Inode(0, Null, 0, Zeros())]);
      CursorExtended(chain, inodes, dnodes, all, n, l, inodes[last := inodes[last].(nextL := l, nextM := At(base, l))]);
      SpellMore(dnodes, all, Zeros(), n, false);
      SpellMore(dnodes, all, Zeros(), m, true);
      inodes := inodes[last := inodes[last].(nextL := l, nextM := At(base, l))][l := Inode(0, Null, 0, Zeros())];
      lastM := At(base, l);
      own, chain, all := own[l := InodeRef(c)], chain + [l], all + Zeros();
    }

    /** pptr_need_expanding */
    method NeedExpanding() returns (full: bool)
      requires Whole()
      ensures |all| > 0 && full == (n == |all| && |dnodes[all[n - 1].curL]| == D)
    {
      hide Owned, Backed, Spell, FixedMapper.Valid;
      ghost var g := |all| - 1;
      ListLength(chain, inodes, all);
      assert all[E * (|chain| - 1) + (E - 1)] == inodes[lastM.laddr].slots[E - 1];
      var last := inodes[lastM.laddr].slots[E - 1].curM;
      full := last != Null && |dnodes[last.laddr]| == D;
    }

    /** The data page of the current slot, if there is one. */
    method CurrentDnode() returns (l: Ptr)
      requires Whole()
      ensures 0 <= Pos() < |all| && l == (if Pos() < n then At(base, all[Pos()].curL) else Null)
      ensures Pos() < n ==> all[Pos()].curL in dnodes && |dnodes[all[Pos()].curL]| <= D
    {
      hide Owned, Backed, Spell, FixedMapper.Valid;
      ListLength(chain, inodes, all);
      var inode := inodes[lastM.laddr];
      assert all[E * (|chain| - 1) + inode.currentIdx] == inode.slots[inode.currentIdx];
      l := inode.slots[inode.currentIdx].curM;
    }

    /** The next slot of the last inode becomes the current one. */
    method Advance()
      requires Whole() && Pos() + 1 == n < |all| && |dnodes[all[n - 1].curL]| == D
      modifies this`inodes
      ensures Whole() && Pos() == n
    {
      hide Owned, Mapped, Places, Spell, Filled, Linked, LinkedM;
      ListLength(chain, inodes, all);
      FilledLast(all, dnodes, n);
      var last := lastM.laddr;
      ChainDistinct(own, chain, all, n);
      MoveCursor(chain, inodes, all, base, |chain| - 1, inodes[last].currentIdx + 1);
      inodes := inodes[last := inodes[last].(currentIdx := inodes[last].currentIdx + 1)];
    }

    /** The current slot gets a data page. */
    method AddPage()
      requires Valid() && Pos() == n < |all|
      modifies this, alloc
      ensures Valid() && Pos() + 1 == n && |dnodes[all[n - 1].curL]| == 0
      ensures Same(old(n) + 1, old(m), old(others), old(appended), old(kept))
    {
      hide Whole, Backed, FixedMapper.Valid;
      assert Whole();
      var l := GetPage(CurRef(n));
      SetCurrent(l);
    }

    method SetCurrent(l: nat)
      requires Whole() && Pos() == n < |all| && l != 0 && l !in own
      modifies `inodes, `dnodes, `own, `all, `n
      ensures Whole() && own == old(own)[l := CurRef(old(n))]
      ensures Pos() + 1 == n && |dnodes[all[n - 1].curL]| == 0
      ensures Same(old(n) + 1, old(m), old(others), old(appended), old(kept))
    {
      hide Owned, Linked, LinkedM, Mapped, Places, Spell, Filled, CursorOk;
      ListLength(chain, inodes, all);
      TakePage(chain, inodes, all, dnodes, own, n, m, base, l);
      var last, c := lastM.laddr, inodes[lastM.laddr].currentIdx;
      var s := inodes[last].slots[c].(curL := l, curM := At(base, l));
      inodes := inodes[last := inodes[last].(slots := inodes[last].slots[c := s], currentIdx := c)];
      dnodes := dnodes[l := []];
      own, all, n := own[l := CurRef(n)], all[n := s], n + 1;
    }

    /** pptr_get_dnode: a data page that is not full, and its inode. */
    method GetDnode() returns (inode: Ptr, dnode: Ptr)
      requires Valid()
      modifies this, alloc
      ensures Valid() && Pos() + 1 == n <= old(n) + 1 && |dnodes[all[n - 1].curL]| < D
      ensures inode == lastM && dnode == At(base, all[n - 1].curL)
      ensures n >= old(n) && Same(n, old(m), old(others), old(appended), old(kept))
    {
      hide Owned, Linked, LinkedM, Mapped, Places, Spell, Filled, Store;
      var full := NeedExpanding();
      if full {
        Present(all, n, m, dnodes);
        ExtendList();
      }
      dnode := CurrentDnode();
      if dnode != Null && |dnodes[dnode.laddr]| == D {
        Advance();
        dnode := CurrentDnode();
      }
      if dnode == Null {
        AddPage();
        dnode := CurrentDnode();
      }
      inode := lastM;
    }

    /** pptr_snapshot_dnode, for the current slot: the data page is copied before it is first written after a
      checkpoint. */
    method SnapshotDnode(inode: nat, idx: nat) returns (ret: int)
      requires Valid() && lastM == At(base, inode) && Pos() + 1 == n && idx == inodes[inode].currentIdx
      modifies this, alloc
      ensures Valid() && Pos() + 1 == n && lastM == old(lastM) && all[n - 1].curL != all[n - 1].snapL
      ensures all[n - 1].curL == old(all[n - 1].curL) && dnodes[all[n - 1].curL] == old(dnodes[all[n - 1].curL])
      ensures Same(old(n), old(m), old(others), old(appended), old(kept)) && ret in {0, 1}
    {
      hide Backed, FixedMapper.Valid, Owned, Linked, LinkedM, Mapped, Spell;
      CurrentSlot();
      ret := 0;
      var current, snapshot := inodes[inode].slots[idx].curL, inodes[inode].slots[idx].snapL;
      if current == snapshot && snapshot != 0 {
        var l := GetPage(SnapRef(n - 1));
        SetSnapshot(inode, idx, l);
        ret := 1;
      }
    }

    lemma CurrentSlot()
      requires Whole() && Pos() + 1 == n
      ensures n <= |all| && lastM != Null && lastM.base == base && lastM.laddr == chain[|chain| - 1] && lastM.laddr in inodes
      ensures var i := inodes[lastM.laddr]; i.currentIdx < E == |i.slots| && i.slots[i.currentIdx] == all[n - 1]
      ensures all[n - 1].curL != 0 && all[n - 1].curL in dnodes && all[n - 1].curM == At(base, all[n - 1].curL)
    {
      hide Owned, LinkedM, Spell;
      InodeSlot(chain, inodes, all, |chain| - 1, inodes[lastM.laddr].currentIdx);
    }

    method SetSnapshot(inode: nat, idx: nat, l: nat)
      requires Whole() && lastM == At(base, inode) && Pos() + 1 == n && idx == inodes[inode].currentIdx && l != 0 && l !in own
      requires 0 < n <= |all| && all[n - 1].curL == all[n - 1].snapL
      modifies this
      ensures Whole() && Pos() + 1 == n && lastM == old(lastM) && own == old(own)[l := SnapRef(n - 1)] && n <= |all|
      ensures all[n - 1].curL == old(all[n - 1].curL) && all[n - 1].snapL == l != all[n - 1].curL
      ensures all[n - 1].curL in dnodes && all[n - 1].curL in old(dnodes) && dnodes[all[n - 1].curL] == old(dnodes[all[n - 1].curL])
      ensures Same(old(n), old(m), old(others), old(appended), old(kept))
    {
      hide Owned, Linked, LinkedM, Mapped, Places, Spell, Filled;
      CurrentSlot();
      ListLength(chain, inodes, all);
      ChainDistinct(own, chain, all, n);
      OwnCurrent(own, chain, all, n);
      AddSnapshot(own, chain, all, dnodes, n, m, base, l, n - 1);
      var s := inodes[inode].slots[idx].(snapL := l, snapM := At(base, l));
      var next := inodes[inode].(slots := inodes[inode].slots[idx := s], currentIdx := idx);
      StoreSlot(chain, inodes, all, base, |chain| - 1, idx, s, inodes[inode := next], idx);
      dnodes := dnodes[l := dnodes[inodes[inode].slots[idx].curM.laddr]];
      inodes := inodes[inode := next];
      own, all := own[l := SnapRef(n - 1)], all[n - 1 := s];
    }

    /** pptr_append */
    method Append(e: Entry)
      requires Valid()
      modifies this, alloc
      ensures Valid() && appended == old(appended) + [e] && kept == old(kept) && others == old(others)
    {
      hide Store, Log, Volatile;
      var inode, dnode := GetDnode();
      CurrentSlot();
      var ret := SnapshotDnode(inode.laddr, inodes[inode.laddr].currentIdx);
      CurrentSlot();
      Write(dnode.laddr, e);
    }

    method Write(l: nat, e: Entry)
      requires Whole() && Pos() + 1 == n <= |all| && l == all[n - 1].curL != all[n - 1].snapL && l in dnodes && |dnodes[l]| < D
      modifies this`dnodes, this`appended
      ensures Whole() && appended == old(appended) + [e]
    {
      hide Owned, Linked, LinkedM, Mapped, Spell, Filled;
      WriteEntry(own, chain, all, dnodes, n, m, e);
      dnodes := dnodes[l := dnodes[l] + [e]];
      appended := appended + [e];
    }

    // Checkpoints.

    /** A checkpoint has reached slot `k`: the log is that of the slots `all0` with their pages `own0`, as far as
      the checkpoint has come. */
    ghost predicate Reached(all0: seq<Slot>, own0: map<nat, Ref>, k: nat)
      reads this
    {
      Log(k) && Volatile() && k <= |all0| && all == CheckedTo(all0, k) && own == OwnTo(own0, k)
    }

    /** One slot: its superseded snapshot page is freed, and the current page becomes the snapshot. */
    method CheckSlotAt(inode: nat, idx: nat, ghost i: nat, ghost all0: seq<Slot>, ghost own0: map<nat, Ref>)
      requires Reached(all0, own0, E * i + idx) && Store() && i < |chain| && inode == chain[i] && idx < E
      requires Owned(own0, chain, all0, n) && Places(all0, n, m, 0)
      modifies this`inodes, this`all, this`own, alloc
      ensures Reached(all0, own0, E * i + idx + 1) && Store()
      ensures forall l :: l in inodes ==> l in old(inodes) && inodes[l].nextM == old(inodes)[l].nextM
    {
      hide Owned, Linked, LinkedM, Mapped, Places, Spell, Filled, Backed, FixedMapper.Valid, CheckedTo, OwnTo, CursorOk;
      ghost var k := E * i + idx;
      InodeSlot(chain, inodes, all, i, idx);
      ChainDistinct(own, chain, all, n);
      SlotFacts(own, chain, all, dnodes, n, m, base, k);
      CheckSlot(own, chain, all, dnodes, n, m, base, k);
      CheckNext(own0, chain, all0, n, m, k);
      var s := inodes[inode].slots[idx];
      var next := Checked(s);
      FreeSuperseded(s);
      StoreSlot(chain, inodes, all, base, i, idx, next, inodes[inode := inodes[inode].(slots := inodes[inode].slots[idx := next])], inodes[inode].currentIdx);
      CursorKept(chain, inodes, dnodes, all, n, inode, inodes[inode].(slots := inodes[inode].slots[idx := next]), k, next);
      inodes := inodes[inode := inodes[inode].(slots := inodes[inode].slots[idx := next])];
      all := all[k := next];
    }

    /** A snapshot page that the current page has moved away from goes back to the allocator. */
    method FreeSuperseded(s: Slot)
      requires Store() && (s.curM != Null <==> s.curL != 0) && (s.curL != 0 ==> s.curM == At(base, s.curL))
      requires (s.snapL != 0 ==> s.curL != 0 && s.snapM == At(base, s.snapL)) && (s.curL != 0 && s.snapL == 0 ==> s.snapM == Null || s.snapM == s.curM)
      requires s.curL != 0 && s.snapL != 0 && s.snapL != s.curL ==> s.snapL in own
      modifies alloc, this`own
      ensures Store() && own == Without(old(own), s)
    {
      hide Backed, FixedMapper.Valid;
      if s.curM != Null {
        if s.snapM != Null && s.snapM != s.curM {
          BackedRemove(own, others, alloc.live, s.snapL);
          alloc.FreePages(s.snapM.laddr);
          own := own - {s.snapL};
        }
      }
    }

    /** The loops of pptr_cpoint, stopped after `slots` slots if `stop` is set. */
    method WalkSlots(stop: bool, slots: nat) returns (ghost k: nat)
      requires Valid()
      modifies this`inodes, this`all, this`own, alloc
      ensures Reached(old(all), old(own), k) && Store()
      ensures if stop then k <= slots && (k == slots || k == |all|) else k == |all|
    {
      hide Valid, Store, Log, Volatile, Owned, Places, CheckedTo, OwnTo;
      ghost var all0, own0 := all, own;
      Begin();
      var inode, reached := firstM, 0;
      ghost var i := 0;
      k := 0;
      while inode != Null
        invariant Reached(all0, own0, E * i) && Store() && Owned(own0, chain, all0, n) && Places(all0, n, m, 0)
        invariant 0 <= i <= |chain| && inode == (if i < |chain| then At(base, chain[i]) else Null) && |all0| == E * |chain|
        invariant k == reached == E * i && (stop ==> reached <= slots)
        decreases |chain| - i
      {
        var idx := 0;
        while idx < E
          invariant 0 <= idx <= E && i < |chain| && inode == At(base, chain[i])
          invariant Reached(all0, own0, E * i + idx) && Store() && Owned(own0, chain, all0, n) && Places(all0, n, m, 0)
          invariant k == reached == E * i + idx && (stop ==> reached <= slots)
        {
          if stop && reached == slots {
            return;
          }
          Here(i);
          CheckSlotAt(inode.laddr, idx, i, all0, own0);
          reached, k := reached + 1, k + 1;
          idx := idx + 1;
        }
        Here(i);
        inode := inodes[inode.laddr].nextM;
        i := i + 1;
      }
    }

    lemma Begin()
      requires Valid()
      ensures Reached(all, own, 0) && Store() && firstM == At(base, chain[0]) && |chain| > 0 && |all| == E * |chain|
      ensures Owned(own, chain, all, n) && Places(all, n, m, 0) && Mapped(base, all, n) && Filled(all, dnodes, n)
    {
      hide Owned, LinkedM, Mapped, Places, Spell, Filled, FixedMapper.Valid;
    }

    lemma Begun(all0: seq<Slot>, own0: map<nat, Ref>, k: nat)
      requires Reached(all0, own0, k)
      ensures |all| == |all0| && k <= |all|
    {
      hide Log, Volatile;
    }

    lemma Here(i: nat)
      requires Volatile() && i < |chain|
      ensures chain[i] in inodes && inodes[chain[i]].nextM == (if i + 1 < |chain| then At(base, chain[i + 1]) else Null)
    {
      hide Mapped;
    }

    /** Every slot's snapshot page is its current page, and the pages that were only snapshots are gone. */
    ghost predicate Checkpointed(all0: seq<Slot>, own0: map<nat, Ref>)
      reads this
    {
      && |all| == |all0| && own == OwnTo(own0, |all0|)
      && forall g :: 0 <= g < |all| ==> all[g].curL == all0[g].curL == all[g].snapL
    }

    /** Where a checkpoint has got to, seen as a list of its own: more slots have a snapshot. */
    ghost method Settle(k: nat)
      requires Log(k) && Volatile() && Store()
      modifies this`m, this`kept
      ensures Valid() && m == (if k <= old(m) then old(m) else if k <= n then k else n)
    {
      hide Owned, Linked, LinkedM, Mapped, Spell, Filled, FixedMapper.Valid;
      m := if k <= m then m else if k <= n then k else n;
      kept := Spell(dnodes, all, m, true);
    }

    ghost method Finish(all0: seq<Slot>, own0: map<nat, Ref>)
      requires Reached(all0, own0, |all|) && Store()
      requires Places(all0, n, m, 0) && Mapped(base, all0, n) && Filled(all0, dnodes, n)
      modifies this`m, this`kept
      ensures Valid() && Checkpointed(all0, own0) && m == n && kept == appended
    {
      hide Owned, Linked, LinkedM, Spell, FixedMapper.Valid;
      AllChecked(all0, all, dnodes, n, m, base);
      m, kept := n, appended;
    }

    /** pptr_cpoint */
    method CPoint()
      requires Valid()
      modifies `inodes, `all, `own, `m, `kept, alloc
      ensures Valid() && Checkpointed(old(all), old(own)) && m == n
      ensures chain == old(chain) && dnodes == old(dnodes) && n == old(n) && others == old(others)
      ensures appended == old(appended) && kept == appended
    {
      hide Valid, Store, Reached, Checkpointed, Owned, Places, Mapped, Filled;
      Begin();
      var k := WalkSlots(false, 0);
      assert |all| == |old(all)| by { Begun(old(all), old(own), k); }
      Finish(old(all), old(own));
    }

    // Failures.

    /** What is left when the process is gone: the pages, but no memory address in them is good. */
    ghost predicate Durable()
      reads `firstL, `chain, `inodes, `dnodes, `all, `n, `m, `own, `others, `appended, `kept, alloc
    {
      Store() && Log(0) && Spell(dnodes, all, m, true) == kept && Zeroed(chain, inodes, all, n)
    }

    /** The container will be mapped at another address. */
    method Fail(newBase: nat)
      requires Valid()
      modifies this`base, this`firstM, this`lastM
      ensures Durable() && base == newBase
    {
      hide Owned, Places, Spell, Filled, Mapped, Linked, LinkedM, Zeroed, FixedMapper.Valid;
      NoAddress(base, chain, inodes, all, n);
      base, firstM, lastM := newBase, Null, Null;
    }

    /** The first loop of pptr_map: the inodes are found through their logical addresses. */
    method MapInodes()
      requires Durable()
      modifies this`inodes, this`firstM, this`lastM
      ensures Durable() && |chain| > 0 && LinkedM(base, chain, inodes)
      ensures firstM == At(base, chain[0]) && lastM == At(base, chain[|chain| - 1])
    {
      hide Durable, Linked;
      Listed();
      var inode := firstL;
      firstM := At(base, inode);
      ghost var i := 0;
      while inodes[inode].nextL != 0
        invariant Durable() && Linked(chain, inodes, all) && 0 <= i < |chain| && inode == chain[i] && inode in inodes
        invariant firstM == At(base, chain[0])
        invariant forall j :: 0 <= j < i ==> chain[j] in inodes && inodes[chain[j]].nextM == At(base, chain[j + 1])
        decreases |chain| - i
      {
        assert forall j :: 0 <= j < i ==> chain[j] != chain[i] by { Listed(); }
        var next := inodes[inode].nextL;
        SetNext(inode, next, i);
        inode := next;
        i := i + 1;
      }
      LastInode(i);
      lastM := At(base, inode);
    }

    method SetNext(inode: nat, next: nat, ghost i: nat)
      requires Durable() && i < |chain| && inode == chain[i] && inode in inodes && inodes[inode].nextL == next != 0
      modifies this`inodes
      ensures Durable() && Linked(chain, inodes, all) && i + 1 < |chain| && next == chain[i + 1] && next in inodes
      ensures inodes == old(inodes)[inode := old(inodes)[inode].(nextM := At(base, next))]
    {
      hide Owned, Places, Spell, Filled, Store, Linked;
      Listed();
      LinkNext(chain, inodes, all, i, base);
      inodes := inodes[inode := inodes[inode].(nextM := At(base, next))];
    }

    lemma Listed()
      requires Durable()
      ensures Linked(chain, inodes, all) && firstL == chain[0] && chain[0] in inodes
      ensures |chain| > 0 && forall i, j :: 0 <= i < j < |chain| ==> chain[i] != chain[j]
    {
      hide Places, Spell, Filled, Store;
    }

    lemma LastInode(i: nat)
      requires Durable() && i < |chain| && chain[i] in inodes && inodes[chain[i]].nextL == 0
      requires forall j :: 0 <= j < i ==> chain[j] in inodes && inodes[chain[j]].nextM == At(base, chain[j + 1])
      ensures i == |chain| - 1 && LinkedM(base, chain, inodes)
    {
      hide Places, Spell, Filled, Store, Owned;
      if i < |chain| - 1 { NotLast(chain, inodes, all, i); }
    }

    /** The addresses of one slot. */
    method MapSlot(inode: nat, idx: nat, incomplete: bool, ghost i: nat, ghost all0: seq<Slot>)
      requires Durable() && i < |chain| && inode == chain[i] && idx < E && LinkedM(base, chain, inodes)
      requires E * i + idx < |all0| && all == RemappedTo(base, all0, incomplete, E * i + idx)
      modifies this`inodes, this`all
      ensures Durable() && LinkedM(base, chain, inodes)
      ensures all == RemappedTo(base, all0, incomplete, E * i + idx + 1)
    {
      hide Owned, Linked, LinkedM, Places, Spell, Filled, Store, RemappedTo, CursorOk;
      ghost var k := E * i + idx;
      ChainDistinct(own, chain, all, n);
      InodeSlot(chain, inodes, all, i, idx);
      RemapNext(base, all0, incomplete, k);
      var s := inodes[inode].slots[idx];
      var next := Remapped(base, s, incomplete);
      StoreSlot(chain, inodes, all, base, i, idx, next, inodes[inode := inodes[inode].(slots := inodes[inode].slots[idx := next])], inodes[inode].currentIdx);
      CursorKept(chain, inodes, dnodes, all, n, inode, inodes[inode].(slots := inodes[inode].slots[idx := next]), k, next);
      SamePlaces(own, chain, all, all[k := next], dnodes, n, m, 0);
      EmptyKept(all, n, m, base, incomplete, k);
      inodes := inodes[inode := inodes[inode].(slots := inodes[inode].slots[idx := next])];
      all := all[k := next];
    }

    /** pptr_map, before the roll-forward: every slot's addresses. With CPOINT_COMPLETE the list is whole again exactly
      if no page had been copied since the checkpoint. */
    method MapList(incomplete: bool)
      requires Durable()
      modifies this`inodes, this`all, this`firstM, this`lastM
      ensures SameL(old(all), all) && all == RemappedTo(base, old(all), incomplete, |all|)
      ensures Store() && Log(0) && Spell(dnodes, all, m, true) == kept
      ensures Valid() <==> incomplete || Complete(old(all), n)
    {
      hide Durable, RemappedTo, Whole;
      ghost var all0 := all;
      Surviving();
      MapInodes();
      RemapNone(base, all0, incomplete);
      var inode := firstM;
      ghost var i := 0;
      while inode != Null
        invariant Durable() && LinkedM(base, chain, inodes) && |all0| == E * |chain| && 0 <= i <= |chain|
        invariant inode == if i < |chain| then At(base, chain[i]) else Null
        invariant all == RemappedTo(base, all0, incomplete, E * i)
        invariant firstM == At(base, chain[0]) && lastM == At(base, chain[|chain| - 1])
        decreases |chain| - i
      {
        var idx := 0;
        while idx < E
          invariant 0 <= idx <= E && i < |chain| && inode == At(base, chain[i])
          invariant firstM == At(base, chain[0]) && lastM == At(base, chain[|chain| - 1])
          invariant Durable() && LinkedM(base, chain, inodes) && all == RemappedTo(base, all0, incomplete, E * i + idx)
        {
          MapSlot(inode.laddr, idx, incomplete, i, all0);
          idx := idx + 1;
        }
        inode := inodes[inode.laddr].nextM;
        i := i + 1;
      }
      MappedAgain(base, all0, n, m, 0, incomplete);
      MappedWhole(all0, incomplete);
    }

    lemma Surviving()
      requires Durable()
      ensures Places(all, n, m, 0) && |all| == E * |chain| && forall g :: n <= g < |all| ==> all[g].curM == Null && all[g].snapM == Null
    {
      hide Owned, Places, Spell, Filled, Store;
    }

    lemma MappedWhole(all0: seq<Slot>, incomplete: bool)
      requires Durable() && |chain| > 0 && LinkedM(base, chain, inodes) && all == RemappedTo(base, all0, incomplete, |all0|)
      requires firstM == At(base, chain[0]) && lastM == At(base, chain[|chain| - 1])
      ensures (Valid() <==> Mapped(base, all, n)) && SameL(all0, all) && Store() && Log(0) && Spell(dnodes, all, m, true) == kept
    {
      hide Owned, Places, Spell, Filled, Store, Linked, LinkedM, Mapped;
    }

    // The two ways to complete a checkpoint.

    /** A checkpoint that stops after any number of slots, a failure, and pptr_map with CPOINT_INCOMPLETE: the list
      ends up with the pages that an uninterrupted checkpoint gives it. */
    method RollForward(slots: nat, newBase: nat)
      requires Valid()
      modifies this, alloc
      ensures Valid() && Checkpointed(old(all), old(own)) && m == n && base == newBase
      ensures chain == old(chain) && dnodes == old(dnodes) && n == old(n) && others == old(others)
      ensures appended == old(appended) && kept == appended
    {
      hide Valid, Durable, Store, Log, Volatile, Reached, Checkpointed, CheckedTo, OwnTo, SameL;
      ghost var all0, own0 := all, own;
      var k := WalkSlots(true, slots);
      Begun(all0, own0, k);
      ReachedLog(all0, own0, k);
      Settle(k);
      Fail(newBase);
      ghost var all1 := all;
      MapList(true);
      ghost var all2, own2 := all, own;
      CPoint();
      TwoWalks(all0, own0, all1, all2, k);
    }

    lemma ReachedLog(all0: seq<Slot>, own0: map<nat, Ref>, k: nat)
      requires Reached(all0, own0, k)
      ensures Log(k) && Volatile() && all == CheckedTo(all0, k) && own == OwnTo(own0, k)
    {
    }

    lemma TwoWalks(all0: seq<Slot>, own0: map<nat, Ref>, all1: seq<Slot>, all2: seq<Slot>, k: nat)
      requires all1 == CheckedTo(all0, k) && SameL(all1, all2) && Checkpointed(all2, OwnTo(own0, k)) && k <= |all0|
      ensures Checkpointed(all0, own0)
    {
    }

    ghost predicate Same(n0: nat, m0: nat, others0: set<nat>, appended0: seq<Entry>, kept0: seq<Entry>)
      reads this
    {
      n == n0 && m == m0 && others == others0 && appended == appended0 && kept == kept0
    }
  }

  lemma ListLength(chain: seq<nat>, inodes: map<nat, Inode>, all: seq<Slot>)
    requires Linked(chain, inodes, all)
    ensures |chain| > 0 && |all| == E * |chain| && chain[|chain| - 1] in inodes && chain[0] != 0
  {
  }

  lemma FilledLast(all: seq<Slot>, dnodes: map<nat, seq<Entry>>, n: nat)
    requires Filled(all, dnodes, n) && n > 0
    ensures n <= |all| && all[n - 1].curL in dnodes
  {
  }

  lemma OwnCurrent(own: map<nat, Ref>, chain: seq<nat>, all: seq<Slot>, n: nat)
    requires Owned(own, chain, all, n) && n > 0
    ensures n <= |all| && all[n - 1].curL in own
  {
  }

  lemma SlotFacts(own: map<nat, Ref>, chain: seq<nat>, all: seq<Slot>, dnodes: map<nat, seq<Entry>>, n: nat, m: nat, base: nat, k: nat)
    requires Owned(own, chain, all, n) && Places(all, n, m, k) && Mapped(base, all, n) && k < |all|
    ensures var s := all[k];
      && (s.curM != Null <==> s.curL != 0) && (s.curL != 0 ==> s.curM == At(base, s.curL))
      && (s.snapL != 0 ==> s.curL != 0 && s.snapM == At(base, s.snapL)) && (s.curL != 0 && s.snapL == 0 ==> s.snapM == Null || s.snapM == s.curM)
      && (s.curL != 0 && s.snapL != 0 && s.snapL != s.curL ==> s.snapL in own)
  {
  }

  lemma CheckNext(own: map<nat, Ref>, chain: seq<nat>, all: seq<Slot>, n: nat, m: nat, k: nat)
    requires Owned(own, chain, all, n) && Places(all, n, m, 0) && k < |all|
    ensures OwnTo(own, k + 1) == Without(OwnTo(own, k), all[k])
    ensures CheckedTo(all, k + 1) == CheckedTo(all, k)[k := Checked(all[k])] && CheckedTo(all, k)[k] == all[k]
  {
    hide Owned, OwnTo;
    OwnToNext(own, chain, all, n, k);
  }

  lemma NoAddress(base: nat, chain: seq<nat>, inodes: map<nat, Inode>, all: seq<Slot>, n: nat)
    requires Mapped(base, all, n) && LinkedM(base, chain, inodes) && |chain| > 0
    ensures Zeroed(chain, inodes, all, n)
  {
  }

  lemma RemapNone(base: nat, all: seq<Slot>, incomplete: bool)
    ensures RemappedTo(base, all, incomplete, 0) == all
  {
  }

  lemma RemapNext(base: nat, all: seq<Slot>, incomplete: bool, k: nat)
    requires k < |all|
    ensures RemappedTo(base, all, incomplete, k + 1) == RemappedTo(base, all, incomplete, k)[k := Remapped(base, all[k], incomplete)]
    ensures RemappedTo(base, all, incomplete, k)[k] == all[k]
  {
  }

  lemma EmptyKept(all: seq<Slot>, n: nat, m: nat, base: nat, incomplete: bool, k: nat)
    requires Places(all, n, m, 0) && k < |all| && forall g :: n <= g < |all| ==> all[g].curM == Null && all[g].snapM == Null
    ensures var all' := all[k := Remapped(base, all[k], incomplete)];
      forall g :: n <= g < |all'| ==> all'[g].curM == Null && all'[g].snapM == Null
  {
  }

  lemma NotLast(chain: seq<nat>, inodes: map<nat, Inode>, all: seq<Slot>, i: nat)
    requires Linked(chain, inodes, all) && i < |chain| - 1
    ensures inodes[chain[i]].nextL != 0
  {
    assert chain[i + 1] != 0;
  }

  lemma LinkNext(chain: seq<nat>, inodes: map<nat, Inode>, all: seq<Slot>, i: nat, base: nat)
    requires Linked(chain, inodes, all) && i < |chain| && inodes[chain[i]].nextL != 0
    requires forall i, j :: 0 <= i < j < |chain| ==> chain[i] != chain[j]
    ensures i + 1 < |chain| && inodes[chain[i]].nextL == chain[i + 1] && chain[i + 1] in inodes
    ensures Linked(chain, inodes[chain[i] := inodes[chain[i]].(nextM := At(base, chain[i + 1]))], all)
  {
  }

  // Whole runs.

  datatype Action = Add(e: Entry) | Checkpoint | Torn(slots: nat, newBase: nat)

  /** What has been appended, and what had been at the last checkpoint. A torn checkpoint counts as one. */
  datatype Contents = Contents(all: seq<Entry>, atCheckpoint: seq<Entry>)

  function After(c: Contents, actions: seq<Action>): Contents {
    if actions == [] then c
    else
      var b := After(c, actions[..|actions| - 1]);
      match actions[|actions| - 1]
      case Add(e) => Contents(b.all + [e], b.atCheckpoint)
      case _ => Contents(b.all, b.all)
  }

  /** Over any run the current pages spell everything, and the snapshot pages what there was at the last checkpoint. */
  method Run(h: Head, actions: seq<Action>)
    requires h.Valid()
    modifies h, h.alloc
    ensures h.Valid() && Contents(h.appended, h.kept) == After(old(Contents(h.appended, h.kept)), actions)
    ensures h.others == old(h.others)
  {
    hide Head.Valid, Head.Checkpointed;
    var i := 0;
    assert actions[..0] == [];
    while i < |actions|
      invariant 0 <= i <= |actions| && h.Valid() && h.others == old(h.others)
      invariant Contents(h.appended, h.kept) == After(old(Contents(h.appended, h.kept)), actions[..i])
      decreases |actions| - i
    {
      assert actions[..i + 1][..i] == actions[..i];
      match actions[i] {
        case Add(e) => h.Append(e);
        case Checkpoint => h.CPoint();
        case Torn(slots, newBase) => h.RollForward(slots, newBase);
      }
      i := i + 1;
    }
    assert actions[..i] == actions;
  }

  lemma TakePage(chain: seq<nat>, inodes: map<nat, Inode>, all: seq<Slot>, dnodes: map<nat, seq<Entry>>, own: map<nat, Ref>, n: nat, m: nat, base: nat, l: nat)
    requires Linked(chain, inodes, all) && LinkedM(base, chain, inodes) && CursorOk(chain, inodes, dnodes, all, n) && PosOf(chain, inodes) == n < |all|
    requires Owned(own, chain, all, n) && Places(all, n, m, 0) && Mapped(base, all, n) && Filled(all, dnodes, n) && l !in own && l != 0
    ensures |chain| > 0 && chain[|chain| - 1] in inodes
    ensures var last := chain[|chain| - 1]; var c := inodes[last].currentIdx;
      c < |inodes[last].slots| &&
      var s := inodes[last].slots[c].(curL := l, curM := At(base, l));
      var inodes', all', dnodes' := inodes[last := inodes[last].(slots := inodes[last].slots[c := s], currentIdx := c)], all[n := s], dnodes[l := []];
      && s.curL == l && Linked(chain, inodes', all') && LinkedM(base, chain, inodes') && CursorOk(chain, inodes', dnodes', all', n + 1) && PosOf(chain, inodes') == n
      && Owned(own[l := CurRef(n)], chain, all', n + 1) && Places(all', n + 1, m, 0) && Mapped(base, all', n + 1) && Filled(all', dnodes', n + 1)
      && Spell(dnodes', all', n + 1, false) == Spell(dnodes, all, n, false) && Spell(dnodes', all', m, true) == Spell(dnodes, all, m, true)
  {
    hide Owned, Linked, LinkedM, Mapped, Places, Spell, Filled, CursorOk;
    ListLength(chain, inodes, all);
    ChainDistinct(own, chain, all, n);
    CursorFacts(chain, inodes, dnodes, all, n);
    var last := chain[|chain| - 1];
    var c := inodes[last].currentIdx;
    AddDnode(own, chain, all, dnodes, n, m, base, l);
    InodeSlot(chain, inodes, all, |chain| - 1, c);
    var s := inodes[last].slots[c].(curL := l, curM := At(base, l));
    var inode := inodes[last].(slots := inodes[last].slots[c := s], currentIdx := c);
    StoreSlot(chain, inodes, all, base, |chain| - 1, c, s, inodes[last := inode], c);
    CursorTaken(chain, inodes, dnodes, all, n, inode, s, l);
  }

  lemma Present(all: seq<Slot>, n: nat, m: nat, dnodes: map<nat, seq<Entry>>)
    requires Places(all, n, m, 0)
    ensures n <= |all|
  {
  }

  lemma InodeSlot(chain: seq<nat>, inodes: map<nat, Inode>, all: seq<Slot>, i: nat, k: nat)
    requires Linked(chain, inodes, all) && i < |chain| && k < E
    ensures E * i + k < |all| && chain[i] in inodes && |inodes[chain[i]].slots| == E && inodes[chain[i]].slots[k] == all[E * i + k]
  {
  }

  lemma MoveCursor(chain: seq<nat>, inodes: map<nat, Inode>, all: seq<Slot>, base: nat, i: nat, c: nat)
    requires Linked(chain, inodes, all) && LinkedM(base, chain, inodes) && i < |chain|
    ensures var inodes' := inodes[chain[i] := inodes[chain[i]].(currentIdx := c)];
      Linked(chain, inodes', all) && LinkedM(base, chain, inodes')
  {
  }

  lemma Initial(l: nat, base: nat, inodes: map<nat, Inode>)
    requires l != 0 && inodes == map[l := Inode(0, Null, 0, Zeros())]
    ensures Linked([l], inodes, Zeros()) && LinkedM(base, [l], inodes) && Mapped(base, Zeros(), 0) && Places(Zeros(), 0, 0, 0)
    ensures Filled(Zeros(), map[], 0) && Owned(map[l := InodeRef(0)], [l], Zeros(), 0)
    ensures forall snap :: Spell(map[], Zeros(), 0, snap) == []
  {
  }

  lemma FirstLive(live: set<nat>)
    requires 0 in live
    ensures Backed(map[], live, live)
  {
  }

  lemma {:induction false} SpellMore(dnodes: map<nat, seq<Entry>>, all: seq<Slot>, more: seq<Slot>, n: nat, snap: bool)
    requires n <= |all|
    ensures Spell(dnodes, all + more, n, snap) == Spell(dnodes, all, n, snap)
  {
    if n > 0 { SpellMore(dnodes, all, more, n - 1, snap); }
  }
}
