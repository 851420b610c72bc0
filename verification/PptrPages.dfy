/** The pages of a persistent-pointer list: what each page is for, and what the slots spell. */
module PptrPages {
  import opened Paging
  import opened FixMapper

  // Entries of a dnode page, and slots of an inode page.
  const D := 255
  const E := 127

  datatype Entry = Entry(locSeid: nat, locOffset: nat, valSeid: nat, valOffset: nat)

  /** A memory address: NULL, or an offset from where the container was mapped. */
  datatype Ptr = Null | At(base: nat, laddr: nat)

  datatype Slot = Slot(curM: Ptr, curL: nat, snapM: Ptr, snapL: nat)

  const ZERO := Slot(Null, 0, Null, 0)

  datatype Inode = Inode(currentIdx: nat, nextM: Ptr, nextL: nat, slots: seq<Slot>)

  function Zeros(): (s: seq<Slot>)
    ensures |s| == E && forall k :: 0 <= k < E ==> s[k] == ZERO
  {
    seq(E, _ => ZERO)
  }

  /** What a page is used for: an inode, the current data of a slot, or a snapshot that the slot's current data has
    moved away from. */
  datatype Ref = InodeRef(i: nat) | CurRef(g: nat) | SnapRef(g: nat)

  // The slots of all inodes in list order. The first `n` have a current page; the first `m` had one at the last
  // checkpoint, and so have the first `k` if a checkpoint has reached that far.

  ghost predicate Places(all: seq<Slot>, n: nat, m: nat, k: nat) {
    && m <= n <= |all|
    && (forall g :: 0 <= g < n ==> all[g].curL != 0)
    && (forall g :: 0 <= g < n ==> (all[g].snapL != 0 <==> g < m || g < k))
    && (forall g :: n <= g < |all| ==> all[g].curL == 0 && all[g].snapL == 0)
  }

  ghost predicate Mapped(base: nat, all: seq<Slot>, n: nat) {
    && n <= |all|
    && (forall g :: 0 <= g < n ==> all[g].curM == At(base, all[g].curL))
    && (forall g :: 0 <= g < n && all[g].snapL != 0 ==> all[g].snapM == At(base, all[g].snapL))
    && (forall g :: 0 <= g < n && all[g].snapL == 0 ==> all[g].snapM == Null || all[g].snapM == all[g].curM)
    && (forall g :: n <= g < |all| ==> all[g].curM == Null && all[g].snapM == Null)
  }

  /** Data pages fill up in order. */
  ghost predicate Filled(all: seq<Slot>, dnodes: map<nat, seq<Entry>>, n: nat) {
    && n <= |all|
    && (forall g :: 0 <= g < n ==> all[g].curL in dnodes && |dnodes[all[g].curL]| <= D)
    && (forall g :: 0 <= g < n - 1 ==> |dnodes[all[g].curL]| == D)
    && (forall g :: 0 <= g < n && all[g].snapL != 0 ==> all[g].snapL in dnodes)
  }

  /** Every page has one use, and `own` records it. */
  ghost predicate Owned(own: map<nat, Ref>, chain: seq<nat>, all: seq<Slot>, n: nat) {
    && n <= |all| && 0 !in own
    && (forall i :: 0 <= i < |chain| ==> chain[i] in own && own[chain[i]] == InodeRef(i))
    && (forall g :: 0 <= g < n ==> all[g].curL in own && own[all[g].curL] == CurRef(g))
    && (forall g :: 0 <= g < n && all[g].snapL != 0 && all[g].snapL != all[g].curL ==> all[g].snapL in own && own[all[g].snapL] == SnapRef(g))
    && (forall l :: l in own ==> Used(own[l], l, chain, all, n))
  }

  ghost predicate Used(r: Ref, l: nat, chain: seq<nat>, all: seq<Slot>, n: nat)
    requires n <= |all|
  {
    match r
    case InodeRef(i) => i < |chain| && chain[i] == l
    case CurRef(g) => g < n && all[g].curL == l
    case SnapRef(g) => g < n && all[g].snapL == l && all[g].curL != l
  }

  /** The inodes are linked in the order of `chain` and hold the slots `all`. */
  ghost predicate Linked(chain: seq<nat>, inodes: map<nat, Inode>, all: seq<Slot>) {
    && |chain| > 0 && |all| == E * |chain|
    && (forall i :: 0 <= i < |chain| ==> chain[i] != 0 && chain[i] in inodes && |inodes[chain[i]].slots| == E)
    && (forall i, k :: 0 <= i < |chain| && 0 <= k < E ==> inodes[chain[i]].slots[k] == all[E * i + k])
    && (forall i :: 0 <= i < |chain| - 1 ==> inodes[chain[i]].nextL == chain[i + 1])
    && inodes[chain[|chain| - 1]].nextL == 0
  }

  ghost predicate LinkedM(base: nat, chain: seq<nat>, inodes: map<nat, Inode>) {
    && (forall i :: 0 <= i < |chain| ==> chain[i] in inodes)
    && (forall i :: 0 <= i < |chain| - 1 ==> inodes[chain[i]].nextM == At(base, chain[i + 1]))
    && (|chain| > 0 ==> inodes[chain[|chain| - 1]].nextM == Null)
  }

  /** The position of the last inode's current slot. */
  ghost function PosOf(chain: seq<nat>, inodes: map<nat, Inode>): int
    requires |chain| > 0 && chain[|chain| - 1] in inodes
  {
    E * (|chain| - 1) + inodes[chain[|chain| - 1]].currentIdx
  }

  /** The current slot is the last one that has a page, or the next one if that page is full. */
  ghost predicate CursorOk(chain: seq<nat>, inodes: map<nat, Inode>, dnodes: map<nat, seq<Entry>>, all: seq<Slot>, n: nat) {
    && |chain| > 0 && chain[|chain| - 1] in inodes
    && PosOf(chain, inodes) <= n <= PosOf(chain, inodes) + 1 && inodes[chain[|chain| - 1]].currentIdx < E
    && (PosOf(chain, inodes) == n && n > 0 ==> n <= |all| && all[n - 1].curL in dnodes && |dnodes[all[n - 1].curL]| == D)
  }

  lemma CursorKept(chain: seq<nat>, inodes: map<nat, Inode>, dnodes: map<nat, seq<Entry>>, all: seq<Slot>, n: nat, l: nat, inode: Inode, k: nat, s: Slot)
    requires CursorOk(chain, inodes, dnodes, all, n) && l in inodes && inode.currentIdx == inodes[l].currentIdx
    requires k < |all| && s.curL == all[k].curL
    ensures CursorOk(chain, inodes[l := inode], dnodes, all[k := s], n) && PosOf(chain, inodes[l := inode]) == PosOf(chain, inodes)
  {
  }

  lemma CursorFacts(chain: seq<nat>, inodes: map<nat, Inode>, dnodes: map<nat, seq<Entry>>, all: seq<Slot>, n: nat)
    requires CursorOk(chain, inodes, dnodes, all, n)
    ensures inodes[chain[|chain| - 1]].currentIdx < E
    ensures PosOf(chain, inodes) == n && n > 0 ==> n <= |all| && all[n - 1].curL in dnodes && |dnodes[all[n - 1].curL]| == D
  {
  }

  lemma CursorTaken(chain: seq<nat>, inodes: map<nat, Inode>, dnodes: map<nat, seq<Entry>>, all: seq<Slot>, n: nat, inode: Inode, s: Slot, l: nat)
    requires CursorOk(chain, inodes, dnodes, all, n) && PosOf(chain, inodes) == n < |all|
    requires inode.currentIdx == inodes[chain[|chain| - 1]].currentIdx
    ensures var inodes' := inodes[chain[|chain| - 1] := inode];
      CursorOk(chain, inodes', dnodes[l := []], all[n := s], n + 1) && PosOf(chain, inodes') == n
  {
  }

  lemma CursorExtended(chain: seq<nat>, inodes: map<nat, Inode>, dnodes: map<nat, seq<Entry>>, all: seq<Slot>, n: nat, l: nat, inodes': map<nat, Inode>)
    requires |chain| > 0 && |all| == E * |chain| == n && all[n - 1].curL in dnodes && |dnodes[all[n - 1].curL]| == D
    ensures var inodes'' := inodes'[l := Inode(0, Null, 0, Zeros())];
      CursorOk(chain + [l], inodes'', dnodes, all + Zeros(), n) && PosOf(chain + [l], inodes'') == n
  {
  }

  /** What a sequence of data pages spells. */
  function Spell(dnodes: map<nat, seq<Entry>>, all: seq<Slot>, n: nat, snap: bool): (s: seq<Entry>)
    requires n <= |all|
  {
    if n == 0 then []
    else
      var l := if snap then all[n - 1].snapL else all[n - 1].curL;
      Spell(dnodes, all, n - 1, snap) + if l in dnodes then dnodes[l] else []
  }

  lemma {:induction false} SpellSame(d: map<nat, seq<Entry>>, d': map<nat, seq<Entry>>, all: seq<Slot>, all': seq<Slot>, n: nat, snap: bool, snap': bool)
    requires n <= |all| && n <= |all'|
    requires forall g :: 0 <= g < n ==> (if snap then all[g].snapL else all[g].curL) in d
    requires forall g :: 0 <= g < n ==> (if snap' then all'[g].snapL else all'[g].curL) in d'
    requires forall g :: 0 <= g < n ==> d'[if snap' then all'[g].snapL else all'[g].curL] == d[if snap then all[g].snapL else all[g].curL]
    ensures Spell(d', all', n, snap') == Spell(d, all, n, snap)
  {
    if n > 0 {
      SpellSame(d, d', all, all', n - 1, snap, snap');
      assert d'[if snap' then all'[n - 1].snapL else all'[n - 1].curL] == d[if snap then all[n - 1].snapL else all[n - 1].curL];
    }
  }

  // One checkpoint, slot by slot.

  function Checked(s: Slot): Slot {
    if s.curM == Null then s else s.(snapL := s.curL, snapM := s.curM)
  }

  /** The slots after a checkpoint has been through the first `k`. */
  function CheckedTo(all: seq<Slot>, k: nat): (r: seq<Slot>)
    ensures |r| == |all|
    ensures forall g :: 0 <= g < |all| ==> r[g] == if g < k then Checked(all[g]) else all[g]
  {
    seq(|all|, g requires 0 <= g < |all| => if g < k then Checked(all[g]) else all[g])
  }

  /** The pages that are left when the superseded snapshots of the first `k` slots have been freed. */
  function OwnTo(own: map<nat, Ref>, k: nat): map<nat, Ref> {
    map l | l in own && !(own[l].SnapRef? && own[l].g < k) :: own[l]
  }

  // The allocator's live pages are those of the list and those of everything else in the container; among the
  // latter is page 0, so no page of the list has address 0.

  ghost predicate Backed(own: map<nat, Ref>, others: set<nat>, live: set<nat>) {
    && 0 in others
    && (forall l :: l in own ==> l % PAGE_SIZE == 0)
    && (forall p: nat :: p in live <==> p in others || p * PAGE_SIZE in own)
    && (forall p: nat :: p in others ==> p * PAGE_SIZE !in own)
  }

  lemma BackedAdd(own: map<nat, Ref>, others: set<nat>, live: set<nat>, l: nat, r: Ref)
    requires Backed(own, others, live) && l % PAGE_SIZE == 0 && l / PAGE_SIZE !in live
    ensures l != 0 && l !in own && Backed(own[l := r], others, live + {l / PAGE_SIZE})
  {
    assert l / PAGE_SIZE * PAGE_SIZE == l;
  }

  lemma BackedRemove(own: map<nat, Ref>, others: set<nat>, live: set<nat>, l: nat)
    requires Backed(own, others, live) && l in own
    ensures l % PAGE_SIZE == 0 && l / PAGE_SIZE in live && Backed(own - {l}, others, live - {l / PAGE_SIZE})
  {
    assert l / PAGE_SIZE * PAGE_SIZE == l;
  }

  // The steps of an append, on the slots.

  /** An inode joins the list. */
  lemma AddInode(own: map<nat, Ref>, chain: seq<nat>, all: seq<Slot>, dnodes: map<nat, seq<Entry>>, n: nat, m: nat, k: nat, base: nat, l: nat)
    requires Owned(own, chain, all, n) && Places(all, n, m, k) && Mapped(base, all, n) && Filled(all, dnodes, n) && l !in own && l != 0
    ensures Owned(own[l := InodeRef(|chain|)], chain + [l], all + Zeros(), n)
    ensures Places(all + Zeros(), n, m, k) && Mapped(base, all + Zeros(), n) && Filled(all + Zeros(), dnodes, n)
  {
    var own', chain', all' := own[l := InodeRef(|chain|)], chain + [l], all + Zeros();
    forall x | x in own'
      ensures Used(own'[x], x, chain', all', n)
    {
      if x != l { assert Used(own[x], x, chain, all, n); }
    }
  }

  lemma LinkInode(chain: seq<nat>, inodes: map<nat, Inode>, all: seq<Slot>, base: nat, l: nat, inodes': map<nat, Inode>)
    requires Linked(chain, inodes, all) && LinkedM(base, chain, inodes) && l != 0 && l !in chain
    requires forall i, j :: 0 <= i < j < |chain| ==> chain[i] != chain[j]
    requires var last := chain[|chain| - 1]; inodes' == inodes[last := inodes[last].(nextL := l, nextM := At(base, l))][l := Inode(0, Null, 0, Zeros())]
    ensures Linked(chain + [l], inodes', all + Zeros()) && LinkedM(base, chain + [l], inodes')
  {
    LinkSlots(chain, inodes, all, l, inodes');
    var c, chain' := |chain|, chain + [l];
    forall i | 0 <= i < c
      ensures chain'[i] == chain[i] && chain[i] in inodes' && chain[i] != l
    {
    }
    forall i | 0 <= i < c - 1
      ensures inodes'[chain'[i]] == inodes[chain[i]] && inodes[chain[i]].nextL == chain[i + 1]
    {
    }
  }

  lemma LinkSlots(chain: seq<nat>, inodes: map<nat, Inode>, all: seq<Slot>, l: nat, inodes': map<nat, Inode>)
    requires Linked(chain, inodes, all) && l !in chain && l in inodes' && inodes'[l].slots == Zeros()
    requires forall i :: 0 <= i < |chain| ==> chain[i] in inodes' && inodes'[chain[i]].slots == inodes[chain[i]].slots
    ensures forall i, k :: 0 <= i <= |chain| && 0 <= k < E ==> inodes'[(chain + [l])[i]].slots[k] == (all + Zeros())[E * i + k]
  {
    forall i, k | 0 <= i <= |chain| && 0 <= k < E
      ensures inodes'[(chain + [l])[i]].slots[k] == (all + Zeros())[E * i + k]
    {
      if i < |chain| {
        assert inodes[chain[i]].slots[k] == all[E * i + k];
      }
    }
  }

  lemma ChainDistinct(own: map<nat, Ref>, chain: seq<nat>, all: seq<Slot>, n: nat)
    requires Owned(own, chain, all, n)
    ensures forall i, j :: 0 <= i < j < |chain| ==> chain[i] != chain[j]
    ensures forall l :: l !in own ==> l !in chain
  {
  }

  /** Slot `g` of the list is slot `g - E * i` of inode `i`. */
  lemma StoreSlot(chain: seq<nat>, inodes: map<nat, Inode>, all: seq<Slot>, base: nat, i: nat, k: nat, s: Slot, inodes': map<nat, Inode>, c: nat)
    requires Linked(chain, inodes, all) && LinkedM(base, chain, inodes) && i < |chain| && k < E
    requires forall i, j :: 0 <= i < j < |chain| ==> chain[i] != chain[j]
    requires inodes' == inodes[chain[i] := inodes[chain[i]].(slots := inodes[chain[i]].slots[k := s], currentIdx := c)]
    ensures E * i + k < |all| && Linked(chain, inodes', all[E * i + k := s]) && LinkedM(base, chain, inodes')
  {
    assert E * i + k < |all|;
    var all' := all[E * i + k := s];
    forall j, x | 0 <= j < |chain| && 0 <= x < E
      ensures inodes'[chain[j]].slots[x] == all'[E * j + x]
    {
      SameSlot(i, k, j, x);
    }
  }

  lemma SameSlot(i: nat, k: nat, j: nat, x: nat)
    requires k < E && x < E
    ensures E * i + k == E * j + x <==> i == j && k == x
  {
  }

  /** The next slot gets a data page. */
  lemma OwnDnode(own: map<nat, Ref>, chain: seq<nat>, all: seq<Slot>, n: nat, l: nat, s: Slot)
    requires Owned(own, chain, all, n) && n < |all| && all[n].snapL == 0 && l !in own && l != 0 && s.curL == l && s.snapL == 0
    ensures Owned(own[l := CurRef(n)], chain, all[n := s], n + 1)
  {
    var all', own' := all[n := s], own[l := CurRef(n)];
    forall x | x in own'
      ensures Used(own'[x], x, chain, all', n + 1)
    {
      if x != l { assert Used(own[x], x, chain, all, n); }
    }
  }

  lemma NewPage(own: map<nat, Ref>, chain: seq<nat>, all: seq<Slot>, n: nat, l: nat)
    requires Owned(own, chain, all, n) && l !in own
    ensures forall g :: 0 <= g < n ==> all[g].curL != l
    ensures forall g :: 0 <= g < n && all[g].snapL != 0 ==> all[g].snapL != l
  {
    assert forall g :: 0 <= g < n ==> all[g].curL in own;
  }

  lemma SpellDnode(all: seq<Slot>, dnodes: map<nat, seq<Entry>>, n: nat, m: nat, l: nat, s: Slot)
    requires m <= n < |all| && Places(all, n, m, 0) && Filled(all, dnodes, n) && s.curL == l
    requires forall g :: 0 <= g < n ==> all[g].curL != l
    requires forall g :: 0 <= g < n && all[g].snapL != 0 ==> all[g].snapL != l
    ensures Spell(dnodes[l := []], all[n := s], n + 1, false) == Spell(dnodes, all, n, false)
    ensures Spell(dnodes[l := []], all[n := s], m, true) == Spell(dnodes, all, m, true)
  {
    SpellSame(dnodes, dnodes[l := []], all, all[n := s], n, false, false);
    SpellSame(dnodes, dnodes[l := []], all, all[n := s], m, true, true);
  }

  lemma AddDnode(own: map<nat, Ref>, chain: seq<nat>, all: seq<Slot>, dnodes: map<nat, seq<Entry>>, n: nat, m: nat, base: nat, l: nat)
    requires Owned(own, chain, all, n) && Places(all, n, m, 0) && Mapped(base, all, n) && Filled(all, dnodes, n) && l !in own && l != 0
    requires n < |all| && (n > 0 ==> |dnodes[all[n - 1].curL]| == D)
    ensures var all', dnodes' := all[n := all[n].(curL := l, curM := At(base, l))], dnodes[l := []];
      && Owned(own[l := CurRef(n)], chain, all', n + 1) && Places(all', n + 1, m, 0) && Mapped(base, all', n + 1) && Filled(all', dnodes', n + 1)
      && Spell(dnodes', all', n + 1, false) == Spell(dnodes, all, n, false) && Spell(dnodes', all', m, true) == Spell(dnodes, all, m, true)
  {
    hide Owned, Spell;
    var s := all[n].(curL := l, curM := At(base, l));
    NewPage(own, chain, all, n, l);
    OwnDnode(own, chain, all, n, l, s);
    SpellDnode(all, dnodes, n, m, l, s);
  }

  /** A slot whose data page is also its snapshot gets a copy of it for a snapshot. */
  lemma AddSnapshot(own: map<nat, Ref>, chain: seq<nat>, all: seq<Slot>, dnodes: map<nat, seq<Entry>>, n: nat, m: nat, base: nat, l: nat, g: nat)
    requires Owned(own, chain, all, n) && Places(all, n, m, 0) && Mapped(base, all, n) && Filled(all, dnodes, n) && l !in own && l != 0
    requires g < n && all[g].curL == all[g].snapL
    ensures var all', dnodes' := all[g := all[g].(snapL := l, snapM := At(base, l))], dnodes[l := dnodes[all[g].curL]];
      && Owned(own[l := SnapRef(g)], chain, all', n) && Places(all', n, m, 0) && Mapped(base, all', n) && Filled(all', dnodes', n)
      && Spell(dnodes', all', n, false) == Spell(dnodes, all, n, false) && Spell(dnodes', all', m, true) == Spell(dnodes, all, m, true)
  {
    hide Owned, Spell;
    var s := all[g].(snapL := l, snapM := At(base, l));
    NewPage(own, chain, all, n, l);
    OwnSnapshot(own, chain, all, n, l, g, s);
    SpellSame(dnodes, dnodes[l := dnodes[all[g].curL]], all, all[g := s], n, false, false);
    SpellSame(dnodes, dnodes[l := dnodes[all[g].curL]], all, all[g := s], m, true, true);
  }

  lemma OwnSnapshot(own: map<nat, Ref>, chain: seq<nat>, all: seq<Slot>, n: nat, l: nat, g: nat, s: Slot)
    requires Owned(own, chain, all, n) && l !in own && l != 0 && g < n && all[g].curL == all[g].snapL && s.curL == all[g].curL && s.snapL == l
    ensures Owned(own[l := SnapRef(g)], chain, all[g := s], n)
  {
    var all', own' := all[g := s], own[l := SnapRef(g)];
    forall x | x in own'
      ensures Used(own'[x], x, chain, all', n)
    {
      if x != l { assert Used(own[x], x, chain, all, n); }
    }
  }

  /** An entry is written to the last data page, which is not a snapshot. */
  lemma WriteEntry(own: map<nat, Ref>, chain: seq<nat>, all: seq<Slot>, dnodes: map<nat, seq<Entry>>, n: nat, m: nat, e: Entry)
    requires Owned(own, chain, all, n) && Places(all, n, m, 0) && Filled(all, dnodes, n) && n > 0
    requires all[n - 1].curL != all[n - 1].snapL && |dnodes[all[n - 1].curL]| < D
    ensures var l := all[n - 1].curL; var dnodes' := dnodes[l := dnodes[l] + [e]];
      && Filled(all, dnodes', n)
      && Spell(dnodes', all, n, false) == Spell(dnodes, all, n, false) + [e] && Spell(dnodes', all, m, true) == Spell(dnodes, all, m, true)
  {
    hide Spell;
    var l := all[n - 1].curL;
    var dnodes' := dnodes[l := dnodes[l] + [e]];
    LastPage(own, chain, all, n);
    SpellSame(dnodes, dnodes', all, all, n - 1, false, false);
    SpellSame(dnodes, dnodes', all, all, m, true, true);
    SpellLast(dnodes, all, n);
    SpellLast(dnodes', all, n);
  }

  lemma LastPage(own: map<nat, Ref>, chain: seq<nat>, all: seq<Slot>, n: nat)
    requires Owned(own, chain, all, n) && 0 < n && all[n - 1].curL != all[n - 1].snapL
    ensures forall g :: 0 <= g < n - 1 ==> all[g].curL != all[n - 1].curL
    ensures forall g :: 0 <= g < n && all[g].snapL != 0 ==> all[g].snapL != all[n - 1].curL
  {
    forall g | 0 <= g < n && all[g].snapL != 0
      ensures all[g].snapL != all[n - 1].curL
    {
      if all[g].snapL == all[g].curL { assert own[all[g].curL] == CurRef(g); }
    }
  }

  lemma SpellLast(dnodes: map<nat, seq<Entry>>, all: seq<Slot>, n: nat)
    requires 0 < n <= |all| && all[n - 1].curL in dnodes
    ensures Spell(dnodes, all, n, false) == Spell(dnodes, all, n - 1, false) + dnodes[all[n - 1].curL]
  {
  }

  // One slot of a checkpoint.

  function Without(own: map<nat, Ref>, s: Slot): map<nat, Ref> {
    if s.curL != 0 && s.snapL != 0 && s.snapL != s.curL then own - {s.snapL} else own
  }

  lemma CheckSlot(own: map<nat, Ref>, chain: seq<nat>, all: seq<Slot>, dnodes: map<nat, seq<Entry>>, n: nat, m: nat, base: nat, k: nat)
    requires Owned(own, chain, all, n) && Places(all, n, m, k) && Mapped(base, all, n) && Filled(all, dnodes, n) && k < |all|
    ensures var all' := all[k := Checked(all[k])];
      && Owned(Without(own, all[k]), chain, all', n) && Places(all', n, m, k + 1) && Mapped(base, all', n) && Filled(all', dnodes, n)
      && Spell(dnodes, all', n, false) == Spell(dnodes, all, n, false)
  {
    hide Owned, Spell;
    var all' := all[k := Checked(all[k])];
    OwnCheck(own, chain, all, n, k, Checked(all[k]));
    SpellSame(dnodes, dnodes, all, all', n, false, false);
  }

  lemma OwnCheck(own: map<nat, Ref>, chain: seq<nat>, all: seq<Slot>, n: nat, k: nat, s: Slot)
    requires Owned(own, chain, all, n) && k < |all| && (k < n <==> all[k].curL != 0)
    requires s.curL == all[k].curL && (k < n ==> s.snapL == all[k].curL)
    ensures Owned(Without(own, all[k]), chain, all[k := s], n)
  {
    var own', all' := Without(own, all[k]), all[k := s];
    forall x | x in own'
      ensures Used(own'[x], x, chain, all', n)
    {
      assert Used(own[x], x, chain, all, n);
    }
  }

  /** A superseded snapshot is known by its use. */
  lemma OwnToNext(own: map<nat, Ref>, chain: seq<nat>, all: seq<Slot>, n: nat, k: nat)
    requires Owned(own, chain, all, n) && k < |all| && (k < n <==> all[k].curL != 0)
    ensures OwnTo(own, k + 1) == Without(OwnTo(own, k), all[k])
  {
    forall l | l in own
      ensures own[l] == SnapRef(k) <==> (all[k].curL != 0 && all[k].snapL != 0 && all[k].snapL != all[k].curL && l == all[k].snapL)
    {
      assert Used(own[l], l, chain, all, n);
    }
  }

  /** When all slots have been checkpointed, the snapshots are the current pages. */
  lemma AllChecked(all: seq<Slot>, all': seq<Slot>, dnodes: map<nat, seq<Entry>>, n: nat, m: nat, base: nat)
    requires Places(all, n, m, 0) && Mapped(base, all, n) && Filled(all, dnodes, n) && all' == CheckedTo(all, |all|)
    requires Places(all', n, m, |all|)
    ensures Places(all', n, n, 0) && Spell(dnodes, all', n, true) == Spell(dnodes, all', n, false)
  {
    SpellSame(dnodes, dnodes, all', all', n, false, true);
  }

  // Mapping the list again.

  function Remapped(base: nat, s: Slot, incomplete: bool): Slot {
    var t := if s.curL != 0 then s.(curM := At(base, s.curL), snapM := At(base, s.curL)) else s;
    if incomplete && t.snapL != 0 then t.(snapM := At(base, t.snapL)) else t
  }

  function RemappedTo(base: nat, all: seq<Slot>, incomplete: bool, k: nat): (r: seq<Slot>)
    ensures |r| == |all|
    ensures forall g :: 0 <= g < |all| ==> r[g] == if g < k then Remapped(base, all[g], incomplete) else all[g]
  {
    seq(|all|, g requires 0 <= g < |all| => if g < k then Remapped(base, all[g], incomplete) else all[g])
  }

  /** What survives in the pages of the memory addresses: the empty slots and the end of the list are NULL. */
  ghost predicate Zeroed(chain: seq<nat>, inodes: map<nat, Inode>, all: seq<Slot>, n: nat) {
    && (forall g :: n <= g < |all| ==> all[g].curM == Null && all[g].snapM == Null)
    && |chain| > 0 && chain[|chain| - 1] in inodes && inodes[chain[|chain| - 1]].nextM == Null
  }

  /** No snapshot is another page than the current one. */
  ghost predicate Complete(all: seq<Slot>, n: nat) {
    n <= |all| && forall g :: 0 <= g < n ==> all[g].snapL == 0 || all[g].snapL == all[g].curL
  }

  /** The memory addresses are again those of the logical ones, except that CPOINT_COMPLETE takes the current page for
    every snapshot. */
  lemma MappedAgain(base: nat, all: seq<Slot>, n: nat, m: nat, k: nat, incomplete: bool)
    requires Places(all, n, m, k) && forall g :: n <= g < |all| ==> all[g].curM == Null && all[g].snapM == Null
    ensures Mapped(base, RemappedTo(base, all, incomplete, |all|), n) <==> incomplete || Complete(all, n)
  {
    var all' := RemappedTo(base, all, incomplete, |all|);
    if !incomplete && !Complete(all, n) {
      var g :| 0 <= g < n && all[g].snapL != 0 && all[g].snapL != all[g].curL;
      assert all'[g] == Remapped(base, all[g], incomplete);
    }
  }

  /** The logical addresses do not change. */
  ghost predicate SameL(a: seq<Slot>, b: seq<Slot>) {
    |a| == |b| && forall g :: 0 <= g < |a| ==> a[g].curL == b[g].curL && a[g].snapL == b[g].snapL
  }

  lemma SamePlaces(own: map<nat, Ref>, chain: seq<nat>, all: seq<Slot>, all': seq<Slot>, dnodes: map<nat, seq<Entry>>, n: nat, m: nat, k: nat)
    requires SameL(all, all') && Owned(own, chain, all, n) && Places(all, n, m, k) && Filled(all, dnodes, n)
    ensures Owned(own, chain, all', n) && Places(all', n, m, k) && Filled(all', dnodes, n)
    ensures Spell(dnodes, all', n, false) == Spell(dnodes, all, n, false)
    ensures k == 0 ==> Spell(dnodes, all', m, true) == Spell(dnodes, all, m, true)
  {
    hide Owned, Spell;
    SameOwned(own, chain, all, all', n);
    SpellSame(dnodes, dnodes, all, all', n, false, false);
    if k == 0 { SpellSame(dnodes, dnodes, all, all', m, true, true); }
  }

  lemma SameOwned(own: map<nat, Ref>, chain: seq<nat>, all: seq<Slot>, all': seq<Slot>, n: nat)
    requires SameL(all, all') && Owned(own, chain, all, n)
    ensures Owned(own, chain, all', n)
  {
    forall x | x in own
      ensures Used(own[x], x, chain, all', n)
    {
      assert Used(own[x], x, chain, all, n);
    }
  }
}
