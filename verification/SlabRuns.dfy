/** Slabs over the life of their containers: several containers in a process, and processes one after the other. The
  counter that ids are taken from belongs to the process, and is not stored in the container. */
module SlabRuns {
  import opened Paging
  import opened Wrappers
  import opened SlabShape
  import opened SlabPtrs
  import opened SlabCells
  import opened Slab

  /** An entry is initialised in this slab, or in the slab of another container of the process; or the container is
    mapped by a new process. */
  datatype Action = Take(maddr: nat, size: nat) | Elsewhere | Restart

  /** Whenever an entry is initialised in this slab, the counter `c` is, modulo the capacity, the number `n` of entries
    that already are. */
  predicate CountersFit(c: nat, n: nat, actions: seq<Action>)
    decreases actions
  {
    if actions == [] then true
    else
      match actions[0]
      case Take(_, _) =>
        if n == CAPACITY then CountersFit(c, n, actions[1..])
        else c % CAPACITY == n && CountersFit(Next(c), n + 1, actions[1..])
      case Elsewhere => CountersFit(Next(c), n, actions[1..])
      case Restart => CountersFit(0, n, actions[1..])
  }

  /** The pages of new entries are pages that the slab does not have yet. */
  ghost predicate NewPages(actions: seq<Action>, tree: set<nat>) {
    && (forall i :: 0 <= i < |actions| && actions[i].Take? ==> actions[i].maddr != 0 && actions[i].maddr % PAGE_SIZE == 0 && actions[i].maddr !in tree)
    && (forall i, j :: 0 <= i < j < |actions| && actions[i].Take? && actions[j].Take? ==> actions[i].maddr != actions[j].maddr)
  }

  lemma NewPagesRest(actions: seq<Action>, tree: set<nat>, tree': set<nat>)
    requires NewPages(actions, tree) && actions != []
    requires tree' <= if actions[0].Take? then tree + {actions[0].maddr} else tree
    ensures NewPages(actions[1..], tree')
  {
    var rest := actions[1..];
    assert actions[1..][..] == rest;
    assert forall i | 0 <= i < |rest| :: rest[i] == actions[i + 1];
  }

  method Act(s: Slab, p: Process, a: Action)
    requires s.Valid() && (a.Take? ==> a.maddr != 0 && a.maddr % PAGE_SIZE == 0 && a.maddr !in s.tree)
    modifies s, s.all, p
    ensures s.Valid() && s.tree.Keys <= if a.Take? then old(s.tree.Keys) + {a.maddr} else old(s.tree.Keys)
    ensures forall e <- s.all :: e in old(s.all) || fresh(e)
    ensures forall rest :: Named(s.EntryIds()) && CountersFit(p.nextId, s.n, rest) <==> old(Named(s.EntryIds())) && CountersFit(old(p.nextId), old(s.n), [a] + rest)
  {
    hide Slab.Valid, Named;
    match a {
      case Take(maddr, size) =>
        var se := s.NewEntry(p, maddr, size);
      case Elsewhere =>
        var id := p.GetNextId();
      case Restart =>
        p.nextId := 0;
    }
    assert forall rest: seq<Action> :: ([a] + rest)[1..] == rest;
  }

  /** Over any run every initialised entry is found by its id exactly if all were at first and the counter fitted each
    time an entry was initialised. */
  method Run(s: Slab, p: Process, actions: seq<Action>)
    requires s.Valid() && NewPages(actions, s.tree.Keys)
    modifies s, s.all, p
    ensures s.Valid() && (Named(s.EntryIds()) <==> old(Named(s.EntryIds()) && CountersFit(p.nextId, s.n, actions)))
  {
    hide Slab.Valid, Named, NewPages, Slab.EntryIds;
    var i := 0;
    assert actions[0..] == actions;
    while i < |actions|
      invariant 0 <= i <= |actions| && s.Valid() && NewPages(actions[i..], s.tree.Keys)
      invariant old(Named(s.EntryIds()) && CountersFit(p.nextId, s.n, actions)) <==> Named(s.EntryIds()) && CountersFit(p.nextId, s.n, actions[i..])
      invariant forall k :: 0 <= k < |s.all| ==> s.all[k] in old(s.all) || fresh(s.all[k])
      decreases |actions| - i
    {
      ghost var rest, pages, all := actions[i..], s.tree.Keys, s.all;
      assert rest[0] == actions[i] && rest == [actions[i]] + actions[i + 1..];
      FirstPage(rest, pages);
      Act(s, p, actions[i]);
      assert forall e <- all :: e in old(s.all) || fresh(e);
      NewPagesRest(rest, pages, s.tree.Keys);
      i := i + 1;
    }
  }

  lemma FirstPage(actions: seq<Action>, tree: set<nat>)
    requires NewPages(actions, tree) && actions != []
    ensures actions[0].Take? ==> actions[0].maddr != 0 && actions[0].maddr % PAGE_SIZE == 0 && actions[0].maddr !in tree
  {
  }

  /** For the first container of a process, as long as it is the only one, the counter fits. */
  lemma {:induction false} AloneFits(n: nat, actions: seq<Action>)
    requires n <= CAPACITY && forall a <- actions :: a.Take?
    ensures n == CAPACITY || CountersFit(n, n, actions)
    decreases actions
  {
    if actions != [] && n < CAPACITY {
      if n + 1 < CAPACITY {
        AloneFits(n + 1, actions[1..]);
      } else {
        FullFits(Next(n), actions[1..]);
      }
    }
  }

  lemma {:induction false} FullFits(c: nat, actions: seq<Action>)
    requires forall a <- actions :: a.Take?
    ensures CountersFit(c, CAPACITY, actions)
  {
    if actions != [] { FullFits(c, actions[1..]); }
  }

  // Two histories in which it does not.

  /** The location `loc`, now in page `i`, points to where `v` points, now in page `q`. */
  ghost predicate PointsTo(mem: Memory, places: seq<nat>, i: nat, loc: nat, q: nat, v: nat) {
    && i < |places| && q < |places| && places[i] + (loc - RoundDown(loc)) in mem
    && mem[places[i] + (loc - RoundDown(loc))] == places[q] + (v - RoundDown(v))
  }

  /** A pointer is recorded, and the container is mapped again: the pointer is where the id of its target leads, the page
    of entry `q`. */
  method RecordAndRestore(s: Slab, loc: nat, v: nat, ghost i: nat, ghost j: nat, ghost q: nat, places: seq<nat>, newMem: Memory)
    requires s.Ready() && i < s.n && j < s.n && s.n <= |s.all| && v != 0
    requires s.all[i].maddr == RoundDown(loc) && s.all[j].maddr == RoundDown(v)
    requires AllInPage(Cells(s.all)) && |s.all[i].ptrs| < ROOM
    requires |places| == s.n && Apart(places) && s.all[j].id % CAPACITY == q < s.n
    modifies s, s.all
    ensures s.Ready() && s.all == old(s.all) && s.n == old(s.n)
    ensures PointsTo(s.mem, places, i, loc, q, v)
  {
    hide Slab.Valid, AllInPage, RoundDown, Apart, Landing, IndexOf, Inserted, Fixed, Rewritten, PointsTo;
    ghost var cells, seen := Cells(s.all), s.seen;
    s.AtPage(i);
    s.AtPage(j);
    s.mem := s.mem[loc := v];
    var r := s.InsertPointer(loc);
    InsertedFacts(cells, seen, s.n, loc, v, Cells(s.all), s.seen, i, j);
    ghost var cells', ids := Cells(s.all), s.EntryIds();
    s.Restore(places, newMem);
    FixedFacts(s.mem, places, cells', ids, s.Look(), i, j, loc, v);
  }

  lemma InsertedFacts(cells: seq<Cell>, seen: map<(nat, nat), Target>, n: nat, loc: nat, v: nat, cells': seq<Cell>, seen': map<(nat, nat), Target>, i: nat, j: nat)
    requires Inserted(cells, seen, n, loc, v, cells', seen') && AllInPage(cells) && n <= |cells| && v != 0
    requires IndexOf(Maddrs(cells, n), RoundDown(loc)) == i && IndexOf(Maddrs(cells, n), RoundDown(v)) == j && |cells[i].ptrs| < ROOM
    ensures AllInPage(cells') && (i, loc - RoundDown(loc)) in seen' && seen'[(i, loc - RoundDown(loc))] == In(j, v - RoundDown(v))
  {
    hide AllInPage, RoundDown, IndexOf, Encode, NameOf, WithRecord;
  }

  lemma FixedFacts(mem: Memory, places: seq<nat>, cells: seq<Cell>, ids: seq<nat>, look: seq<nat>, i: nat, j: nat, loc: nat, v: nat)
    requires |ids| == |places| <= |cells| == |look| && look == Maddrs(Moved(cells, places, |places|), |cells|)
    requires j < |ids| && ids[j] % CAPACITY < |ids|
    requires Fixed(mem, places, look, ids, In(j, v - RoundDown(v)), i, loc - RoundDown(loc))
    ensures PointsTo(mem, places, i, loc, ids[j] % CAPACITY, v)
  {
    hide RoundDown, NamesAt, Relocated;
  }

  lemma InsidePage(maddr: nat, off: nat)
    requires maddr % PAGE_SIZE == 0 && off < PAGE_SIZE
    ensures RoundDown(maddr + off) == maddr
  {
  }

  /** The ids of a slab in which all are right, and an id of 0 after them. */
  lemma IdsWithZero(ids: seq<nat>, count: nat)
    requires Named(ids) && 0 < |ids| < count
    ensures Landing(ids + [0], count) && ids[0] % CAPACITY == 0 && !Named(ids + [0])
  {
    NamedLands(ids, count);
    assert NamesAt(ids, 0);
    NamedNext(ids, 0);
  }

  lemma EmptyInPage(cells: seq<Cell>, cells': seq<Cell>, n: nat)
    requires AllInPage(cells) && Unused(cells', n + 1) && n <= |cells| <= |cells'| && n < |cells'| && cells'[n].ptrs == []
    requires forall k :: 0 <= k < n ==> cells'[k] == cells[k]
    ensures AllInPage(cells')
  {
    hide InPage, Unused;
    InPageExact([]);
    forall k | 0 <= k < |cells'| ensures InPage(cells'[k].ptrs) {
      if k < n {
        assert InPage(cells[k].ptrs);
      } else if k > n {
        UnusedAt(cells', n + 1, k);
      }
    }
  }

  lemma UnusedAt(cells: seq<Cell>, n: nat, k: nat)
    requires Unused(cells, n) && n <= k < |cells|
    ensures cells[k].ptrs == []
  {
  }

  /** A new process maps a container whose ids are all right, and initialises one more entry. The entry gets id 0, which
    leads to the first one. */
  method NewProcess(s: Slab, maddr: nat, size: nat) returns (se: SlabEntry?, found: SlabEntry?)
    requires s.Valid() && s.n <= |s.all| && Named(s.EntryIds()) && 0 < s.n < CAPACITY
    requires maddr != 0 && maddr % PAGE_SIZE == 0 && maddr !in s.tree
    modifies s, s.all
    ensures s.Ready() && s.n == old(s.n) + 1 <= |s.all| && s.EntryIds() == old(s.EntryIds()) + [0] && !Named(s.EntryIds())
    ensures se == s.all[old(s.n)] && se != null && se.id == 0 && se.maddr == maddr
    ensures found == s.all[0] && found != se
    ensures forall k :: 0 <= k < old(s.n) ==> s.all[k] == old(s.all)[k] && CellOf(s.all[k]) == old(CellOf(s.all[k]))
    ensures old(AllInPage(Cells(s.all))) ==> AllInPage(Cells(s.all))
    ensures forall k :: 0 <= k < |s.all| ==> s.all[k] in old(s.all) || fresh(s.all[k])
  {
    hide Slab.Valid, Named, AllInPage, Landing, Unused;
    ghost var cells, ids, n := Cells(s.all), s.EntryIds(), s.n;
    var p := new Process();
    se := s.NewEntry(p, maddr, size);
    s.Facts();
    IdsWithZero(ids, |s.all|);
    found := s.ById(se.id);
    s.TwoEntries(0, n);
    s.RestUnused();
    if AllInPage(cells) { EmptyInPage(cells, Cells(s.all), n); }
  }

  /** A pointer to the new page is recorded at a location of page `i`, and when the container is mapped again it points to
    the page of the first entry. */
  method Misdirected(s: Slab, maddr: nat, size: nat, loc: nat, off: nat, ghost i: nat, places: seq<nat>, newMem: Memory)
    requires s.Valid() && s.n <= |s.all| && Named(s.EntryIds()) && 0 < s.n < CAPACITY && AllInPage(Cells(s.all))
    requires maddr != 0 && maddr % PAGE_SIZE == 0 && maddr !in s.tree && off < PAGE_SIZE
    requires i < s.n && s.all[i].maddr == RoundDown(loc) && |s.all[i].ptrs| < ROOM
    requires |places| == s.n + 1 && Apart(places)
    modifies s, s.all
    ensures PointsTo(s.mem, places, i, loc, 0, maddr + off) && !PointsTo(s.mem, places, i, loc, old(s.n), maddr + off)
  {
    hide Slab.Valid, Slab.Ready, Slab.EntryIds, Named, AllInPage, RoundDown, Apart, Landing, Unused, Cells;
    ghost var n := s.n;
    var se, found := NewProcess(s, maddr, size);
    InsidePage(maddr, off);
    RecordAndRestore(s, loc, maddr + off, i, n, 0, places, newMem);
    ZeroPlace(places, n);
  }

  lemma ZeroPlace(places: seq<nat>, n: nat)
    requires Apart(places) && 0 < n < |places|
    ensures places[0] != places[n]
  {
  }

  /** The first entry of a second container in a process gets the id that the counter has reached. The id leads to
    another entry, which is not initialised, or to none. */
  method SecondContainer(p: Process, mem: Memory, maddr: nat, size: nat) returns (s: Slab, se: SlabEntry?, found: SlabEntry?)
    requires p.nextId % CAPACITY != 0 && maddr != 0 && maddr % PAGE_SIZE == 0
    modifies p
    ensures s.Valid() && s.n == 1 <= |s.all| && se == s.all[0] && se != null && se.id == old(p.nextId)
    ensures found != se && (found != null ==> !IsInit(found)) && !Named(s.EntryIds())
  {
    hide Slab.Valid, Named, Unused;
    s := new Slab(mem);
    assert maddr !in s.tree by { s.NoPages(); }
    se := s.NewEntry(p, maddr, size);
    s.Facts();
    found := s.ById(se.id);
    if found != null { s.NotInit(se.id % CAPACITY); }
  }

  // A record page that fills up.

  /** The record of a location that holds `v`. */
  ghost function RecordFor(cells: seq<Cell>, n: nat, loc: nat, v: nat): Rec {
    if n <= |cells| then Encode(loc - RoundDown(loc), NameOf(Ids(cells, n), TargetOf(Maddrs(cells, n), v))) else Rec(0, 0, 0)
  }

  function Often(cells: seq<Cell>, i: nat, r: Rec, k: nat): (c: seq<Cell>)
    ensures |c| == |cells|
  {
    if i < |cells| then cells[i := cells[i].(ptrs := cells[i].ptrs + seq(k, _ => r))] else cells
  }

  lemma OftenNone(cells: seq<Cell>, i: nat, r: Rec)
    ensures Often(cells, i, r, 0) == cells
  {
    if i < |cells| { assert cells[i].ptrs + seq(0, _ => r) == cells[i].ptrs; }
  }

  lemma OftenNext(cells: seq<Cell>, i: nat, r: Rec, k: nat)
    ensures Often(Often(cells, i, r, k), i, r, 1) == Often(cells, i, r, k + 1)
  {
    if i < |cells| { assert cells[i].ptrs + seq(k, _ => r) + seq(1, _ => r) == cells[i].ptrs + seq(k + 1, _ => r); }
  }

  lemma OftenSame(cells: seq<Cell>, i: nat, r: Rec, k: nat, n: nat, loc: nat, v: nat)
    ensures RecordFor(Often(cells, i, r, k), n, loc, v) == RecordFor(cells, n, loc, v)
  {
    hide RoundDown, Encode, NameOf, TargetOf;
    if n <= |cells| {
      assert Maddrs(Often(cells, i, r, k), n) == Maddrs(cells, n) && Ids(Often(cells, i, r, k), n) == Ids(cells, n);
    }
  }

  method RecordOnce(s: Slab, loc: nat, ghost i: nat, ghost r: Rec)
    requires s.Valid() && i < s.n <= |s.all| && loc in s.mem && s.all[i].maddr == RoundDown(loc)
    requires s.mem[loc] == 0 || RoundDown(s.mem[loc]) in s.tree
    requires |s.all[i].ptrs| + 1 < INDEX_LIMIT && r == RecordFor(Cells(s.all), s.n, loc, s.mem[loc])
    modifies s`seen, s.all
    ensures s.Valid() && Cells(s.all) == Often(old(Cells(s.all)), i, r, 1)
  {
    hide Slab.Valid, RoundDown, IndexOf, RecordFor, Inserted, Often;
    ghost var cells, seen := Cells(s.all), s.seen;
    assert CellOf(s.all[i]) == cells[i];
    s.AtPage(i);
    var done := s.InsertPointer(loc);
    OneRecord(cells, i, r, seen, s.n, loc, s.mem[loc], Cells(s.all), s.seen);
  }

  lemma OneRecord(cells: seq<Cell>, i: nat, r: Rec, seen: map<(nat, nat), Target>, n: nat, loc: nat, v: nat, after: seq<Cell>, seen': map<(nat, nat), Target>)
    requires i < n <= |cells| && |cells[i].ptrs| + 1 < INDEX_LIMIT
    requires Inserted(cells, seen, n, loc, v, after, seen') && IndexOf(Maddrs(cells, n), RoundDown(loc)) == i && r == RecordFor(cells, n, loc, v)
    ensures after == Often(cells, i, r, 1)
  {
    hide RoundDown, IndexOf, Encode, NameOf, TargetOf, AllInPage, Noted;
    assert seq(1, _ => r) == [r];
  }

  /** The value `v` at a location of page `i` is recorded `k` times. */
  method RecordOften(s: Slab, loc: nat, v: nat, k: nat, ghost i: nat, ghost r: Rec)
    requires s.Valid() && i < s.n <= |s.all| && s.all[i].maddr == RoundDown(loc)
    requires v == 0 || RoundDown(v) in s.tree
    requires |s.all[i].ptrs| + k < INDEX_LIMIT && r == RecordFor(Cells(s.all), s.n, loc, v)
    modifies s`seen, s`mem, s.all
    ensures s.Valid() && Cells(s.all) == Often(old(Cells(s.all)), i, r, k)
  {
    hide Slab.Valid, RoundDown, IndexOf, RecordFor;
    ghost var cells, n := Cells(s.all), s.n;
    OftenNone(cells, i, r);
    s.mem := s.mem[loc := v];
    var j := 0;
    while j < k
      invariant 0 <= j <= k && s.Valid() && loc in s.mem && s.mem[loc] == v
      invariant Cells(s.all) == Often(cells, i, r, j)
    {
      assert CellOf(s.all[i]) == Cells(s.all)[i];
      OftenSame(cells, i, r, j, n, loc, v);
      RecordOnce(s, loc, i, r);
      OftenNext(cells, i, r, j);
      j := j + 1;
    }
  }

  /** The history behind `Overrun`: a location of the first entry's page is recorded 341 times as NULL, and then as a
    pointer into that page, as often as there are checkpoints. */
  method Overfill(s: Slab, maddr: nat, n: nat)
    requires s.Valid() && 0 < s.n <= |s.all| && s.all[0].maddr == maddr && s.all[0].id == 0 && s.all[0].ptrs == []
    requires ROOM < n < INDEX_LIMIT
    modifies s`seen, s`mem, s.all
    ensures s.Valid() && s.n <= |s.all| && s.all[0].ptrs == Rerecorded(n) && !InPage(s.all[0].ptrs)
  {
    hide Slab.Valid, InPage, RecordFor, RoundDown, Often, Rerecorded, Maddrs, Ids, IndexOf;
    ghost var cells, nil, own := Cells(s.all), Rec(16, SEID_NULL, OFFSET_NULL), Rec(16, 0, 8);
    assert CellOf(s.all[0]) == cells[0];
    s.AtPage(0);
    s.PageAligned(0);
    InsidePage(maddr, 16);
    InsidePage(maddr, 8);
    FirstRecords(cells, s.n, maddr);
    RecordOften(s, maddr + 16, 0, ROOM, 0, nil);
    OftenAt(cells, nil, ROOM);
    assert CellOf(s.all[0]) == Cells(s.all)[0];
    OftenSame(cells, 0, nil, ROOM, s.n, maddr + 16, maddr + 8);
    ghost var half := Cells(s.all);
    RecordOften(s, maddr + 16, maddr + 8, n - ROOM, 0, own);
    OftenAt(half, own, n - ROOM);
    assert CellOf(s.all[0]) == Cells(s.all)[0];
    Overfilled(n);
    InPageExact(s.all[0].ptrs);
  }

  lemma OftenAt(cells: seq<Cell>, r: Rec, k: nat)
    requires |cells| > 0
    ensures Often(cells, 0, r, k)[0] == cells[0].(ptrs := cells[0].ptrs + seq(k, _ => r))
  {
  }

  /** The records of offset 16 in the page of the first entry, with NULL and with offset 8 of that page. */
  lemma FirstRecords(cells: seq<Cell>, n: nat, maddr: nat)
    requires 0 < n <= |cells| && cells[0].id == 0 && maddr % PAGE_SIZE == 0 && maddr != 0 && IndexOf(Maddrs(cells, n), maddr) == 0
    ensures RecordFor(cells, n, maddr + 16, 0) == Rec(16, SEID_NULL, OFFSET_NULL)
    ensures RecordFor(cells, n, maddr + 16, maddr + 8) == Rec(16, 0, 8)
  {
    hide IndexOf, RoundDown;
    InsidePage(maddr, 16);
    InsidePage(maddr, 8);
  }

  lemma Overfilled(n: nat)
    requires n > ROOM
    ensures [] + seq(ROOM, _ => Rec(16, SEID_NULL, OFFSET_NULL)) + seq(n - ROOM, _ => Rec(16, 0, 8)) == Rerecorded(n)
  {
  }
}
