/** What the entries of a slab hold: their pages, their ids, and the pointers recorded in them. */
module SlabCells {
  import opened Paging
  import opened Wrappers
  import opened SlabShape
  import opened SlabPtrs

  class SlabEntry {
    var id: nat            // se_id
    var size: nat          // se_size
    var maddr: nat         // se_data.current.maddr
    var ptrs: seq<Rec>     // se_ptr.current, up to idx

    constructor ()
      ensures id == 0 && size == 0 && maddr == 0 && ptrs == []
    {
      id, size, maddr, ptrs := 0, 0, 0, [];
    }
  }

  // SLAB_ENTRY_IS_INIT
  predicate IsInit(se: SlabEntry)
    reads se
  {
    se.size != 0 || se.maddr != 0
  }

  datatype Cell = Cell(id: nat, size: nat, maddr: nat, ptrs: seq<Rec>)

  ghost function CellOf(se: SlabEntry): Cell
    reads se
  {
    Cell(se.id, se.size, se.maddr, se.ptrs)
  }

  ghost function Cells(all: seq<SlabEntry>): (s: seq<Cell>)
    reads all
    ensures |s| == |all| && forall i :: 0 <= i < |all| ==> s[i] == CellOf(all[i])
  {
    seq(|all|, i requires 0 <= i < |all| reads all => CellOf(all[i]))
  }

  function Maddrs(cells: seq<Cell>, n: nat): (s: seq<nat>)
    requires n <= |cells|
    ensures |s| == n && forall i :: 0 <= i < n ==> s[i] == cells[i].maddr
  {
    seq(n, i requires 0 <= i < n => cells[i].maddr)
  }

  function Records(cells: seq<Cell>, n: nat): (s: seq<seq<Rec>>)
    requires n <= |cells|
    ensures |s| == n && forall i :: 0 <= i < n ==> s[i] == cells[i].ptrs
  {
    seq(n, i requires 0 <= i < n => cells[i].ptrs)
  }

  function Ids(cells: seq<Cell>, n: nat): (s: seq<nat>)
    requires n <= |cells|
    ensures |s| == n && forall i :: 0 <= i < n ==> s[i] == cells[i].id
  {
    seq(n, i requires 0 <= i < n => cells[i].id)
  }

  /** Entries are initialised in the order of their positions; the first `n` have been. */
  ghost predicate Unused(cells: seq<Cell>, n: nat) {
    n <= |cells| && forall i :: n <= i < |cells| ==> cells[i].size == 0 && cells[i].maddr == 0 && cells[i].ptrs == []
  }

  // Ids, and what get_slab_entry_by_id makes of them.

  /** The id of the entry at a position leads to that position. */
  predicate NamesAt(ids: seq<nat>, i: nat) {
    i < |ids| && ids[i] % CAPACITY == i
  }

  /** The id of every entry leads to that entry. */
  ghost predicate Named(ids: seq<nat>) {
    forall i :: 0 <= i < |ids| ==> NamesAt(ids, i)
  }

  /** Every id leads to one of `count` entries, initialised or not; any other would be looked up through a NULL page. */
  ghost predicate Landing(ids: seq<nat>, count: nat) {
    forall i :: 0 <= i < |ids| ==> ids[i] % CAPACITY < count
  }

  lemma NamedLands(ids: seq<nat>, count: nat)
    requires Named(ids) && |ids| <= count
    ensures Landing(ids, count)
  {
    forall i | 0 <= i < |ids| ensures ids[i] % CAPACITY < count { assert NamesAt(ids, i); }
  }

  /** One more entry keeps that exactly if its id is, modulo the capacity, the number of entries before it. */
  lemma NamedNext(ids: seq<nat>, id: nat)
    ensures Named(ids + [id]) <==> Named(ids) && id % CAPACITY == |ids|
  {
    var ids' := ids + [id];
    assert NamesAt(ids', |ids|) <==> id % CAPACITY == |ids|;
    assert forall i | 0 <= i < |ids| :: NamesAt(ids', i) <==> NamesAt(ids, i);
  }

  // The records. A target is known by the position of its entry; a record holds the entry's id.

  function NameOf(ids: seq<nat>, t: Target): Target {
    match t
    case Nil => Nil
    case In(p, off) => In(if p < |ids| then ids[p] else 0, off)
  }

  /** The records are what was inserted: the last one for each location says where it pointed. */
  ghost predicate Recorded(ptrs: seq<seq<Rec>>, ids: seq<nat>, seen: map<(nat, nat), Target>) {
    && (forall i, o :: 0 <= i < |ptrs| && 0 <= o < PAGE_SIZE ==> LastAt(ptrs[i], o) == if (i, o) in seen then Some(Encode(o, NameOf(ids, seen[(i, o)]))) else None)
    && (forall l :: l in seen ==> l.0 < |ptrs| && l.1 < PAGE_SIZE)
    && (forall l :: l in seen && seen[l].In? ==> seen[l].id < |ptrs| && seen[l].off < PAGE_SIZE)
  }

  /** Every record is of a location in its page, and of NULL or an id that was given out. */
  ghost predicate Proper(ptrs: seq<Rec>, ids: seq<nat>) {
    |ptrs| < INDEX_LIMIT && forall k :: 0 <= k < |ptrs| ==> ptrs[k].locOffset < PAGE_SIZE && (IsNull(ptrs[k]) || ptrs[k].valSeid in ids)
  }

  ghost predicate AllProper(ptrs: seq<seq<Rec>>, ids: seq<nat>) {
    forall i :: 0 <= i < |ptrs| ==> Proper(ptrs[i], ids)
  }

  lemma ProperGood(ptrs: seq<seq<Rec>>, ids: seq<nat>, count: nat)
    requires AllProper(ptrs, ids) && Landing(ids, count)
    ensures AllGood(ptrs, count)
  {
    forall i | 0 <= i < |ptrs| ensures Good(ptrs[i], count) { assert Proper(ptrs[i], ids); }
  }

  /** The address tree holds exactly the initialised entries, by the addresses of their pages. */
  ghost predicate PagesOf(maddrs: seq<nat>, all: seq<SlabEntry>, tree: map<nat, SlabEntry>) {
    && Apart(maddrs) && |maddrs| <= |all|
    && (forall i :: 0 <= i < |maddrs| ==> maddrs[i] in tree && tree[maddrs[i]] == all[i])
    && (forall a :: a in tree ==> a in maddrs)
  }

  ghost predicate Contents(cells: seq<Cell>, n: nat, all: seq<SlabEntry>, tree: map<nat, SlabEntry>, seen: map<(nat, nat), Target>)
    requires n <= |cells|
  {
    && PagesOf(Maddrs(cells, n), all, tree)
    && Recorded(Records(cells, n), Ids(cells, n), seen) && AllProper(Records(cells, n), Ids(cells, n))
  }

  /** The position of a page, or -1. */
  function IndexOf(maddrs: seq<nat>, page: nat): (i: int)
    ensures if i == -1 then page !in maddrs else 0 <= i < |maddrs| && maddrs[i] == page
  {
    if maddrs == [] then -1
    else if maddrs[|maddrs| - 1] == page then |maddrs| - 1
    else IndexOf(maddrs[..|maddrs| - 1], page)
  }

  lemma IndexUnique(maddrs: seq<nat>, i: nat)
    requires Apart(maddrs) && i < |maddrs|
    ensures IndexOf(maddrs, maddrs[i]) == i
  {
    var j := IndexOf(maddrs, maddrs[i]);
    assert maddrs[i] in maddrs && j != -1;
  }

  // One more record.

  /** The 16-bit index is at its last value, and wraps to 0 when a record has been written there. */
  predicate Wraps(cells: seq<Cell>, i: nat) {
    i < |cells| && |cells[i].ptrs| + 1 == INDEX_LIMIT
  }

  function WithRecord(cells: seq<Cell>, i: nat, r: Rec): (s: seq<Cell>)
    ensures |s| == |cells|
  {
    if i < |cells| then cells[i := cells[i].(ptrs := Written(cells[i].ptrs, r))] else cells
  }

  /** What the records below the index still say. */
  function Noted(seen: map<(nat, nat), Target>, i: nat, o: nat, t: Target, wraps: bool): map<(nat, nat), Target> {
    if wraps then map l | l in seen && l.0 != i :: seen[l] else seen[(i, o) := t]
  }

  /** No record below an index has been written past its page. */
  ghost predicate AllInPage(cells: seq<Cell>) {
    forall i :: 0 <= i < |cells| ==> InPage(cells[i].ptrs)
  }

  /** What a caller can check before recording a pointer in an entry. */
  predicate HasRoom(cells: seq<Cell>, i: nat) {
    i < |cells| && |cells[i].ptrs| < ROOM
  }

  /** One more record stays inside its page exactly if the entry has fewer than 341. */
  lemma RecordFits(cells: seq<Cell>, i: nat, r: Rec)
    requires i < |cells| && !Wraps(cells, i) && |cells[i].ptrs| < INDEX_LIMIT
    ensures AllInPage(WithRecord(cells, i, r)) <==> AllInPage(cells) && HasRoom(cells, i)
  {
    hide InPage;
    var cells' := WithRecord(cells, i, r);
    forall j | 0 <= j < |cells| ensures InPage(cells[j].ptrs) <==> |cells[j].ptrs| <= ROOM { InPageExact(cells[j].ptrs); }
    InPageExact(cells'[i].ptrs);
    assert forall j | 0 <= j < |cells| && j != i :: cells'[j] == cells[j];
    if AllInPage(cells') && |cells[i].ptrs| <= ROOM { assert InPage(cells'[i].ptrs); }
  }

  lemma MoreRecords(cells: seq<Cell>, n: nat, all: seq<SlabEntry>, tree: map<nat, SlabEntry>, seen: map<(nat, nat), Target>, i: nat, r: Rec, t: Target)
    requires Unused(cells, n) && i < n && |all| == |cells| && Contents(cells, n, all, tree, seen)
    requires r == Encode(r.locOffset, NameOf(Ids(cells, n), t)) && r.locOffset < PAGE_SIZE && (t.In? ==> t.id < n && t.off < PAGE_SIZE)
    ensures var cells' := WithRecord(cells, i, r);
      && Unused(cells', n) && Contents(cells', n, all, tree, Noted(seen, i, r.locOffset, t, Wraps(cells, i)))
      && Maddrs(cells', n) == Maddrs(cells, n) && Ids(cells', n) == Ids(cells, n)
  {
    hide PagesOf, Recorded, AllProper;
    var cells', ids, records := WithRecord(cells, i, r), Ids(cells, n), Records(cells, n);
    assert Maddrs(cells', n) == Maddrs(cells, n) && Ids(cells', n) == ids;
    assert Records(cells', n) == records[i := Written(records[i], r)];
    Counted(records, ids, i);
    if Wraps(cells, i) {
      RecordedNone(records, ids, seen, i);
    } else {
      RecordedMore(records, ids, seen, i, r, t);
    }
  }

  lemma Counted(records: seq<seq<Rec>>, ids: seq<nat>, i: nat)
    requires AllProper(records, ids) && i < |records|
    ensures |records[i]| < INDEX_LIMIT
  {
    assert Proper(records[i], ids);
  }

  lemma RecordedMore(records: seq<seq<Rec>>, ids: seq<nat>, seen: map<(nat, nat), Target>, i: nat, r: Rec, t: Target)
    requires Recorded(records, ids, seen) && AllProper(records, ids) && i < |records| == |ids| && |records[i]| + 1 < INDEX_LIMIT
    requires r == Encode(r.locOffset, NameOf(ids, t)) && r.locOffset < PAGE_SIZE && (t.In? ==> t.id < |records| && t.off < PAGE_SIZE)
    ensures Recorded(records[i := records[i] + [r]], ids, seen[(i, r.locOffset) := t]) && AllProper(records[i := records[i] + [r]], ids)
  {
    hide Encode, NameOf, Proper, LastAt;
    var records', seen' := records[i := records[i] + [r]], seen[(i, r.locOffset) := t];
    forall j, o | 0 <= j < |records'| && 0 <= o < PAGE_SIZE
      ensures LastAt(records'[j], o) == if (j, o) in seen' then Some(Encode(o, NameOf(ids, seen'[(j, o)]))) else None
    {
      assert LastAt(records[j], o) == if (j, o) in seen then Some(Encode(o, NameOf(ids, seen[(j, o)]))) else None;
      LastAfter(records[i], r, o);
    }
    ProperMore(records[i], ids, r, t);
  }

  lemma ProperMore(ptrs: seq<Rec>, ids: seq<nat>, r: Rec, t: Target)
    requires Proper(ptrs, ids) && |ptrs| + 1 < INDEX_LIMIT && r.locOffset < PAGE_SIZE
    requires r == Encode(r.locOffset, NameOf(ids, t)) && (t.In? ==> t.id < |ids|)
    ensures Proper(ptrs + [r], ids)
  {
  }

  lemma RecordedNone(records: seq<seq<Rec>>, ids: seq<nat>, seen: map<(nat, nat), Target>, i: nat)
    requires Recorded(records, ids, seen) && AllProper(records, ids) && i < |records|
    ensures Recorded(records[i := []], ids, map l | l in seen && l.0 != i :: seen[l]) && AllProper(records[i := []], ids)
  {
    hide Encode, NameOf;
  }

  // One more entry.

  lemma NewCell(cells: seq<Cell>, n: nat, all: seq<SlabEntry>, tree: map<nat, SlabEntry>, seen: map<(nat, nat), Target>, id: nat, size: nat, maddr: nat)
    requires Unused(cells, n) && n < |cells| == |all| && Contents(cells, n, all, tree, seen)
    requires maddr != 0 && maddr % PAGE_SIZE == 0 && maddr !in tree
    ensures var cells' := cells[n := Cell(id, size, maddr, [])];
      && Unused(cells', n + 1) && Contents(cells', n + 1, all, tree[maddr := all[n]], seen)
      && Ids(cells', n + 1) == Ids(cells, n) + [id]
  {
    hide PagesOf, Recorded, AllProper;
    var cells' := cells[n := Cell(id, size, maddr, [])];
    assert Maddrs(cells', n + 1) == Maddrs(cells, n) + [maddr];
    assert Records(cells', n + 1) == Records(cells, n) + [[]];
    assert Ids(cells', n + 1) == Ids(cells, n) + [id];
    PagesNext(Maddrs(cells, n), all, tree, maddr);
    RecordedNext(Records(cells, n), Ids(cells, n), seen, id);
  }

  lemma PagesNext(maddrs: seq<nat>, all: seq<SlabEntry>, tree: map<nat, SlabEntry>, maddr: nat)
    requires PagesOf(maddrs, all, tree) && |maddrs| < |all| && maddr != 0 && maddr % PAGE_SIZE == 0 && maddr !in tree
    ensures PagesOf(maddrs + [maddr], all, tree[maddr := all[|maddrs|]])
  {
    assert forall i :: 0 <= i < |maddrs| ==> maddrs[i] in tree;
    ApartNext(maddrs, maddr);
  }

  lemma ApartNext(maddrs: seq<nat>, maddr: nat)
    requires Apart(maddrs) && maddr != 0 && maddr % PAGE_SIZE == 0 && maddr !in maddrs
    ensures Apart(maddrs + [maddr])
  {
  }

  lemma RecordedNext(records: seq<seq<Rec>>, ids: seq<nat>, seen: map<(nat, nat), Target>, id: nat)
    requires Recorded(records, ids, seen) && AllProper(records, ids) && |records| == |ids|
    ensures Recorded(records + [[]], ids + [id], seen) && AllProper(records + [[]], ids + [id])
  {
    hide Encode;
    assert forall l | l in seen :: NameOf(ids + [id], seen[l]) == NameOf(ids, seen[l]);
    forall i | 0 <= i < |records| ensures Proper(records[i], ids + [id]) { assert Proper(records[i], ids); }
  }

  /** A bucket of entries that are not initialised. */
  lemma MoreCells(cells: seq<Cell>, more: seq<Cell>, n: nat, all: seq<SlabEntry>, b: seq<SlabEntry>, tree: map<nat, SlabEntry>, seen: map<(nat, nat), Target>)
    requires n <= |cells| && Contents(cells, n, all, tree, seen)
    ensures Contents(cells + more, n, all + b, tree, seen) && Ids(cells + more, n) == Ids(cells, n)
  {
    hide Recorded, AllProper;
    assert Maddrs(cells + more, n) == Maddrs(cells, n) && Records(cells + more, n) == Records(cells, n) && Ids(cells + more, n) == Ids(cells, n);
  }

  // Other addresses.

  function Moved(cells: seq<Cell>, places: seq<nat>, n: nat): (r: seq<Cell>)
    requires n <= |places| <= |cells|
    ensures |r| == |cells| && forall i :: 0 <= i < |cells| ==> r[i] == if i < n then cells[i].(maddr := places[i]) else cells[i]
  {
    seq(|cells|, i requires 0 <= i < |cells| => if i < n then cells[i].(maddr := places[i]) else cells[i])
  }

  lemma MovedNone(cells: seq<Cell>, places: seq<nat>)
    requires |places| <= |cells|
    ensures Moved(cells, places, 0) == cells
  {
  }

  lemma MovedStep(cells: seq<Cell>, places: seq<nat>, i: nat)
    requires i < |places| <= |cells|
    ensures Moved(cells, places, i)[i := Moved(cells, places, i)[i].(maddr := places[i])] == Moved(cells, places, i + 1)
  {
  }

  lemma MovedRecords(cells: seq<Cell>, places: seq<nat>, i: nat)
    requires i < |places| <= |cells| && AllInPage(cells)
    ensures InPage(Moved(cells, places, i)[i].ptrs)
  {
  }

  lemma NewPlace(places: seq<nat>, i: nat)
    requires Apart(places) && i < |places|
    ensures forall k :: 0 <= k < i ==> places[k] != places[i]
  {
  }

  lemma MovedContents(cells: seq<Cell>, n: nat, all: seq<SlabEntry>, tree0: map<nat, SlabEntry>, tree: map<nat, SlabEntry>, seen: map<(nat, nat), Target>, places: seq<nat>)
    requires Unused(cells, n) && n == |places| <= |all| && Apart(places)
    requires Contents(cells, n, all, tree0, seen)
    requires forall k :: 0 <= k < n ==> places[k] in tree && tree[places[k]] == all[k]
    requires forall a :: a in tree ==> a in places
    ensures var cells' := Moved(cells, places, n);
      && Unused(cells', n) && Contents(cells', n, all, tree, seen)
      && Maddrs(cells', n) == places && Records(cells', n) == Records(cells, n) && Ids(cells', n) == Ids(cells, n)
  {
    hide Recorded, AllProper, PagesOf;
    var cells' := Moved(cells, places, n);
    assert Maddrs(cells', n) == places && Records(cells', n) == Records(cells, n) && Ids(cells', n) == Ids(cells, n);
    PagesThere(places, all, tree);
  }

  lemma PagesThere(places: seq<nat>, all: seq<SlabEntry>, tree: map<nat, SlabEntry>)
    requires Apart(places) && |places| <= |all| && (forall k :: 0 <= k < |places| ==> places[k] in tree && tree[places[k]] == all[k])
    requires forall a :: a in tree ==> a in places
    ensures PagesOf(places, all, tree)
  {
  }

  // What relocation does to a recorded location.

  /** The value that do_fixptrs writes: it finds the entry by the recorded id. */
  function Rewritten(look: seq<nat>, ids: seq<nat>, t: Target): nat {
    match t
    case Nil => 0
    case In(p, off) => if p < |ids| && ids[p] % CAPACITY < |look| then look[ids[p] % CAPACITY] + off else 0
  }

  /** The value that it should be: the same offset of the same page. */
  function Relocated(look: seq<nat>, t: Target): nat {
    match t
    case Nil => 0
    case In(p, off) => if p < |look| then look[p] + off else 0
  }

  /** The pages of the first `n` entries are apart, and the other entries have none. */
  ghost predicate Laid(look: seq<nat>, n: nat) {
    n <= |look| && Apart(look[..n]) && forall i :: n <= i < |look| ==> look[i] == 0
  }

  /** The two agree exactly if the id of the target leads to the target. */
  lemma RewrittenExact(look: seq<nat>, n: nat, ids: seq<nat>, t: Target)
    requires Laid(look, n) && |ids| == n && Landing(ids, |look|) && (t.In? ==> t.id < n)
    ensures Rewritten(look, ids, t) == Relocated(look, t) <==> t.In? ==> NamesAt(ids, t.id)
  {
    if t.In? {
      var p, q := t.id, ids[t.id] % CAPACITY;
      assert look[p] == look[..n][p] != 0;
      if q < n && q != p {
        assert look[q] == look[..n][q];
        DistinctPages(look[..n], p, q);
      }
    }
  }

  /** A recorded location after the records have been followed. */
  lemma LocationFixed(newMem: Memory, places: seq<nat>, look: seq<nat>, records: seq<seq<Rec>>, ids: seq<nat>, seen: map<(nat, nat), Target>, p: nat, i: nat, o: nat)
    requires |records| == |places| == |ids| <= p && AllGood(records, |look|) && Landing(ids, |look|)
    requires Apart(places) && Recorded(records, ids, seen) && i < |places| && o < PAGE_SIZE
    ensures var mem, a := FixAll(newMem, places, look, records, p), places[i] + o;
      && ((i, o) in seen ==> a in mem && mem[a] == Rewritten(look, ids, seen[(i, o)]))
      && ((i, o) !in seen ==> SameAt(mem, newMem, a))
  {
    hide FixAll, LastAt, Apart;
    FixAllAt(newMem, places, look, records, p, i, o);
    assert LastAt(records[i], o) == if (i, o) in seen then Some(Encode(o, NameOf(ids, seen[(i, o)]))) else None;
    if (i, o) in seen { NullApart(o, NameOf(ids, seen[(i, o)])); }
  }

  lemma SeenInside(records: seq<seq<Rec>>, ids: seq<nat>, seen: map<(nat, nat), Target>)
    requires Recorded(records, ids, seen)
    ensures forall i, o :: (i, o) in seen ==> i < |records| && o < PAGE_SIZE && (seen[(i, o)].In? ==> seen[(i, o)].id < |records|)
  {
  }
}
