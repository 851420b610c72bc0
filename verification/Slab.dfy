/** The slab: entries, the free list they are taken from, and the pointers recorded in them. */
module Slab {
  import opened Paging
  import opened Wrappers
  import opened Sequences
  import opened SlabShape
  import opened SlabPtrs
  import opened SlabCells

  datatype Result = Done | LocNotFound | ValNotFound

  /** An unsigned int, one up. */
  function Next(id: nat): nat {
    (id + 1) % 0x1_0000_0000
  }

  /** What the slabs of a process share. A new process starts at 0, whatever containers it maps. */
  class Process {
    var nextId: nat                   // NEXT_SLAB_ENTRY_ID

    constructor ()
      ensures nextId == 0
    {
      nextId := 0;
    }

    /** GET_NEXT_SLAB_ENTRY_ID */
    method GetNextId() returns (id: nat)
      modifies this
      ensures id == old(nextId) && nextId == Next(old(nextId))
    {
      id := nextId;
      nextId := Next(nextId);
    }
  }

  class Slab {
    var dir: Dir<SlabEntry>           // sd_current and below
    var freeList: seq<SlabEntry>      // sd_free_list
    var tree: map<nat, SlabEntry>     // sd_maddr_root
    var mem: Memory
    ghost var all: seq<SlabEntry>     // the entries by position
    ghost var n: nat                  // how many of them are initialised
    ghost var seen: map<(nat, nat), Target>  // what has been recorded, by position and offset

    /** The entries are initialised in the order of their positions. Nothing is said of their ids. */
    ghost predicate Valid()
      reads `dir, `freeList, `tree, `n, `all, `seen, all
    {
      && Spread(dir, all) && Distinct(all) && Unused(Cells(all), n) && freeList == all[n..]
      && Contents(Cells(all), n, all, tree, seen)
    }

    /** The ids of the entries that are initialised. */
    ghost function EntryIds(): (ids: seq<nat>)
      reads `n, `all, all
      ensures n <= |all| ==> ids == Ids(Cells(all), n)
    {
      if n <= |all| then Ids(Cells(all), n) else []
    }

    /** slab_dir_init: one page of each level. */
    constructor (mem: Memory)
      ensures Valid() && n == 0 && this.mem == mem && seen == map[] && |all| == BUCKET && fresh(all)
    {
      this.mem, tree := mem, map[];
      all, seen, n := [], map[], 0;
      dir, freeList := [], [];
      new;
      var b := NewBucket();
      FirstBucket(b);
      dir, freeList, all := [[[b]]], b, b;
    }

    /** The entries of a bucket page, all of them uninitialised. */
    static method NewBucket() returns (b: seq<SlabEntry>)
      ensures |b| == BUCKET && Distinct(b) && fresh(b)
      ensures forall i :: 0 <= i < |b| ==> b[i].size == 0 && b[i].maddr == 0 && b[i].ptrs == []
    {
      b := [];
      var i := 0;
      while i < BUCKET
        invariant 0 <= i <= BUCKET && |b| == i && Distinct(b) && fresh(b)
        invariant forall i :: 0 <= i < |b| ==> b[i].size == 0 && b[i].maddr == 0 && b[i].ptrs == []
      {
        var se := new SlabEntry();
        b := b + [se];
        i := i + 1;
      }
    }

    /** get_slab_entry_by_id. Null stands for an id that is looked up through a page that does not exist. */
    method ById(seid: nat) returns (se: SlabEntry?)
      requires Spread(dir, all)
      ensures se == if seid % CAPACITY < |all| then all[seid % CAPACITY] else null
    {
      LookupAll(dir, all, seid);
      var i, j, k, l := SdIdx(seid), SoIdx(seid), SiIdx(seid), SbIdx(seid);
      se := if i < |dir| && j < |dir[i]| && k < |dir[i][j]| && l < |dir[i][j][k]| then dir[i][j][k][l] else null;
    }

    /** An initialised entry is the one that its id leads to exactly if the id is its position, modulo the capacity. */
    method RoundTrip(se: SlabEntry, ghost i: nat) returns (found: SlabEntry?)
      requires Valid() && i < n && all[i] == se
      ensures found == se <==> NamesAt(EntryIds(), i)
      ensures Named(EntryIds()) ==> found == se
    {
      hide Spread, Contents;
      found := ById(se.id);
      if found == se { assert all[se.id % CAPACITY] == all[i]; }
      assert Named(EntryIds()) ==> NamesAt(EntryIds(), i);
    }

    /** get_free_slab_entry, when the free list is empty: the tree grows by a bucket, and by an inner or an outer
      page if the last ones are full. */
    method Grow() returns (full: bool)
      requires Valid() && freeList == []
      modifies this
      ensures Valid() && full == old(|LastInner(dir)| == INNER && |LastOuter(dir)| == OUTER && |dir| == DIR)
      ensures full ==> dir == old(dir) && freeList == [] && all == old(all)
      ensures !full ==> |freeList| == BUCKET && fresh(freeList) && all == old(all) + freeList
      ensures n == old(n) && tree == old(tree) && mem == old(mem) && seen == old(seen) && EntryIds() == old(EntryIds())
    {
      hide Spread, Contents, Packed, Unused, AddBucket, AddInner, AddOuter, LastInner, LastOuter;
      Facts();
      PackedPages(dir);
      var d := dir;
      full := false;
      if |LastInner(d)| == INNER {
        if |LastOuter(d)| == OUTER {
          if |d| == DIR {
            full := true;
            return;
          }
          d := AddOuter(d);
        }
        d := AddInner(d);
      }
      var b := NewBucket();
      if |LastInner(dir)| < INNER {
        InLastInner(dir, all, b);
      } else if |LastOuter(dir)| < OUTER {
        InNewInner(dir, all, b);
      } else {
        InNewOuter(dir, all, b);
      }
      d := AddBucket(d, b);
      Enlarge(d, b);
    }

    lemma Facts()
      requires Valid()
      ensures Spread(dir, all) && Packed(dir) && n <= |all| && freeList == all[n..]
    {
      PackedOf(dir, all);
    }

    method Enlarge(d: Dir<SlabEntry>, b: seq<SlabEntry>)
      requires Valid() && freeList == [] && Spread(d, all + b) && |b| == BUCKET && Distinct(b)
      requires forall i :: 0 <= i < |b| ==> b[i] !in all && b[i].size == 0 && b[i].maddr == 0 && b[i].ptrs == []
      modifies `dir, `freeList, `all
      ensures Valid() && freeList == b && all == old(all) + b && EntryIds() == old(EntryIds())
    {
      hide Spread, Contents;
      assert Cells(all + b) == Cells(all) + Cells(b);
      MoreCells(Cells(all), Cells(b), n, all, b, tree, seen);
      dir, freeList := d, b;
      all := all + b;
    }

    /** get_free_slab_entry */
    method GetFree() returns (se: SlabEntry?)
      requires Valid()
      modifies this
      ensures n == old(n) && tree == old(tree) && mem == old(mem) && seen == old(seen) && EntryIds() == old(EntryIds())
      ensures se == null <==> n == CAPACITY
      ensures se == null ==> Valid()
      ensures se != null ==> n < |all| && se == all[n] && freeList == all[n + 1..] && Prepared()
      ensures |old(all)| <= |all| && (forall i :: 0 <= i < old(n) ==> all[i] == old(all)[i])
      ensures forall k :: 0 <= k < |all| ==> all[k] in old(all) || fresh(all[k])
    {
      hide Spread, Contents, Unused, LastInner, LastOuter, Distinct;
      Facts();
      FullExact(dir, all);
      se := null;
      if |freeList| == 0 {
        var full := Grow();
        if full {
          return;
        }
      }
      Facts();
      FullExact(dir, all);
      se := freeList[0];
      freeList := freeList[1..];
    }

    /** All but the free list is in order. */
    ghost predicate Prepared()
      reads `dir, `tree, `n, `all, `seen, all
    {
      Spread(dir, all) && Distinct(all) && Unused(Cells(all), n) && Contents(Cells(all), n, all, tree, seen)
    }

    /** get_free_slab_entry followed by slab_entry_init and the insertion into the address tree, as slab_palloc does
      for a new page at `maddr`. The id is what the counter of the process says; all entries are found by their ids
      afterwards exactly if they were before and the counter was, modulo the capacity, the number of entries
      initialised in this slab. */
    method NewEntry(p: Process, maddr: nat, size: nat) returns (se: SlabEntry?)
      requires Valid() && maddr != 0 && maddr % PAGE_SIZE == 0 && maddr !in tree
      modifies this, all, p
      ensures Valid() && mem == old(mem) && seen == old(seen)
      ensures se == null <==> old(n) == CAPACITY
      ensures se == null ==> n == old(n) && p.nextId == old(p.nextId) && EntryIds() == old(EntryIds()) && tree == old(tree)
      ensures se != null ==> n == old(n) + 1 <= |all| && se == all[old(n)] && se.maddr == maddr && se.size == size && se.ptrs == [] && tree == old(tree)[maddr := se]
      ensures se != null ==> se.id == old(p.nextId) && p.nextId == Next(old(p.nextId)) && EntryIds() == old(EntryIds()) + [se.id]
      ensures se != null ==> (Named(EntryIds()) <==> old(Named(EntryIds())) && old(p.nextId) % CAPACITY == old(n))
      ensures |old(all)| <= |all| && forall i :: 0 <= i < old(n) ==> all[i] == old(all)[i] && CellOf(all[i]) == old(CellOf(all[i]))
      ensures forall k :: 0 <= k < |all| ==> all[k] in old(all) || fresh(all[k])
    {
      hide Valid, Prepared, Named, Next;
      Facts();
      se := GetFree();
      if se != null {
        EntriesApart();
        Init(p, se, maddr, size);
        NamedNext(old(EntryIds()), se.id);
      }
    }

    lemma EntriesApart()
      requires Prepared()
      ensures n <= |all| && |EntryIds()| == n && forall i :: n < |all| && 0 <= i < n ==> all[i] != all[n]
    {
      hide Spread, Contents;
    }

    /** slab_entry_init */
    method Init(p: Process, se: SlabEntry, maddr: nat, size: nat)
      requires Prepared() && n < |all| && se == all[n] && freeList == all[n + 1..]
      requires maddr != 0 && maddr % PAGE_SIZE == 0 && maddr !in tree
      modifies this`n, this`tree, se, p
      ensures Valid() && n == old(n) + 1 && se.maddr == maddr && se.size == size && se.ptrs == [] && tree == old(tree)[maddr := se]
      ensures se.id == old(p.nextId) && p.nextId == Next(old(p.nextId)) && EntryIds() == old(EntryIds()) + [se.id]
    {
      hide Spread, Contents, Unused;
      ghost var cells, k := Cells(all), n;
      NewCell(cells, k, all, tree, seen, p.nextId, size, maddr);
      NoRecords(cells, k);
      se.maddr := maddr;
      se.size := size;
      se.id := p.GetNextId();
      n := n + 1;
      tree := tree[maddr := se];
      assert Cells(all) == cells[k := Cell(se.id, size, maddr, [])];
    }

    /** The page of an entry leads to the entry. */
    lemma AtPage(i: nat)
      requires Valid() && i < n && n <= |all|
      ensures all[i].maddr in tree && tree[all[i].maddr] == all[i] && IndexOf(Maddrs(Cells(all), n), all[i].maddr) == i
      ensures all[i].id == EntryIds()[i]
    {
      hide Spread, Recorded, AllProper, IndexOf;
      assert Maddrs(Cells(all), n)[i] == all[i].maddr;
      IndexUnique(Maddrs(Cells(all), n), i);
    }

    lemma NoPages()
      requires Valid() && n == 0
      ensures tree == map[]
    {
      hide Spread, Recorded, AllProper, Unused;
      assert forall a :: a !in tree;
    }

    lemma NotInit(i: nat)
      requires Valid() && n <= i < |all|
      ensures !IsInit(all[i]) && forall j :: 0 <= j < n ==> all[j] != all[i]
    {
      hide Spread, Recorded, AllProper;
      assert Cells(all)[i].size == 0;
    }

    lemma RestUnused()
      requires Valid()
      ensures Unused(Cells(all), n)
    {
    }

    lemma PageAligned(i: nat)
      requires Valid() && i < n && n <= |all|
      ensures all[i].maddr != 0 && all[i].maddr % PAGE_SIZE == 0
    {
      hide Spread, Recorded, AllProper;
      assert Maddrs(Cells(all), n)[i] == all[i].maddr;
    }

    /** Facts about two entries. */
    lemma TwoEntries(i: nat, j: nat)
      requires Valid() && i < n && j < n && i != j
      ensures n <= |all| && all[i] != all[j] && all[i].maddr != all[j].maddr
    {
      hide Spread, Recorded, AllProper;
      var maddrs := Maddrs(Cells(all), n);
      assert maddrs[i] != maddrs[j];
    }

    lemma NoRecords(cells: seq<Cell>, k: nat)
      requires Unused(cells, k) && k < |cells|
      ensures cells[k].ptrs == []
    {
    }

    /** do_insert_pointer, for the pointer at `ptrLoc`. The record is written whether or not the page has room. */
    method InsertPointer(ptrLoc: nat) returns (r: Result)
      requires Valid() && ptrLoc in mem
      modifies `seen, all
      ensures Valid() && EntryIds() == old(EntryIds())
      ensures r == LocNotFound <==> RoundDown(ptrLoc) !in tree
      ensures r == ValNotFound <==> RoundDown(ptrLoc) in tree && mem[ptrLoc] != 0 && RoundDown(mem[ptrLoc]) !in tree
      ensures r != Done ==> seen == old(seen) && Cells(all) == old(Cells(all))
      ensures r == Done ==> Inserted(old(Cells(all)), old(seen), n, ptrLoc, mem[ptrLoc], Cells(all), seen)
    {
      hide Spread, Contents, Unused, RoundDown, Inserted, IndexOf, NameOf, Encode, TargetOf, WithRecord, Noted, Wraps;
      var ptrVal := mem[ptrLoc];
      var page := RoundDown(ptrLoc);
      if page !in tree {
        return LocNotFound;
      }
      var seLoc := tree[page];
      ghost var i := InTree(page);
      var plocOffset := ptrLoc - page;
      if ptrVal != 0 {
        var valPage := RoundDown(ptrVal);
        if valPage !in tree {
          return ValNotFound;
        }
        ghost var j := InTree(valPage);
        RecordOf(EntryIds(), plocOffset, j, ptrVal - valPage);
        TargetFound(Maddrs(Cells(all), n), ptrVal, j);
        AddRecord(seLoc, i, Rec(plocOffset, tree[valPage].id, ptrVal - valPage), In(j, ptrVal - valPage));
      } else {
        RecordOf(EntryIds(), plocOffset, 0, 0);
        TargetFound(Maddrs(Cells(all), n), 0, 0);
        AddRecord(seLoc, i, Rec(plocOffset, SEID_NULL, OFFSET_NULL), Nil);
      }
      InsertedAs(old(Cells(all)), old(seen), n, ptrLoc, ptrVal, Cells(all), seen);
      r := Done;
    }

    lemma InTree(page: nat) returns (i: nat)
      requires Valid() && page in tree
      ensures i < n <= |all| && all[i] == tree[page] && tree[page].maddr == page && IndexOf(Maddrs(Cells(all), n), page) == i
      ensures tree[page].id == EntryIds()[i] && |all[i].ptrs| < INDEX_LIMIT
    {
      hide Spread, Recorded, AllProper, Unused, IndexOf;
      i :| 0 <= i < n && Maddrs(Cells(all), n)[i] == page;
      IndexUnique(Maddrs(Cells(all), n), i);
      Counted(Records(Cells(all), n), EntryIds(), i);
    }

    method AddRecord(se: SlabEntry, ghost i: nat, r: Rec, ghost t: Target)
      requires Valid() && i < n && n <= |all| && all[i] == se && r == Encode(r.locOffset, NameOf(EntryIds(), t)) && r.locOffset < PAGE_SIZE
      requires t.In? ==> t.id < n && t.off < PAGE_SIZE
      modifies `seen, se
      ensures Valid() && EntryIds() == old(EntryIds()) && Cells(all) == WithRecord(old(Cells(all)), i, r)
      ensures seen == Noted(old(seen), i, r.locOffset, t, Wraps(old(Cells(all)), i))
    {
      hide Spread, Contents, Unused;
      ghost var cells := Cells(all);
      MoreRecords(cells, n, all, tree, seen, i, r, t);
      seen := Noted(seen, i, r.locOffset, t, Wraps(cells, i));
      se.ptrs := Written(se.ptrs, r);
      assert Cells(all) == WithRecord(cells, i, r);
    }

    // do_fixptrs: the loops over the four levels visit the entries in the order of their ids.

    /** The addresses of the data pages of all entries; those not initialised have none. */
    ghost function Look(): (look: seq<nat>)
      reads `all, all
      ensures |look| == |all|
    {
      Maddrs(Cells(all), |all|)
    }

    /** Every id leads to an entry. */
    ghost predicate Ready()
      reads `dir, `freeList, `tree, `n, `all, `seen, all
    {
      Valid() && Landing(EntryIds(), |all|)
    }

    lemma RecordsGood()
      requires Ready()
      ensures n <= |all| && AllGood(Records(Cells(all), n), |all|)
    {
      hide Spread, PagesOf, Recorded;
      ProperGood(Records(Cells(all), n), EntryIds(), |all|);
    }

    ghost function FixedTo(mem0: Memory, p: nat): Memory
      reads `dir, `freeList, `tree, `n, `all, `seen, all
      requires Ready()
    {
      RecordsGood();
      FixAll(mem0, Maddrs(Cells(all), n), Look(), Records(Cells(all), n), p)
    }

    method FixPtrs()
      requires Ready()
      modifies `mem
      ensures Ready() && mem == FixedTo(old(mem), |all|)
    {
      hide Spread, Contents, Unused, Landing, FixedTo, Packed, Distinct;
      Facts();
      NoneFixed(mem);
      var i := 0;
      while i < |dir|
        invariant 0 <= i <= |dir| && Ready()
        invariant mem == FixedTo(old(mem), Before(dir, i, 0))
      {
        FixOuter(i, old(mem));
        i := i + 1;
      }
      BeforeEnd(dir, all);
    }

    method FixOuter(i: nat, ghost mem0: Memory)
      requires Ready() && i < |dir| && mem == FixedTo(mem0, Before(dir, i, 0))
      modifies `mem
      ensures Ready() && mem == FixedTo(mem0, Before(dir, i + 1, 0))
    {
      hide Spread, Contents, Unused, Landing, FixedTo, Packed, Before, Distinct;
      Facts();
      var j := 0;
      while j < |dir[i]|
        invariant 0 <= j <= |dir[i]| && Ready()
        invariant mem == FixedTo(mem0, Before(dir, i, j))
      {
        FixInner(i, j, mem0);
        j := j + 1;
      }
      BeforeNext(dir, i);
    }

    method FixInner(i: nat, j: nat, ghost mem0: Memory)
      requires Ready() && i < |dir| && j < |dir[i]| && mem == FixedTo(mem0, Before(dir, i, j))
      modifies `mem
      ensures Ready() && mem == FixedTo(mem0, Before(dir, i, j + 1))
    {
      hide Spread, Contents, Unused, Landing, FixedTo, Packed, Before, Distinct;
      Facts();
      BeforePlace(dir, i, j);
      var k := 0;
      while k < |dir[i][j]|
        invariant 0 <= k <= |dir[i][j]| && Ready()
        invariant mem == FixedTo(mem0, Place(i, j, k, 0))
      {
        FixBucket(i, j, k, mem0);
        k := k + 1;
      }
      BeforeInner(dir, i, j);
    }

    method FixBucket(i: nat, j: nat, k: nat, ghost mem0: Memory)
      requires Ready() && i < |dir| && j < |dir[i]| && k < |dir[i][j]| && mem == FixedTo(mem0, Place(i, j, k, 0))
      modifies `mem
      ensures Ready() && mem == FixedTo(mem0, Place(i, j, k + 1, 0))
    {
      hide Spread, Contents, Unused, Landing, FixedTo, Packed, Distinct;
      var l := 0;
      while l < BUCKET
        invariant 0 <= l <= BUCKET && Ready()
        invariant mem == FixedTo(mem0, Place(i, j, k, l))
      {
        AtPlace(dir, all, i, j, k, l);
        var se := dir[i][j][k][l];
        Skipped(mem0, Place(i, j, k, l));
        if IsInit(se) {
          FixEntry(se, Place(i, j, k, l), mem0);
        }
        l := l + 1;
      }
    }

    lemma NoneFixed(mem0: Memory)
      requires Ready()
      ensures FixedTo(mem0, 0) == mem0
    {
    }

    /** Only initialised entries have records, and those are the first ones. */
    lemma Skipped(mem0: Memory, p: nat)
      requires Ready() && p < |all|
      ensures n <= |all| && (IsInit(all[p]) <==> p < n)
      ensures p >= n ==> FixedTo(mem0, p + 1) == FixedTo(mem0, p)
    {
      hide Spread, Recorded, AllProper;
      if p < n { assert Maddrs(Cells(all), n)[p] != 0; }
    }

    /** The records of one entry, in order. */
    method FixEntry(se: SlabEntry, ghost p: nat, ghost mem0: Memory)
      requires Ready() && p < n && n <= |all| && all[p] == se && mem == FixedTo(mem0, p)
      modifies `mem
      ensures Ready() && mem == FixedTo(mem0, p + 1)
    {
      hide Ready, Valid, FixedTo, Image, Spread;
      EntryFacts(p);
      ghost var look, mem1 := Look(), mem;
      var m := 0;
      while m < |se.ptrs|
        invariant 0 <= m <= |se.ptrs| && Ready() && Good(se.ptrs, |look|) && look == Look()
        invariant mem == FixPage(mem1, se.maddr, se.ptrs, look, m)
      {
        RecordImage(look, se.ptrs[m]);
        var ptrLoc := se.maddr + se.ptrs[m].locOffset;
        if IsNull(se.ptrs[m]) {
          mem := mem[ptrLoc := 0];
        } else {
          var seVal := ById(se.ptrs[m].valSeid);
          mem := mem[ptrLoc := seVal.maddr + se.ptrs[m].valOffset];
        }
        m := m + 1;
      }
      FixedEntry(p, mem0, mem1);
    }

    lemma RecordImage(look: seq<nat>, r: Rec)
      requires Ready() && look == Look() && (IsNull(r) || r.valSeid % CAPACITY < |all|)
      ensures Spread(dir, all)
      ensures Image(look, r) == if IsNull(r) then 0 else all[r.valSeid % CAPACITY].maddr + r.valOffset
    {
      hide Spread, Contents;
    }

    lemma EntryFacts(i: nat)
      requires Ready() && i < n
      ensures n <= |all| && Good(all[i].ptrs, |all|)
    {
      hide Spread, Contents;
      RecordsGood();
      assert Good(Records(Cells(all), n)[i], |all|);
    }

    lemma FixedEntry(p: nat, mem0: Memory, mem1: Memory)
      requires Ready() && p < n && mem1 == FixedTo(mem0, p)
      ensures n <= |all| && Good(all[p].ptrs, |all|)
      ensures FixedTo(mem0, p + 1) == FixPage(mem1, all[p].maddr, all[p].ptrs, Look(), |all[p].ptrs|)
    {
      hide Spread, FixPage, Contents, Landing;
      EntryFacts(p);
    }

    // Restoring a container: the data pages come back at other addresses. The ids are in the pages of the slab, and
    // come back as they were; slab_map puts the entries that are not initialised on the free list in the order of
    // their positions, in which they were there before.

    /** The pages are mapped at `places`, those of the records among them, and memory is as the mapping left it. */
    method Relocate(places: seq<nat>, newMem: Memory)
      requires Valid() && |places| == n && Apart(places) && AllInPage(Cells(all))
      modifies `mem, `tree, all
      ensures Valid() && mem == newMem && n <= |all| && EntryIds() == old(EntryIds())
      ensures Cells(all) == Moved(old(Cells(all)), places, n) && Maddrs(Cells(all), n) == places
    {
      hide Spread, Contents, Apart, Unused, Moved, AllInPage;
      ghost var cells := Cells(all);
      Facts();
      MovedNone(cells, places);
      ghost var tree0 := tree;
      mem, tree := newMem, map[];
      var i := 0;
      while i < |places|
        invariant 0 <= i <= |places| <= |cells| && Cells(all) == Moved(cells, places, i) && mem == newMem
        invariant forall k :: 0 <= k < i ==> places[k] in tree && tree[places[k]] == all[k]
        invariant forall a :: a in tree ==> a in places[..i]
      {
        MovedRecords(cells, places, i);
        SetAddress(i, places[i]);
        MovedStep(cells, places, i);
        assert forall k :: 0 <= k < i ==> places[k] != places[i] by { NewPlace(places, i); }
        assert places[..i + 1] == places[..i] + [places[i]];
        i := i + 1;
      }
      assert places[..i] == places;
      MovedContents(cells, n, all, tree0, tree, seen, places);
    }

    method SetAddress(i: nat, place: nat)
      requires Spread(dir, all) && Distinct(all) && i < |all| && InPage(all[i].ptrs)
      modifies `tree, all[i]
      ensures tree == old(tree)[place := all[i]] && Cells(all) == old(Cells(all))[i := old(Cells(all))[i].(maddr := place)]
    {
      hide Spread;
      FullFacts();
      var se := ById(i);
      se.maddr := place;
      InPageExact(se.ptrs);
      se.ptrs := Mapped(se.ptrs);
      tree := tree[place := se];
    }

    lemma FullFacts()
      requires Spread(dir, all)
      ensures |all| <= CAPACITY
    {
      FullExact(dir, all);
    }

    /** slab_map and slab_fixptrs. Every recorded location gets the same offset of the page of the entry that the id of
      its target leads to. That is the page of the target, as it must be, exactly if the id leads to the target. Every
      other word, in the pages and outside them, is as it was mapped. No record may have been written past its page:
      `SurvivesExact` and `Overrun` say what happens to one that was. */
    method Restore(places: seq<nat>, newMem: Memory)
      requires Ready() && |places| == n && Apart(places) && AllInPage(Cells(all))
      modifies `mem, `tree, all
      ensures Ready() && EntryIds() == old(EntryIds()) && Cells(all) == Moved(old(Cells(all)), places, n)
      ensures forall i, o :: (i, o) in seen ==> i < n && Fixed(mem, places, Look(), EntryIds(), seen[(i, o)], i, o)
      ensures Named(EntryIds()) ==> forall i, o :: (i, o) in seen ==> i < n && places[i] + o in mem && mem[places[i] + o] == Relocated(places, seen[(i, o)])
      ensures forall i, o :: 0 <= i < n && 0 <= o < PAGE_SIZE && (i, o) !in seen ==> SameAt(mem, newMem, places[i] + o)
      ensures forall a: nat :: Outside(places, a) ==> SameAt(mem, newMem, a)
    {
      hide Valid, FixedTo, Spread, AllInPage, Outside, SameAt, Named, Landing, Fixed;
      Relocate(places, newMem);
      FixPtrs();
      Restored(places, newMem);
      AllRight(places);
    }

    lemma Restored(places: seq<nat>, newMem: Memory)
      requires Ready() && Maddrs(Cells(all), n) == places && mem == FixedTo(newMem, |all|)
      ensures forall i, o :: (i, o) in seen ==> i < n && Fixed(mem, places, Look(), EntryIds(), seen[(i, o)], i, o)
      ensures forall i, o :: 0 <= i < n && 0 <= o < PAGE_SIZE && (i, o) !in seen ==> SameAt(mem, newMem, places[i] + o)
      ensures forall a: nat :: Outside(places, a) ==> SameAt(mem, newMem, a)
    {
      hide Spread, Unused, Recorded, AllProper, FixAll, Apart, SameAt, Outside, Laid, Landing;
      var records, ids, look := Records(Cells(all), n), EntryIds(), Look();
      RecordsGood();
      LookLaid();
      SeenInside(records, ids, seen);
      forall i: nat, o: nat | i < n && o < PAGE_SIZE
        ensures (i, o) in seen ==> Fixed(mem, places, look, ids, seen[(i, o)], i, o)
        ensures (i, o) !in seen ==> SameAt(mem, newMem, places[i] + o)
      {
        LocationFixed(newMem, places, look, records, ids, seen, |all|, i, o);
        if (i, o) in seen { RewrittenExact(look, n, ids, seen[(i, o)]); }
      }
      forall a: nat | Outside(places, a) ensures SameAt(mem, newMem, a) {
        FixAllOutside(newMem, places, look, records, |all|, a);
      }
    }

    lemma LookLaid()
      requires Valid()
      ensures Laid(Look(), n)
    {
      hide Spread, Recorded, AllProper;
      assert Look()[..n] == Maddrs(Cells(all), n);
    }

    lemma AllRight(places: seq<nat>)
      requires Ready() && n <= |all| && Maddrs(Cells(all), n) == places
      requires forall i, o :: (i, o) in seen ==> i < n && Fixed(mem, places, Look(), EntryIds(), seen[(i, o)], i, o)
      ensures Named(EntryIds()) ==> forall i, o :: (i, o) in seen ==> i < n && places[i] + o in mem && mem[places[i] + o] == Relocated(places, seen[(i, o)])
    {
      hide Spread, Unused, PagesOf, AllProper, Apart, Landing, NamesAt;
      SeenInside(Records(Cells(all), n), EntryIds(), seen);
      if Named(EntryIds()) {
        forall i, o | (i, o) in seen ensures mem[places[i] + o] == Relocated(places, seen[(i, o)]) {
          assert Fixed(mem, places, Look(), EntryIds(), seen[(i, o)], i, o);
        }
      }
    }
  }

  /** A recorded location after relocation, and when it is right. */
  ghost predicate Fixed(mem: Memory, places: seq<nat>, look: seq<nat>, ids: seq<nat>, t: Target, i: nat, o: nat) {
    && i < |places| && places[i] + o in mem && mem[places[i] + o] == Rewritten(look, ids, t)
    && (mem[places[i] + o] == Relocated(look, t) <==> t.In? ==> NamesAt(ids, t.id))
  }

  /** What a pointer value points to when the data pages are at `maddrs`. */
  ghost function TargetOf(maddrs: seq<nat>, v: nat): Target {
    var j := IndexOf(maddrs, RoundDown(v));
    if v == 0 || j == -1 then Nil else In(j, v - RoundDown(v))
  }

  /** The pointer at `loc`, whose value is `v`, has been recorded behind the other records of its page, and nothing else
    has changed. All records lie inside their pages exactly if they did before and the page had room. */
  ghost predicate Inserted(cells: seq<Cell>, seen: map<(nat, nat), Target>, n: nat, loc: nat, v: nat, cells': seq<Cell>, seen': map<(nat, nat), Target>) {
    n <= |cells| &&
    var maddrs := Maddrs(cells, n);
    var i, o, t := IndexOf(maddrs, RoundDown(loc)), loc - RoundDown(loc), TargetOf(maddrs, v);
    && i != -1
    && cells' == WithRecord(cells, i, Encode(o, NameOf(Ids(cells, n), t)))
    && seen' == Noted(seen, i, o, t, Wraps(cells, i))
    && (!Wraps(cells, i) ==> (AllInPage(cells') <==> AllInPage(cells) && HasRoom(cells, i)))
  }

  lemma RecordOf(ids: seq<nat>, o: nat, j: nat, off: nat)
    ensures j < |ids| ==> Encode(o, NameOf(ids, In(j, off))) == Rec(o, ids[j], off)
    ensures Encode(o, NameOf(ids, Nil)) == Rec(o, SEID_NULL, OFFSET_NULL)
  {
  }

  lemma TargetFound(maddrs: seq<nat>, v: nat, j: nat)
    ensures v != 0 && IndexOf(maddrs, RoundDown(v)) == j ==> TargetOf(maddrs, v) == In(j, v - RoundDown(v))
    ensures v == 0 ==> TargetOf(maddrs, v) == Nil
  {
  }

  lemma InsertedAs(cells: seq<Cell>, seen: map<(nat, nat), Target>, n: nat, loc: nat, v: nat, cells': seq<Cell>, seen': map<(nat, nat), Target>)
    requires n <= |cells| && IndexOf(Maddrs(cells, n), RoundDown(loc)) != -1
    requires var maddrs := Maddrs(cells, n);
      var i, o, t := IndexOf(maddrs, RoundDown(loc)), loc - RoundDown(loc), TargetOf(maddrs, v);
      && cells' == WithRecord(cells, i, Encode(o, NameOf(Ids(cells, n), t))) && seen' == Noted(seen, i, o, t, Wraps(cells, i))
      && |cells[i].ptrs| < INDEX_LIMIT
    ensures Inserted(cells, seen, n, loc, v, cells', seen')
  {
    hide AllInPage, RoundDown, TargetOf, Encode, NameOf;
    var maddrs := Maddrs(cells, n);
    var i, o, t := IndexOf(maddrs, RoundDown(loc)), loc - RoundDown(loc), TargetOf(maddrs, v);
    if !Wraps(cells, i) { RecordFits(cells, i, Encode(o, NameOf(Ids(cells, n), t))); }
  }

  lemma PackedPages<T>(d: Dir<T>)
    requires Packed(d)
    ensures 0 < |d| <= DIR && 0 < |d[|d| - 1]| <= OUTER && 0 < |LastOuter(d)| <= OUTER && 0 < |LastInner(d)| <= INNER
  {
  }
}
