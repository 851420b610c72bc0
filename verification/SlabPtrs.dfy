/** Recorded pointers: what the records of a data page say, and what rewriting them does to memory. */
module SlabPtrs {
  import opened Paging
  import opened Wrappers
  import opened SlabShape

  const SEID_NULL := 0xffffffff
  const OFFSET_NULL := 0xffff

  type Memory = map<nat, nat>

  /** struct slab_ptr: where in its page a pointer is, and the entry and offset it points to. */
  datatype Rec = Rec(locOffset: nat, valSeid: nat, valOffset: nat)

  /** What a pointer pointed to when it was recorded. */
  datatype Target = Nil | In(id: nat, off: nat)

  function RoundDown(a: nat): (p: nat)
    ensures p % PAGE_SIZE == 0 && p <= a < p + PAGE_SIZE
  {
    a - a % PAGE_SIZE
  }

  function Encode(o: nat, t: Target): Rec {
    match t
    case Nil => Rec(o, SEID_NULL, OFFSET_NULL)
    case In(id, off) => Rec(o, id, off)
  }

  predicate IsNull(r: Rec) {
    r.valSeid == SEID_NULL && r.valOffset == OFFSET_NULL
  }

  /** The NULL record is no record of a pointer into a page, whatever the entry. */
  lemma NullApart(o: nat, t: Target)
    requires t.In? ==> t.off < PAGE_SIZE
    ensures IsNull(Encode(o, t)) <==> t == Nil
  {
  }

  /** The last record for an offset. */
  function LastAt(ptrs: seq<Rec>, o: nat): (r: Option<Rec>)
    ensures r.Some? ==> r.value in ptrs && r.value.locOffset == o
  {
    if ptrs == [] then None
    else if ptrs[|ptrs| - 1].locOffset == o then Some(ptrs[|ptrs| - 1])
    else LastAt(ptrs[..|ptrs| - 1], o)
  }

  lemma LastAfter(ptrs: seq<Rec>, r: Rec, o: nat)
    ensures LastAt(ptrs + [r], o) == if r.locOffset == o then Some(r) else LastAt(ptrs, o)
  {
    assert (ptrs + [r])[..|ptrs|] == ptrs;
  }

  // The page that the records are written to.

  /** The elements that struct slab_ptr declares, counting the members of a record without padding. */
  const SLAB_PTR_SIZE := PAGE_SIZE / (2 * 2 + 4)

  /** A record is a uint16_t, a uint32_t and a uint16_t; the alignment of the second pads it to 12 bytes. */
  const RECORD_BYTES := 12

  /** The records for which the page has room. */
  const ROOM := PAGE_SIZE / RECORD_BYTES

  /** The index of the next record is a uint16_t. */
  const INDEX_LIMIT := 0x1_0000

  /** The records below the index after one more has been written. */
  function Written(ptrs: seq<Rec>, r: Rec): seq<Rec> {
    if |ptrs| + 1 == INDEX_LIMIT then [] else ptrs + [r]
  }

  /** Where the last member of record `idx` ends, from the start of the page. */
  function RecordEnd(idx: nat): nat {
    RECORD_BYTES * idx + 10
  }

  ghost predicate InPage(ptrs: seq<Rec>) {
    forall k :: 0 <= k < |ptrs| ==> RecordEnd(k) <= PAGE_SIZE
  }

  /** The declared array is longer than the page: the records lie inside the page exactly if there are no more than
    341 of them, and inside the array exactly if there are no more than 512. */
  lemma InPageExact(ptrs: seq<Rec>)
    ensures InPage(ptrs) <==> |ptrs| <= ROOM
    ensures (forall k :: 0 <= k < |ptrs| ==> RecordEnd(k) <= RECORD_BYTES * SLAB_PTR_SIZE) <==> |ptrs| <= SLAB_PTR_SIZE
    ensures ROOM == 341 && SLAB_PTR_SIZE == 512
  {
    if |ptrs| > ROOM { assert RecordEnd(|ptrs| - 1) > PAGE_SIZE; }
    if |ptrs| > SLAB_PTR_SIZE { assert RecordEnd(|ptrs| - 1) > RECORD_BYTES * SLAB_PTR_SIZE; }
  }

  /** The records that the page brings back when it is mapped again. */
  function Mapped(ptrs: seq<Rec>): (r: seq<Rec>)
    ensures |r| <= ROOM && r <= ptrs && (|ptrs| <= ROOM ==> r == ptrs)
  {
    if |ptrs| <= ROOM then ptrs else ptrs[..ROOM]
  }

  /** All that was recorded is found again, whatever memory lies behind the page. */
  ghost predicate Survives(ptrs: seq<Rec>) {
    forall behind: seq<Rec>, o :: |behind| == |ptrs| - |Mapped(ptrs)| ==> LastAt(Mapped(ptrs) + behind, o) == LastAt(ptrs, o)
  }

  /** do_insert_pointer does not look at the index: the records of a page survive exactly if they lie inside it. */
  lemma SurvivesExact(ptrs: seq<Rec>)
    ensures Survives(ptrs) <==> InPage(ptrs)
  {
    InPageExact(ptrs);
    if |ptrs| > ROOM {
      var n, last := |ptrs| - ROOM, ptrs[|ptrs| - 1];
      var other := if IsNull(last) then Rec(last.locOffset, 0, 0) else Rec(last.locOffset, SEID_NULL, OFFSET_NULL);
      var behind := seq(n, k => other);
      LastOf(Mapped(ptrs) + behind);
      LastOf(ptrs);
      assert LastAt(Mapped(ptrs) + behind, last.locOffset) != LastAt(ptrs, last.locOffset);
    } else {
      assert forall behind: seq<Rec> | |behind| == 0 :: Mapped(ptrs) + behind == ptrs;
    }
  }

  lemma LastOf(ptrs: seq<Rec>)
    requires ptrs != []
    ensures LastAt(ptrs, ptrs[|ptrs| - 1].locOffset) == Some(ptrs[|ptrs| - 1])
  {
  }

  /** A location that was NULL each of the first 341 times it was recorded and has since pointed to offset 8 of
    entry 0, on a page that is followed by zeros. */
  function Rerecorded(n: nat): (r: seq<Rec>)
    ensures |r| == n
  {
    seq(n, k => if k < ROOM then Rec(16, SEID_NULL, OFFSET_NULL) else Rec(16, 0, 8))
  }

  /** With one record too many, or with any greater number of them that the index can count, it comes back as NULL, and
    a pointer is written to the start of the page, where none was recorded. */
  lemma Overrun(n: nat, place: nat)
    requires ROOM < n < INDEX_LIMIT
    ensures var ptrs, behind := Rerecorded(n), seq(n - ROOM, k => Rec(0, 0, 0));
      && !InPage(ptrs) && |behind| == n - |Mapped(ptrs)| && Good(ptrs, 1) && Good(Mapped(ptrs) + behind, 1)
      && var recorded, restored := FixPage(map[], place, ptrs, [place], n), FixPage(map[], place, Mapped(ptrs) + behind, [place], n);
      && recorded == map[place + 16 := place + 8]
      && restored == map[place + 16 := 0, place := place]
  {
    InPageExact(Rerecorded(n));
    OverrunRecorded(n, n, place);
    OverrunRestored(n, n, place);
  }

  lemma {:induction false} OverrunRecorded(n: nat, m: nat, place: nat)
    requires 0 < m <= n && ROOM < n
    ensures Good(Rerecorded(n), 1)
    ensures FixPage(map[], place, Rerecorded(n), [place], m) == map[place + 16 := if m <= ROOM then 0 else place + 8]
  {
    if m > 1 { OverrunRecorded(n, m - 1, place); }
  }

  lemma {:induction false} OverrunRestored(n: nat, m: nat, place: nat)
    requires 0 < m <= n && ROOM < n
    ensures var ptrs := Mapped(Rerecorded(n)) + seq(n - ROOM, k => Rec(0, 0, 0));
      && |ptrs| == n && Good(ptrs, 1)
      && FixPage(map[], place, ptrs, [place], m) == if m <= ROOM then map[place + 16 := 0] else map[place + 16 := 0, place := place]
  {
    if m > 1 { OverrunRestored(n, m - 1, place); }
  }

  /** What get_slab_entry_by_id makes of a record when the data pages of all entries are at `look`. */
  function Image(look: seq<nat>, r: Rec): nat
    requires IsNull(r) || r.valSeid % CAPACITY < |look|
  {
    if IsNull(r) then 0 else look[r.valSeid % CAPACITY] + r.valOffset
  }

  ghost predicate Good(ptrs: seq<Rec>, n: nat) {
    forall k :: 0 <= k < |ptrs| ==> ptrs[k].locOffset < PAGE_SIZE && (IsNull(ptrs[k]) || ptrs[k].valSeid % CAPACITY < n)
  }

  /** Memory after the first `m` records of the page at `base` have been followed. */
  function FixPage(mem: Memory, base: nat, ptrs: seq<Rec>, look: seq<nat>, m: nat): Memory
    requires m <= |ptrs| && Good(ptrs, |look|)
  {
    if m == 0 then mem
    else FixPage(mem, base, ptrs, look, m - 1)[base + ptrs[m - 1].locOffset := Image(look, ptrs[m - 1])]
  }

  /** The last record of each offset wins, and nothing else changes. */
  lemma {:induction false} FixPageAt(mem: Memory, base: nat, ptrs: seq<Rec>, look: seq<nat>, m: nat, a: nat)
    requires m <= |ptrs| && Good(ptrs, |look|)
    ensures var after := FixPage(mem, base, ptrs, look, m);
      if a >= base && LastAt(ptrs[..m], a - base).Some? then a in after && after[a] == Image(look, LastAt(ptrs[..m], a - base).value)
      else SameAt(after, mem, a)
  {
    if m > 0 {
      FixPageAt(mem, base, ptrs, look, m - 1, a);
      assert ptrs[..m] == ptrs[..m - 1] + [ptrs[m - 1]];
      if a >= base { LastAfter(ptrs[..m - 1], ptrs[m - 1], a - base); }
    }
  }

  ghost predicate AllGood(ptrs: seq<seq<Rec>>, n: nat) {
    forall i :: 0 <= i < |ptrs| ==> Good(ptrs[i], n)
  }

  /** Memory after the first `p` pages have been fixed. */
  function FixAll(mem: Memory, maddrs: seq<nat>, look: seq<nat>, ptrs: seq<seq<Rec>>, p: nat): Memory
    requires |ptrs| == |maddrs| && AllGood(ptrs, |look|)
  {
    if p == 0 then mem
    else if p > |maddrs| then FixAll(mem, maddrs, look, ptrs, p - 1)
    else FixPage(FixAll(mem, maddrs, look, ptrs, p - 1), maddrs[p - 1], ptrs[p - 1], look, |ptrs[p - 1]|)
  }

  /** Pages do not overlap. */
  ghost predicate Apart(maddrs: seq<nat>) {
    && (forall i :: 0 <= i < |maddrs| ==> maddrs[i] != 0 && maddrs[i] % PAGE_SIZE == 0)
    && (forall i, j :: 0 <= i < j < |maddrs| ==> maddrs[i] != maddrs[j])
  }

  /** The word at offset `o` of page `i`. */
  lemma {:induction false} FixAllAt(mem: Memory, maddrs: seq<nat>, look: seq<nat>, ptrs: seq<seq<Rec>>, p: nat, i: nat, o: nat)
    requires |ptrs| == |maddrs| && AllGood(ptrs, |look|) && Apart(maddrs) && i < |maddrs| && o < PAGE_SIZE
    ensures var after, a := FixAll(mem, maddrs, look, ptrs, p), maddrs[i] + o;
      if i < p && LastAt(ptrs[i], o).Some? then a in after && after[a] == Image(look, LastAt(ptrs[i], o).value)
      else SameAt(after, mem, a)
  {
    if p > 0 {
      FixAllAt(mem, maddrs, look, ptrs, p - 1, i, o);
      if p <= |maddrs| {
        var before, a := FixAll(mem, maddrs, look, ptrs, p - 1), maddrs[i] + o;
        FixPageAt(before, maddrs[p - 1], ptrs[p - 1], look, |ptrs[p - 1]|, a);
        assert ptrs[p - 1][..|ptrs[p - 1]|] == ptrs[p - 1];
        if p - 1 != i { OtherPage(maddrs, look, ptrs, p - 1, i, o); }
      }
    }
  }

  /** The address is in none of the pages. */
  ghost predicate Outside(maddrs: seq<nat>, a: nat) {
    forall i :: 0 <= i < |maddrs| ==> a < maddrs[i] || a >= maddrs[i] + PAGE_SIZE
  }

  /** Two memories have the same word at an address, or both none. */
  ghost predicate SameAt(mem: Memory, mem': Memory, a: nat) {
    (a in mem <==> a in mem') && (a in mem' ==> mem[a] == mem'[a])
  }

  /** Memory outside the data pages. */
  lemma {:induction false} FixAllOutside(mem: Memory, maddrs: seq<nat>, look: seq<nat>, ptrs: seq<seq<Rec>>, p: nat, a: nat)
    requires |ptrs| == |maddrs| && AllGood(ptrs, |look|)
    requires Outside(maddrs, a)
    ensures SameAt(FixAll(mem, maddrs, look, ptrs, p), mem, a)
  {
    if p > 0 {
      FixAllOutside(mem, maddrs, look, ptrs, p - 1, a);
      if p <= |maddrs| {
        FixPageAt(FixAll(mem, maddrs, look, ptrs, p - 1), maddrs[p - 1], ptrs[p - 1], look, |ptrs[p - 1]|, a);
        assert ptrs[p - 1][..|ptrs[p - 1]|] == ptrs[p - 1];
        assert a < maddrs[p - 1] || a >= maddrs[p - 1] + PAGE_SIZE;
        assert Good(ptrs[p - 1], |look|);
      }
    }
  }

  lemma OtherPage(maddrs: seq<nat>, look: seq<nat>, ptrs: seq<seq<Rec>>, j: nat, i: nat, o: nat)
    requires |ptrs| == |maddrs| && AllGood(ptrs, |look|) && Apart(maddrs) && i < |maddrs| && j < |maddrs| && i != j && o < PAGE_SIZE
    ensures maddrs[i] + o >= maddrs[j] ==> LastAt(ptrs[j], maddrs[i] + o - maddrs[j]) == None
  {
    if maddrs[i] + o >= maddrs[j] {
      var r := LastAt(ptrs[j], maddrs[i] + o - maddrs[j]);
      if r.Some? {
        var k :| 0 <= k < |ptrs[j]| && ptrs[j][k] == r.value;
        assert ptrs[j][k].locOffset < PAGE_SIZE;
        DistinctPages(maddrs, i, j);
      }
    }
  }

  lemma DistinctPages(maddrs: seq<nat>, i: nat, j: nat)
    requires Apart(maddrs) && i < |maddrs| && j < |maddrs| && i != j
    ensures maddrs[i] + PAGE_SIZE <= maddrs[j] || maddrs[j] + PAGE_SIZE <= maddrs[i]
  {
    if i < j { assert maddrs[i] != maddrs[j]; } else { assert maddrs[j] != maddrs[i]; }
  }
}
