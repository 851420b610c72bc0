/** The slots of a data page: the bitmap that says which are taken, slab_entry_alloc_mem and slab_entry_full. */
module SlabPage {
  import opened Paging

  const LARGE := 512

  function Byte(bit: nat): nat {
    bit / 8
  }

  /** bit_test of one byte. */
  predicate BitOf(b: bv8, k: nat)
    requires k < 8
  {
    (b >> k) & 1 == 1
  }

  predicate BitAt(bits: seq<bv8>, i: nat)
    requires Byte(i) < |bits|
  {
    BitOf(bits[Byte(i)], i % 8)
  }

  function BitstrSize(n: nat): nat {
    (n + 7) / 8
  }

  // SLAB_ENTRY_CAPACITY
  function Capacity(size: nat): nat
    requires 0 < size <= PAGE_SIZE
  {
    if size < LARGE then (PAGE_SIZE - BitstrSize(size)) / size else PAGE_SIZE / size
  }

  // SLAB_ENTRY_DATAOFFSET
  function DataOffset(size: nat): nat
    requires 0 < size <= PAGE_SIZE
  {
    if size >= LARGE then 0 else BitstrSize(PAGE_SIZE / size)
  }

  lemma FullByte(b: bv8)
    ensures b == 0xff <==> forall k: nat :: k < 8 ==> BitOf(b, k)
  {
    if forall k: nat :: k < 8 ==> BitOf(b, k) {
      assert BitOf(b, 0) && BitOf(b, 1) && BitOf(b, 2) && BitOf(b, 3) && BitOf(b, 4) && BitOf(b, 5) && BitOf(b, 6) && BitOf(b, 7);
    }
  }

  lemma ShiftBit(b: bv8, k: nat)
    requires k < 8
    ensures (b >> k) & 1 == 1 <==> BitOf(b, k)
    ensures k < 7 ==> (b >> k) >> 1 == b >> (k + 1)
  {
    if k == 0 {} else if k == 1 {} else if k == 2 {} else if k == 3 {} else if k == 4 {} else if k == 5 {} else if k == 6 {} else {}
  }

  // _bit_mask
  function Mask(k: nat): bv8
    requires k < 8
  {
    1 << k
  }

  lemma OneBit(b: bv8, k: nat, j: nat)
    requires k < 8 && j < 8
    ensures BitOf(b | Mask(k), j) <==> j == k || BitOf(b, j)
  {
    OneBitAt(b, k, 0); OneBitAt(b, k, 1); OneBitAt(b, k, 2); OneBitAt(b, k, 3);
    OneBitAt(b, k, 4); OneBitAt(b, k, 5); OneBitAt(b, k, 6); OneBitAt(b, k, 7);
  }

  lemma OneBitAt(b: bv8, k: nat, j: nat)
    requires k < 8 && j < 8
    ensures BitOf(b | Mask(k), j) <==> j == k || BitOf(b, j)
  {
    if k == 0 {} else if k == 1 {} else if k == 2 {} else if k == 3 {} else if k == 4 {} else if k == 5 {} else if k == 6 {} else {}
  }

  /** bit_ffc: the first clear bit below `nbits`, or -1. */
  method FirstClear(bits: array<bv8>, nbits: nat) returns (value: int)
    requires nbits > 0 ==> Byte(nbits - 1) < bits.Length
    ensures value == -1 <==> forall i :: 0 <= i < nbits ==> BitAt(bits[..], i)
    ensures value != -1 ==> 0 <= value < nbits && !BitAt(bits[..], value) && forall i :: 0 <= i < value ==> BitAt(bits[..], i)
  {
    value := -1;
    if nbits > 0 {
      var stop, byte := Byte(nbits - 1), 0;
      while byte <= stop
        invariant 0 <= byte <= stop + 1 && value == -1
        invariant forall i :: 0 <= i < 8 * byte ==> BitAt(bits[..], i)
      {
        FullByte(bits[byte]);
        if bits[byte] != 0xff {
          var k := ClearIn(bits[byte]);
          value := 8 * byte + k;
          assert Byte(value) == byte && value % 8 == k;
          assert forall i :: 8 * byte <= i < value ==> Byte(i) == byte && BitOf(bits[byte], i % 8);
          assert !BitAt(bits[..], value) && forall i :: 0 <= i < value ==> BitAt(bits[..], i);
          break;
        }
        assert forall i :: 8 * byte <= i < 8 * byte + 8 ==> Byte(i) == byte && BitOf(bits[byte], i % 8);
        byte := byte + 1;
      }
      if value >= nbits {
        value := -1;
      }
    }
  }

  /** The inner loop of bit_ffc. */
  method ClearIn(b: bv8) returns (k: nat)
    requires b != 0xff
    ensures k < 8 && !BitOf(b, k) && forall j :: 0 <= j < k ==> BitOf(b, j)
  {
    hide BitOf;
    FullByte(b);
    var lb := b;
    k := 0;
    ShiftBit(b, 0);
    assert b >> 0 == b;
    while lb & 1 == 1
      invariant k < 8 && lb == b >> k && forall j :: 0 <= j < k ==> BitOf(b, j)
      decreases 8 - k
    {
      ShiftBit(b, k);
      assert BitOf(b, k);
      k := k + 1;
      lb := lb >> 1;
    }
    ShiftBit(b, k);
  }

  /** bit_set */
  method BitSet(bits: array<bv8>, bit: nat)
    requires Byte(bit) < bits.Length
    modifies bits
    ensures forall i :: 0 <= i && Byte(i) < bits.Length ==> BitAt(bits[..], i) == (i == bit || BitAt(old(bits[..]), i))
  {
    ghost var before := bits[..];
    bits[Byte(bit)] := bits[Byte(bit)] | Mask(bit % 8);
    forall i | 0 <= i && Byte(i) < bits.Length
      ensures BitAt(bits[..], i) == (i == bit || BitAt(before, i))
    {
      if Byte(i) == Byte(bit) { OneBit(before[Byte(bit)], bit % 8, i % 8); }
    }
  }

  class Page {
    const size: nat          // se_size
    const maddr: nat         // where the page is
    const bits: array<bv8>   // the bitmap, in the page or, for large slots, in the entry

    predicate Valid() {
      0 < size <= PAGE_SIZE && Capacity(size) > 0 && Byte(Capacity(size) - 1) < bits.Length
    }

    constructor (size: nat, maddr: nat, bits: array<bv8>)
      requires 0 < size <= PAGE_SIZE && Capacity(size) > 0 && Byte(Capacity(size) - 1) < bits.Length
      ensures Valid() && this.size == size && this.maddr == maddr && this.bits == bits
    {
      this.size, this.maddr, this.bits := size, maddr, bits;
    }

    ghost predicate Full()
      requires Valid()
      reads bits
    {
      forall i :: 0 <= i < Capacity(size) ==> BitAt(bits[..], i)
    }

    function SlotAddr(i: nat): (addr: nat)
      requires Valid()
      ensures addr >= maddr
    {
      maddr + DataOffset(size) + i * size
    }

    /** slab_entry_full */
    method EntryFull() returns (full: bool)
      requires Valid()
      ensures full == Full()
    {
      hide Capacity, BitOf;
      var capacity, count, i := Capacity(size), 0, 0;
      while i < capacity
        invariant 0 <= i <= capacity && count <= i
        invariant count == i <==> forall j :: 0 <= j < i ==> BitAt(bits[..], j)
      {
        assert Byte(i) <= Byte(capacity - 1);
        var bit := BitOf(bits[Byte(i)], i % 8);
        assert bit == BitAt(bits[..], i);
        count := count + if bit then 1 else 0;
        i := i + 1;
      }
      full := count == capacity;
    }

    /** slab_entry_alloc_mem: the address of the first free slot, which is taken; NULL if the page is full. */
    method AllocMem() returns (addr: nat, ghost idx: int)
      requires Valid() && maddr != 0
      modifies bits
      ensures addr == 0 <==> old(Full())
      ensures addr == 0 ==> bits[..] == old(bits[..])
      ensures addr != 0 ==> 0 <= idx < Capacity(size) && addr == SlotAddr(idx) && !BitAt(old(bits[..]), idx)
      ensures addr != 0 ==> forall i :: 0 <= i < idx ==> BitAt(old(bits[..]), i)
      ensures addr != 0 ==> forall i :: 0 <= i < Capacity(size) ==> BitAt(bits[..], i) == (i == idx || BitAt(old(bits[..]), i))
      ensures addr != 0 ==> (addr + size <= maddr + PAGE_SIZE <==> size >= 512 || (PAGE_SIZE / size + 7) / 8 + (idx + 1) * size <= PAGE_SIZE)
    {
      hide Capacity, DataOffset, BitAt;
      var i := FirstClear(bits, Capacity(size));
      idx := i;
      addr := 0;
      assert i == -1 ==> Full();
      if i != -1 {
        assert !BitAt(bits[..], i) && !Full();
        addr := SlotAddr(i);
        SlotInside(this, i);
        BitSet(bits, i);
      }
    }
  }

  // Where the slots are, and how many there are.

  /** Large slots begin with the page. Smaller ones begin behind the fewest bytes that hold as many bits as slots of this
    size would fit the page. From there on they are next to each other. */
  lemma SlotsBegin(p: Page, i: nat)
    requires p.Valid()
    ensures p.size >= 512 ==> p.SlotAddr(0) == p.maddr
    ensures p.size < 512 ==> var bitmap := p.SlotAddr(0) - p.maddr; 8 * (bitmap - 1) < PAGE_SIZE / p.size <= 8 * bitmap
    ensures p.SlotAddr(i) == p.SlotAddr(0) + i * p.size
  {
  }

  /** The number of slots. The room for the bitmap of smaller slots is taken to be a bit for each byte of a slot. */
  lemma CapacityExact(size: nat, n: nat)
    requires 0 < size <= PAGE_SIZE
    ensures n == Capacity(size) <==> var room := if size >= 512 then PAGE_SIZE else PAGE_SIZE - (size + 7) / 8; n * size <= room < (n + 1) * size
  {
    var room := if size >= 512 then PAGE_SIZE else PAGE_SIZE - (size + 7) / 8;
    Quotient(room, size, n);
  }

  lemma Quotient(a: nat, d: nat, n: nat)
    requires d > 0
    ensures n == a / d <==> n * d <= a < (n + 1) * d
  {
    var q := a / d;
    assert q * d <= a < (q + 1) * d;
    if n < q { Multiples(n, q, d); } else if q < n { Multiples(q, n, d); }
  }

  /** A slot lies inside its page exactly if it is large, or bitmap and slots up to it fit the page. */
  lemma SlotInside(p: Page, i: nat)
    requires p.Valid() && i < Capacity(p.size)
    ensures p.SlotAddr(i) + p.size <= p.maddr + PAGE_SIZE <==> p.size >= 512 || (PAGE_SIZE / p.size + 7) / 8 + (i + 1) * p.size <= PAGE_SIZE
  {
    hide Capacity;
    CapacityExact(p.size, Capacity(p.size));
    assert (i + 1) * p.size == i * p.size + p.size;
    if p.size >= 512 && i + 1 < Capacity(p.size) { Multiples(i + 1, Capacity(p.size), p.size); }
  }

  /** Sizes are rounded up to multiples of 8. All slots lie inside their page except for four of these sizes, at which the
    last slot does not. */
  lemma OverrunExact(p: Page)
    requires p.Valid() && p.size % 8 == 0
    ensures p.SlotAddr(Capacity(p.size) - 1) + p.size <= p.maddr + PAGE_SIZE <==> p.size !in {8, 16, 24, 56}
    ensures (forall i :: 0 <= i < Capacity(p.size) ==> p.SlotAddr(i) + p.size <= p.maddr + PAGE_SIZE) <==> p.size !in {8, 16, 24, 56}
  {
    hide Capacity, DataOffset;
    LastSlot(p.size);
    SlotInside(p, Capacity(p.size) - 1);
    forall i | 0 <= i < Capacity(p.size) - 1
      ensures p.SlotAddr(i) + p.size <= p.SlotAddr(Capacity(p.size) - 1)
    {
      SlotsApart(p, i, Capacity(p.size) - 1);
    }
  }

  lemma LastSlot(size: nat)
    requires 0 < size <= PAGE_SIZE && size % 8 == 0
    ensures size >= 512 || (PAGE_SIZE / size + 7) / 8 + Capacity(size) * size <= PAGE_SIZE <==> size !in {8, 16, 24, 56}
  {
    if 64 <= size < 512 {
      CapacityExact(size, Capacity(size));
      Quotient(PAGE_SIZE, size, PAGE_SIZE / size);
      assert PAGE_SIZE / size <= 64 by {
        if PAGE_SIZE / size > 64 { Multiples(64, PAGE_SIZE / size, size); }
      }
    } else if size < 64 {
      assert size == 8 || size == 16 || size == 24 || size == 32 || size == 40 || size == 48 || size == 56;
    }
  }

  /** The first size, and the first slot: 7 of the 511 slots of 8 bytes lie behind the page, at least in part. */
  lemma FirstOverrun(p: Page, i: nat)
    requires p.Valid() && p.size == 8
    ensures Capacity(p.size) == 511 && (p.SlotAddr(i) + p.size <= p.maddr + PAGE_SIZE <==> i < 504)
  {
  }

  /** Two slots do not overlap, and no slot overlaps the bitmap at the start of the page. */
  lemma SlotsApart(p: Page, i: nat, j: nat)
    requires p.Valid() && i < j
    ensures p.SlotAddr(i) + p.size <= p.SlotAddr(j)
    ensures p.size < LARGE ==> p.maddr + Byte(Capacity(p.size) - 1) < p.SlotAddr(i)
  {
    hide Capacity, DataOffset, BitstrSize;
    Multiples(i, j, p.size);
    if p.size < LARGE { CapacityBound(p.size); }
  }

  lemma Multiples(i: nat, j: nat, size: nat)
    requires i < j
    ensures i * size + size <= j * size
  {
    assert j * size == i * size + (j - i) * size;
    assert (j - i) * size == size + (j - i - 1) * size;
  }

  lemma CapacityBound(size: nat)
    requires 0 < size < LARGE && Capacity(size) > 0
    ensures Byte(Capacity(size) - 1) < DataOffset(size)
  {
    DivMonotone(PAGE_SIZE - BitstrSize(size), PAGE_SIZE, size);
  }

  lemma DivMonotone(a: nat, b: nat, d: nat)
    requires a <= b && d > 0
    ensures a / d <= b / d
  {
    if a / d > b / d { Multiples(b / d, a / d, d); }
  }

  ghost predicate Empty(p: Page)
    reads p.bits
  {
    forall i: nat :: Byte(i) < p.bits.Length ==> !BitAt(p.bits[..], i)
  }

  /** A run of allocations hands out distinct slots until the page is full. On an empty page these are all of them, one
    behind the other, and as many as CapacityExact says. */
  method Fill(p: Page) returns (addrs: seq<nat>, ghost taken: seq<nat>)
    requires p.Valid() && p.maddr != 0
    modifies p.bits
    ensures p.Full() && |addrs| == |taken|
    ensures forall k :: 0 <= k < |taken| ==> taken[k] < Capacity(p.size) && addrs[k] == p.SlotAddr(taken[k])
    ensures forall k, l :: 0 <= k < l < |taken| ==> taken[k] < taken[l]
    ensures old(Empty(p)) ==> |addrs| > 0 && forall k :: 0 <= k < |addrs| ==> addrs[k] == addrs[0] + k * p.size
    ensures old(Empty(p)) ==> var room := if p.size >= 512 then PAGE_SIZE else PAGE_SIZE - (p.size + 7) / 8; |addrs| * p.size <= room < (|addrs| + 1) * p.size
    ensures old(Empty(p)) ==> if p.size >= 512 then addrs[0] == p.maddr else addrs[0] == p.maddr + (PAGE_SIZE / p.size + 7) / 8
  {
    hide Capacity, DataOffset, BitOf, BitAt, Page.SlotAddr, Page.Full, TakenUpTo;
    addrs, taken := [], [];
    ghost var low, empty := 0, Empty(p);
    CapacityExact(p.size, Capacity(p.size));
    if empty { NoneTaken(p); }
    var addr, idx := AllocNext(p, low, empty);
    while addr != 0
      invariant |addrs| == |taken| && 0 <= low <= Capacity(p.size) && forall k :: 0 <= k < |taken| ==> taken[k] < low
      invariant forall k :: 0 <= k < |taken| ==> addrs[k] == p.SlotAddr(taken[k])
      invariant forall k, l :: 0 <= k < l < |taken| ==> taken[k] < taken[l]
      invariant addr == 0 ==> p.Full() && (empty ==> low == Capacity(p.size))
      invariant addr != 0 ==> low <= idx < Capacity(p.size) && addr == p.SlotAddr(idx) && AllTaken(p, idx + 1)
      invariant empty ==> low == |taken| && (forall k :: 0 <= k < |taken| ==> taken[k] == k) && (addr != 0 ==> idx == low && TakenUpTo(p, idx + 1))
      decreases Capacity(p.size) - low, addr
    {
      addrs, taken := addrs + [addr], taken + [idx];
      low := idx + 1;
      addr, idx := AllocNext(p, low, empty);
    }
    if empty { InARow(p, addrs); }
  }

  /** The slots below `n` are taken. */
  ghost predicate AllTaken(p: Page, n: nat)
    requires p.Valid() && n <= Capacity(p.size)
    reads p.bits
  {
    forall i :: 0 <= i < n ==> BitAt(p.bits[..], i)
  }

  /** And those from `n` on are free. */
  ghost predicate TakenUpTo(p: Page, n: nat)
    requires p.Valid() && n <= Capacity(p.size)
    reads p.bits
  {
    forall i :: 0 <= i < Capacity(p.size) ==> (BitAt(p.bits[..], i) <==> i < n)
  }

  method AllocNext(p: Page, ghost low: nat, ghost exact: bool) returns (addr: nat, ghost idx: int)
    requires p.Valid() && p.maddr != 0 && low <= Capacity(p.size) && AllTaken(p, low) && (exact ==> TakenUpTo(p, low))
    modifies p.bits
    ensures addr == 0 ==> p.Full() && (exact ==> low == Capacity(p.size))
    ensures addr != 0 ==> low <= idx < Capacity(p.size) && addr == p.SlotAddr(idx) && AllTaken(p, idx + 1)
    ensures addr != 0 && exact ==> idx == low && TakenUpTo(p, idx + 1)
  {
    hide Capacity, DataOffset, BitOf, BitAt, Page.SlotAddr;
    ghost var before := p.bits[..];
    assert low < Capacity(p.size) ==> Byte(low) < |before|;
    addr, idx := p.AllocMem();
    if addr != 0 {
      FirstFree(before, p.bits[..], Capacity(p.size), low, idx, exact);
    } else if low < Capacity(p.size) {
      assert BitAt(p.bits[..], low);
    }
  }

  lemma FirstFree(before: seq<bv8>, after: seq<bv8>, cap: nat, low: nat, idx: nat, exact: bool)
    requires cap > 0 && Byte(cap - 1) < |before| == |after| && low <= cap && idx < cap && !BitAt(before, idx)
    requires forall i :: 0 <= i < low ==> BitAt(before, i)
    requires exact ==> forall i :: 0 <= i < cap ==> (BitAt(before, i) <==> i < low)
    requires forall i :: 0 <= i < idx ==> BitAt(before, i)
    requires forall i :: 0 <= i < cap ==> BitAt(after, i) == (i == idx || BitAt(before, i))
    ensures low <= idx && forall i :: 0 <= i <= idx ==> BitAt(after, i)
    ensures exact ==> idx == low && forall i :: 0 <= i < cap ==> (BitAt(after, i) <==> i < idx + 1)
  {
    hide BitAt;
    assert exact && low < cap ==> !BitAt(before, low);
  }

  lemma NoneTaken(p: Page)
    requires p.Valid() && Empty(p)
    ensures TakenUpTo(p, 0)
  {
    hide Capacity, BitAt;
  }

  lemma InARow(p: Page, addrs: seq<nat>)
    requires p.Valid() && |addrs| == Capacity(p.size) && forall k :: 0 <= k < |addrs| ==> addrs[k] == p.SlotAddr(k)
    ensures forall k :: 0 <= k < |addrs| ==> addrs[k] == addrs[0] + k * p.size
    ensures if p.size >= 512 then addrs[0] == p.maddr else addrs[0] == p.maddr + (PAGE_SIZE / p.size + 7) / 8
  {
    hide Capacity;
  }

  /** Filling an empty page of slots of 8 bytes. */
  method FillOverrun(p: Page) returns (addrs: seq<nat>)
    requires p.Valid() && p.maddr != 0 && p.size == 8 && Empty(p)
    modifies p.bits
    ensures |addrs| == 511 && forall k :: 0 <= k < 511 ==> (addrs[k] + 8 <= p.maddr + PAGE_SIZE <==> k < 504)
  {
    hide Empty;
    ghost var taken;
    addrs, taken := Fill(p);
  }
}
