/** The hash table of pointers. */
module Htable {
  import opened HtableChains

  ghost predicate PowerOfTwo(n: nat) {
    n == 1 || (n > 1 && n % 2 == 0 && PowerOfTwo(n / 2))
  }

  class HTable {
    const h: nat -> nat          // Hash of a key
    var length: nat
    var elems: nat
    var list: array<Entry?>
    ghost var mem: Mem
    ghost var chains: seq<seq<Entry>>
    ghost var abs: map<nat, nat>

    /** The entries are what `mem` says. */
    ghost predicate Sync()
      reads this, mem.Keys
    {
      forall e :: e in mem ==> e.hash == mem[e].hash && e.key == mem[e].key && e.val == mem[e].val && e.next == mem[e].next
    }

    ghost predicate Valid()
      reads this, list, mem.Keys
    {
      Whole() && elems <= length
    }

    /** ... whatever the number of entries. */
    ghost predicate Whole()
      reads this, list, mem.Keys
    {
      && Sync() && list.Length == length && PowerOfTwo(length) && elems == Count(chains)
      && Chained(mem, list[..], chains) && AllKeyed(h, mem, chains) && Holds(h, mem, chains, abs)
    }

    /** htable_init, for any hash function. */
    constructor (h: nat -> nat)
      ensures Valid() && this.h == h && abs == map[] && elems == 0 && length == 4 && mem == map[] && fresh(list)
    {
      this.h, length, elems := h, 4, 0;
      list := new Entry?[4](_ => null);
      mem, chains, abs := map[], [[], [], [], []], map[];
      new;
      assert PowerOfTwo(1) && PowerOfTwo(2) && PowerOfTwo(4);
      NoEntries(chains, 4);
      assert chains[..4] == chains;
    }

    method SetNext(e: Entry, n: Entry?)
      requires Sync() && e in mem
      modifies `mem, e
      ensures Sync() && mem == old(mem)[e := old(mem)[e].(next := n)]
    {
      e.next := n;
      mem := mem[e := mem[e].(next := n)];
    }

    method SetVal(e: Entry, v: nat)
      requires Sync() && e in mem
      modifies `mem, e
      ensures Sync() && mem == old(mem)[e := old(mem)[e].(val := v)]
    {
      e.val := v;
      mem := mem[e := mem[e].(val := v)];
    }

    /** htable_find_pointer: the place that points to the entry with the key, or to the end of its chain. `prev` is
      the entry whose next it is; null if it is the bucket itself. */
    method FindPointer(key: nat, hash: nat) returns (prev: Entry?, cur: Entry?, ghost k: nat)
      requires Whole() && hash == h(key)
      ensures var c := chains[Slot(hash, length)];
        && k <= |c| && (prev == if k == 0 then null else c[k - 1]) && (cur == if k == |c| then null else c[k])
        && (cur == null <==> k == |c|) && (cur != null ==> cur in mem && cur.key == key)
        && (cur == null ==> !InChain(mem, c, key))
    {
      ghost var i := Slot(hash, length);
      ghost var c := chains[i];
      assert Chain(mem, list[..][i], c) && Keyed(h, mem, c, i, length);
      prev, k := null, 0;
      cur := list[Slot(hash, length)];
      while cur != null && (cur.hash != hash || key != cur.key)
        invariant 0 <= k <= |c| && (prev == if k == 0 then null else c[k - 1]) && (cur == if k == |c| then null else c[k])
        invariant forall l :: 0 <= l < k ==> c[l] in mem && mem[c[l]].key != key
        decreases |c| - k
      {
        prev, cur := cur, cur.next;
        k := k + 1;
      }
    }

    /** htable_lookup */
    method Lookup(key: nat) returns (val: nat)
      requires Valid()
      ensures val == if key in abs then abs[key] else 0
    {
      ghost var i := Slot(h(key), length);
      var prev, cur, k := FindPointer(key, h(key));
      val := if cur != null then cur.val else 0;
    }

    /** htable_insert: 1 if the key is new. */
    method Insert(key: nat, val: nat) returns (ret: int)
      requires Valid()
      modifies this, list, mem.Keys
      ensures Valid() && abs == old(abs)[key := val] && ret == if key in old(abs) then 0 else 1
      ensures fresh(mem.Keys - old(mem.Keys)) && (list == old(list) || fresh(list))
    {
      hide Count, AllKeyed, Holds, PowerOfTwo, Chain;
      var hash := h(key);
      var prev, cur, k := FindPointer(key, hash);
      KeyFound(key);
      if cur == null {
        Link(prev, key, val);
        ret := 1;
        if elems > length {
          Resize();
        }
      } else {
        Replace(key, cur, val, k);
        ret := 0;
      }
    }

    lemma KeyFound(key: nat)
      requires Whole()
      ensures key in abs <==> InChain(mem, chains[Slot(h(key), length)], key)
    {
      hide Count, AllKeyed, PowerOfTwo, Chain;
      var i := Slot(h(key), length);
      if InChain(mem, chains[i], key) {
        var k :| 0 <= k < |chains[i]| && chains[i][k] in mem && mem[chains[i][k]].key == key;
      }
    }

    /** An entry for a new key joins the end of its chain. */
    method Link(prev: Entry?, key: nat, val: nat)
      requires Whole() && key !in abs
      requires var c := chains[Slot(h(key), length)]; (prev == if c == [] then null else c[|c| - 1]) && !InChain(mem, c, key)
      modifies this, list, mem.Keys
      ensures Whole() && abs == old(abs)[key := val] && elems == old(elems) + 1 && length == old(length) && list == old(list)
      ensures fresh(mem.Keys - old(mem.Keys))
    {
      hide Count, PowerOfTwo, Holds, AllKeyed, Chained, Chain, Keyed;
      Sizes();
      var i := Slot(h(key), length);
      OwnKeyed(i);
      var e := new Entry(key, val, h(key));
      LinkedMem(key, val, i, e);
      CountSet(chains, i, chains[i] + [e]);
      ghost var c, m := chains[i], MemWith(key, val, i, e);
      Splice(i, prev, e);
      assert mem == m;
      chains := chains[i := c + [e]];
      abs := abs[key := val];
      elems := elems + 1;
    }

    /** *ptr = new_entry */
    method Splice(i: nat, prev: Entry?, e: Entry)
      requires Sync() && e !in mem && i < list.Length && (prev != null ==> prev in mem)
      modifies `mem, list, mem.Keys
      ensures Sync() && list[..] == (if prev == null then old(list[..])[i := e] else old(list[..]))
      ensures var m := old(mem)[e := Cell(e.hash, e.key, e.val, old(e.next))];
        mem == if prev == null then m else m[prev := old(mem)[prev].(next := e)]
      ensures e.hash == old(e.hash) && e.key == old(e.key) && e.val == old(e.val)
    {
      mem := mem[e := Cell(e.hash, e.key, e.val, e.next)];
      if prev == null {
        list[i] := e;
      } else {
        SetNext(prev, e);
      }
    }

    ghost function MemWith(key: nat, val: nat, i: nat, e: Entry): Mem
      reads this
      requires i < |chains|
    {
      var c, cell := chains[i], Cell(h(key), key, val, null);
      if c != [] && c[|c| - 1] in mem then mem[e := cell][c[|c| - 1] := mem[c[|c| - 1]].(next := e)] else mem[e := cell]
    }

    lemma LinkedMem(key: nat, val: nat, i: nat, e: Entry)
      requires Whole() && i == Slot(h(key), length) && i < |chains| == list.Length && key !in abs && e !in mem && !InChain(mem, chains[i], key)
      ensures chains[i] != [] ==> chains[i][|chains[i]| - 1] in mem
      ensures var m := MemWith(key, val, i, e);
        && Chained(m, if chains[i] == [] then list[..][i := e] else list[..], chains[i := chains[i] + [e]])
        && AllKeyed(h, m, chains[i := chains[i] + [e]]) && Holds(h, m, chains[i := chains[i] + [e]], abs[key := val])
    {
      hide Count, PowerOfTwo, Holds, Chained, AllKeyed, Keyed, InChain;
      var c, m := chains[i], MemWith(key, val, i, e);
      OwnKeyed(i);
      AppendEntry(h, mem, list[i], c, i, length, e, Cell(h(key), key, val, null), m);
      Elsewhere(i, m, if c == [] then {} else {c[|c| - 1]});
      OneBucket(h, mem, m, list[..], chains, i, if c == [] then e else list[i], c + [e]);
      NewContents(key, val, i, e, m);
      assert c != [] ==> list[..][i := list[i]] == list[..];
    }

    lemma Sizes()
      requires Whole()
      ensures |chains| == length == list.Length > 0
    {
      hide Count, PowerOfTwo, Holds, AllKeyed, Chain;
    }

    lemma OwnKeyed(i: nat)
      requires Whole() && i < |chains|
      ensures Keyed(h, mem, chains[i], i, |chains|) && |chains| == length == list.Length && Chain(mem, list[i], chains[i])
    {
      hide Count, PowerOfTwo, Holds, Keyed, Chain;
      assert Chain(mem, list[..][i], chains[i]);
    }

    /** A memory in which only some entries of bucket `i` differ keeps all other buckets. */
    lemma Elsewhere(i: nat, m: Mem, changed: set<Entry>)
      requires Whole() && i < |chains| && changed <= Elems(chains[i])
      requires forall e :: e in mem && e !in changed ==> e in m && m[e] == mem[e]
      ensures forall j, k :: 0 <= j < |chains| && j != i && 0 <= k < |chains[j]| ==> chains[j][k] in m && chains[j][k] in mem && m[chains[j][k]] == mem[chains[j][k]]
    {
      hide Count, PowerOfTwo, Holds;
      forall j, k | 0 <= j < |chains| && j != i && 0 <= k < |chains[j]|
        ensures chains[j][k] in mem && chains[j][k] !in changed
      {
        var e := chains[j][k];
        assert Keyed(h, mem, chains[j], j, |chains|);
        if e in changed { OtherBucket(h, mem, chains, i, e); }
      }
    }

    lemma NewContents(key: nat, val: nat, i: nat, e: Entry, m: Mem)
      requires Whole() && i == Slot(h(key), length) && i < |chains| && key !in abs && e !in mem
      requires m == MemWith(key, val, i, e)
      requires forall j, k :: 0 <= j < |chains| && j != i && 0 <= k < |chains[j]| ==> chains[j][k] in m && chains[j][k] in mem && m[chains[j][k]] == mem[chains[j][k]]
      ensures Holds(h, m, chains[i := chains[i] + [e]], abs[key := val])
    {
      hide Count, PowerOfTwo, Sync, AllKeyed, Chained, InChain;
      var c, abs' := chains[i], abs[key := val];
      OwnKeyed(i);
      assert forall k :: 0 <= k < |c| ==> c[k] in mem && mem[c[k]].key in abs && abs[mem[c[k]].key] == mem[c[k]].val;
      Longer(mem, m, c, e);
      OneBucketHolds(h, mem, m, chains, abs, abs', i, c + [e]);
    }

    /** The value of a key that is there is replaced. */
    method Replace(key: nat, cur: Entry, val: nat, ghost k: nat)
      requires Whole() && cur in mem && cur.key == key && (var c := chains[Slot(h(key), length)]; k < |c| && cur == c[k])
      modifies this, mem.Keys
      ensures Whole() && abs == old(abs)[key := val] && elems == old(elems) && length == old(length) && list == old(list)
      ensures mem.Keys == old(mem.Keys)
    {
      hide Count, PowerOfTwo, Holds, AllKeyed, Keyed, Chain;
      var i := Slot(h(key), length);
      Sizes();
      ghost var m1 := mem[cur := mem[cur].(val := val)];
      OwnKeyed(i);
      SetValue(h, mem, list[i], chains[i], i, length, cur, val);
      Elsewhere(i, m1, {cur});
      OneBucket(h, mem, m1, list[..], chains, i, list[i], chains[i]);
      NewValue(key, val, i, k, m1);
      SetVal(cur, val);
      abs := abs[key := val];
      assert chains[i := chains[i]] == chains && list[..][i := list[i]] == list[..];
    }

    lemma NewValue(key: nat, val: nat, i: nat, k: nat, m: Mem)
      requires Whole() && i == Slot(h(key), length) && i < |chains| && k < |chains[i]| && chains[i][k] in mem && mem[chains[i][k]].key == key
      requires m == mem[chains[i][k] := mem[chains[i][k]].(val := val)]
      requires forall j, k :: 0 <= j < |chains| && j != i && 0 <= k < |chains[j]| ==> chains[j][k] in m && chains[j][k] in mem && m[chains[j][k]] == mem[chains[j][k]]
      ensures Holds(h, m, chains, abs[key := val])
    {
      hide Count, PowerOfTwo, Sync, AllKeyed, Chained, InChain;
      var c, abs' := chains[i], abs[key := val];
      OwnKeyed(i);
      assert forall l :: 0 <= l < |c| ==> c[l] in mem && mem[c[l]].key in abs && abs[mem[c[l]].key] == mem[c[l]].val;
      Revalued(h, mem, m, c, i, |chains|, k, val);
      OneBucketHolds(h, mem, m, chains, abs, abs', i, c);
      assert chains[i := c] == chains;
    }

    // htable_resize

    /** How far the entries have moved to the new buckets: those of the old buckets before `i`, and `k` of bucket `i`. */
    ghost predicate Moving(newList: seq<Entry?>, newChains: seq<seq<Entry>>, mem0: Mem, chains0: seq<seq<Entry>>, i: nat, k: nat)
      reads this, mem.Keys
    {
      && Sync() && SameData(mem0, mem) && Chained(mem, newList, newChains) && AllKeyed(h, mem, newChains)
      && i <= |chains0| && k <= (if i < |chains0| then |chains0[i]| else 0)
      && Entries(newChains) == Entries(chains0[..i]) + (if i < |chains0| then Elems(chains0[i][..k]) else {})
      && Count(newChains) == Count(chains0[..i]) + k
    }

    /** The old buckets that have not been emptied are still linked. */
    ghost predicate Remaining(list0: seq<Entry?>, chains0: seq<seq<Entry>>, e: Entry?, i: nat, k: nat)
      reads this
    {
      && |list0| == |chains0| && i <= |chains0|
      && (i < |chains0| ==> k <= |chains0[i]| && Chain(mem, e, chains0[i][k..]))
      && forall j :: i < j < |chains0| ==> Chain(mem, list0[j], chains0[j])
    }

    /** The smallest length, from 4 on, that has room for the entries. */
    method NewLength() returns (n: nat)
      ensures n >= 4 && PowerOfTwo(n) && elems <= n && (n > 4 ==> n < 2 * elems)
    {
      n := 4;
      assert PowerOfTwo(1) && PowerOfTwo(2);
      while n < elems
        invariant n >= 4 && PowerOfTwo(n) && (n > 4 ==> n < 2 * elems)
        decreases elems - n
      {
        n := n * 2;
      }
    }

    method Resize()
      requires Whole()
      modifies this, mem.Keys
      ensures Valid() && abs == old(abs) && mem.Keys == old(mem.Keys) && elems == old(elems) && fresh(list)
    {
      hide Count, PowerOfTwo, Holds, AllKeyed, Chained, Chain, SameData, Moving, Remaining;
      var newLength := NewLength();
      var newList := new Entry?[newLength](_ => null);
      ghost var newChains: seq<seq<Entry>> := seq(newLength, _ => []);
      ghost var mem0, chains0, list0 := mem, chains, list[..];
      Sizes();
      Start(newList[..], newChains);
      var count, i := 0, 0;
      assert Count(chains0[..0]) == 0 by { NoneYet(chains0[..0]); }
      while i < length
        invariant 0 <= i <= length == |chains0| == |list0| == list.Length && list[..] == list0 && newList.Length == newLength
        invariant Moving(newList[..], newChains, mem0, chains0, i, 0) && |newChains| == newLength
        invariant Remaining(list0, chains0, if i < |list0| then list0[i] else null, i, 0)
        invariant count == Count(chains0[..i]) && mem.Keys == mem0.Keys
        invariant list == old(list) != newList && abs == old(abs) && elems == old(elems) && length == old(length)
        decreases length - i
      {
        var n;
        n, newChains := MoveBucket(i, list[i], newList, newChains, mem0, chains0, list0);
        EntriesNext(chains0, i);
        count := count + n;
        i := i + 1;
      }
      assert elems == count by { assert chains0[..i] == chains0; }
      Finish(newList[..], newChains, mem0, chains0);
      list, length := newList, newLength;
      chains := newChains;
    }

    /** The entries of old bucket `i`, one after the other. */
    method MoveBucket(i: nat, head: Entry?, newList: array<Entry?>, ghost newChains0: seq<seq<Entry>>, ghost mem0: Mem, ghost chains0: seq<seq<Entry>>, ghost list0: seq<Entry?>)
      returns (n: nat, ghost newChains: seq<seq<Entry>>)
      requires i < |chains0| && Moving(newList[..], newChains0, mem0, chains0, i, 0) && Remaining(list0, chains0, head, i, 0) && AllKeyed(h, mem0, chains0)
      modifies newList, `mem, mem.Keys
      ensures Moving(newList[..], newChains, mem0, chains0, i + 1, 0) && |newChains| == |newChains0| && n == |chains0[i]| && mem.Keys == old(mem.Keys)
      ensures Remaining(list0, chains0, if i + 1 < |list0| then list0[i + 1] else null, i + 1, 0)
    {
      hide Count, Holds, AllKeyed, Chained, Chain, SameData, Entries, Elems, Moving, Remaining;
      var e := head;
      n := 0;
      newChains := newChains0;
      while e != null
        invariant Moving(newList[..], newChains, mem0, chains0, i, n) && Remaining(list0, chains0, e, i, n)
        invariant |newChains| == |newChains0| && mem.Keys == old(mem.Keys)
        decreases |chains0[i]| - n
      {
        HeadOf(newList[..], newChains, mem0, chains0, list0, e, i, n);
        e, newChains := MoveEntry(e, newList, newChains, mem0, chains0, list0, i, n);
        n := n + 1;
      }
      BucketDone(newList[..], newChains, mem0, chains0, list0, i, n);
    }

    lemma HeadOf(newList: seq<Entry?>, newChains: seq<seq<Entry>>, mem0: Mem, chains0: seq<seq<Entry>>, list0: seq<Entry?>, e: Entry, i: nat, k: nat)
      requires i < |chains0| && Moving(newList, newChains, mem0, chains0, i, k) && Remaining(list0, chains0, e, i, k)
      ensures k < |chains0[i]| && e == chains0[i][k] && e in mem
    {
      hide Count, Chained, AllKeyed, Entries;
      assert chains0[i][k..] != [] ==> chains0[i][k..][0] == chains0[i][k];
    }

    lemma BucketDone(newList: seq<Entry?>, newChains: seq<seq<Entry>>, mem0: Mem, chains0: seq<seq<Entry>>, list0: seq<Entry?>, i: nat, k: nat)
      requires i < |chains0| && Moving(newList, newChains, mem0, chains0, i, k) && Remaining(list0, chains0, null, i, k)
      ensures k == |chains0[i]| && Moving(newList, newChains, mem0, chains0, i + 1, 0)
      ensures Remaining(list0, chains0, if i + 1 < |list0| then list0[i + 1] else null, i + 1, 0)
    {
      hide Chained, AllKeyed, Entries, Count, SameData;
      var c := chains0[i];
      assert c[k..] == [];
      assert c[..k] == c;
      EntriesNext(chains0, i);
      if i + 1 < |chains0| { assert chains0[i + 1][..0] == [] && chains0[i + 1][0..] == chains0[i + 1]; }
    }

    method MoveEntry(e: Entry, newList: array<Entry?>, ghost newChains0: seq<seq<Entry>>, ghost mem0: Mem, ghost chains0: seq<seq<Entry>>, ghost list0: seq<Entry?>, ghost i: nat, ghost k: nat)
      returns (next: Entry?, ghost newChains: seq<seq<Entry>>)
      requires i < |chains0| && k < |chains0[i]| && e == chains0[i][k] && e in mem
      requires Moving(newList[..], newChains0, mem0, chains0, i, k) && Remaining(list0, chains0, e, i, k) && AllKeyed(h, mem0, chains0)
      modifies newList, `mem, e
      ensures Moving(newList[..], newChains, mem0, chains0, i, k + 1) && Remaining(list0, chains0, next, i, k + 1)
      ensures |newChains| == |newChains0| && mem.Keys == old(mem.Keys)
    {
      hide Count, AllKeyed, Chained, Chain, Entries;
      next := e.next;
      MoveFacts(newList[..], newChains0, mem0, chains0, i, k);
      MoveOne(h, mem, newList[..], newChains0, e);
      StillRemaining(mem0, chains0, list0, i, k, newList[Slot(e.hash, newList.Length)]);
      ghost var s := Slot(mem[e].hash, |newChains0|);
      var slot := Slot(e.hash, newList.Length);
      newChains := newChains0[s := [e] + newChains0[s]];
      SetNext(e, newList[slot]);
      newList[slot] := e;
      assert chains0[i][..k + 1] == chains0[i][..k] + [e];
    }

    lemma MoveFacts(newList: seq<Entry?>, newChains: seq<seq<Entry>>, mem0: Mem, chains0: seq<seq<Entry>>, i: nat, k: nat)
      requires i < |chains0| && k < |chains0[i]| && Moving(newList, newChains, mem0, chains0, i, k) && AllKeyed(h, mem0, chains0)
      ensures |newList| == |newChains| > 0
      ensures var e := chains0[i][k]; e in mem && mem[e].hash == h(mem[e].key) && forall e' :: e' in Entries(newChains) ==> e' in mem && mem[e'].key != mem[e].key
    {
      hide Entries, Count, Chain, Sync;
      assert Keyed(h, mem0, chains0[i], i, |chains0|);
      forall e' | e' in Entries(newChains)
        ensures e' in mem && mem[e'].key != mem[chains0[i][k]].key
      {
        NewKey(h, mem0, chains0, i, k, e');
      }
    }

    lemma StillRemaining(mem0: Mem, chains0: seq<seq<Entry>>, list0: seq<Entry?>, i: nat, k: nat, n: Entry?)
      requires i < |chains0| && k < |chains0[i]| && chains0[i][k] in mem && Remaining(list0, chains0, chains0[i][k], i, k) && AllKeyed(h, mem0, chains0)
      ensures var e := chains0[i][k]; var m := mem[e := mem[e].(next := n)];
        Chain(m, mem[e].next, chains0[i][k + 1..]) && forall j :: i < j < |chains0| ==> Chain(m, list0[j], chains0[j])
    {
      hide Chain;
      var e := chains0[i][k];
      var m := mem[e := mem[e].(next := n)];
      assert Keyed(h, mem0, chains0[i], i, |chains0|);
      RestOfChain(h, mem0, mem, chains0[i], i, |chains0|, k, n);
      OtherBucket(h, mem0, chains0, i, e);
      forall j | i < j < |chains0|
        ensures Chain(m, list0[j], chains0[j])
      {
        InOld(list0[j], chains0[j]);
        SameChain(mem, m, list0[j], chains0[j]);
      }
    }

    lemma InOld(head: Entry?, c: seq<Entry>)
      requires Chain(mem, head, c)
      ensures forall l :: 0 <= l < |c| ==> c[l] in mem
    {
    }

    lemma NoneYet(chains: seq<seq<Entry>>)
      requires chains == []
      ensures Count(chains) == 0
    {
    }

    lemma Start(newList: seq<Entry?>, newChains: seq<seq<Entry>>)
      requires Whole() && |newList| == |newChains| > 0 && forall i :: 0 <= i < |newList| ==> newList[i] == null && newChains[i] == []
      ensures Moving(newList, newChains, mem, chains, 0, 0) && Remaining(list[..], chains, list[0], 0, 0) && elems == Count(chains)
      ensures AllKeyed(h, mem, chains)
    {
      hide PowerOfTwo, Holds;
      NoEntries(newChains, |newChains|);
      assert newChains[..|newChains|] == newChains && chains[..0] == [] && chains[0][..0] == [] && chains[0][0..] == chains[0];
    }

    lemma Finish(newList: seq<Entry?>, newChains: seq<seq<Entry>>, mem0: Mem, chains0: seq<seq<Entry>>)
      requires Moving(newList, newChains, mem0, chains0, |chains0|, 0) && Holds(h, mem0, chains0, abs)
      ensures Sync() && Chained(mem, newList, newChains) && AllKeyed(h, mem, newChains) && Holds(h, mem, newChains, abs) && Count(newChains) == Count(chains0)
    {
      hide Holds, AllKeyed, Chain, Count;
      assert chains0[..|chains0|] == chains0;
      HoldsAgain(h, mem0, mem, chains0, newChains, abs);
    }

    // htable_remove and htable_filter

    ghost function MemWithout(i: nat, k: nat): Mem
      reads this
      requires i < |chains| && k < |chains[i]|
    {
      var c := chains[i];
      if k > 0 && c[k - 1] in mem && c[k] in mem then mem[c[k - 1] := mem[c[k - 1]].(next := mem[c[k]].next)] else mem
    }

    /** The entry at position `k` of bucket `i` is taken out of its chain. */
    method Detach(i: nat, ghost k: nat, prev: Entry?, cur: Entry)
      requires Whole() && i < |chains| && k < |chains[i]| && cur == chains[i][k] && (prev == if k == 0 then null else chains[i][k - 1])
      modifies `mem, `chains, `abs, `elems, list, mem.Keys
      ensures Whole() && abs == old(abs) - {cur.key} && elems == old(elems) - 1 && mem.Keys == old(mem.Keys)
      ensures chains == old(chains)[i := old(chains)[i][..k] + old(chains)[i][k + 1..]]
      ensures SameData(old(mem), mem) && cur.key == old(cur.key) && cur.val == old(cur.val) && cur.next == old(cur.next)
    {
      hide Count, PowerOfTwo, Holds, AllKeyed, Chained, Chain, Keyed;
      Sizes();
      OwnKeyed(i);
      InBucket(i, k);
      UnlinkedMem(i, k);
      ghost var c' := chains[i][..k] + chains[i][k + 1..];
      CountSet(chains, i, c');
      if prev == null {
        list[i] := cur.next;
      } else {
        SetNext(prev, cur.next);
      }
      chains := chains[i := c'];
      abs := abs - {cur.key};
      elems := elems - 1;
    }

    lemma InBucket(i: nat, k: nat)
      requires Whole() && i < |chains| && k < |chains[i]|
      ensures chains[i][k] in mem && (k > 0 ==> chains[i][k - 1] in mem && chains[i][k - 1] != chains[i][k])
      ensures mem[chains[i][k]].hash == h(mem[chains[i][k]].key) && Slot(mem[chains[i][k]].hash, |chains|) == i
      ensures mem[chains[i][k]].key in abs && abs[mem[chains[i][k]].key] == mem[chains[i][k]].val
    {
      hide Count, PowerOfTwo;
      assert Keyed(h, mem, chains[i], i, |chains|);
    }

    lemma UnlinkedMem(i: nat, k: nat)
      requires Whole() && i < |chains| == list.Length && k < |chains[i]| && chains[i][k] in mem
      ensures var m := MemWithout(i, k); var chains' := chains[i := chains[i][..k] + chains[i][k + 1..]];
        && Chained(m, if k == 0 then list[..][i := mem[chains[i][0]].next] else list[..], chains')
        && AllKeyed(h, m, chains') && Holds(h, m, chains', abs - {mem[chains[i][k]].key}) && SameData(mem, m)
    {
      hide Count, PowerOfTwo, Holds, AllKeyed, Chained, Chain, Keyed;
      var c, m := chains[i], MemWithout(i, k);
      InBucket(i, k);
      OwnKeyed(i);
      Unlink(h, mem, list[i], c, i, length, k, m);
      Elsewhere(i, m, if k == 0 then {} else {c[k - 1]});
      OneBucket(h, mem, m, list[..], chains, i, if k == 0 then mem[c[0]].next else list[i], c[..k] + c[k + 1..]);
      LessContents(i, k, m);
      assert list[..][i := list[i]] == list[..];
    }

    lemma LessContents(i: nat, k: nat, m: Mem)
      requires Whole() && i < |chains| && k < |chains[i]| && chains[i][k] in mem && m == MemWithout(i, k) && SameData(mem, m)
      requires forall j, k :: 0 <= j < |chains| && j != i && 0 <= k < |chains[j]| ==> chains[j][k] in m && chains[j][k] in mem && m[chains[j][k]] == mem[chains[j][k]]
      ensures Holds(h, m, chains[i := chains[i][..k] + chains[i][k + 1..]], abs - {mem[chains[i][k]].key})
    {
      hide Count, PowerOfTwo, Sync, Chained, InChain, AllKeyed;
      var c, key := chains[i], mem[chains[i][k]].key;
      var c', abs' := c[..k] + c[k + 1..], abs - {key};
      OwnKeyed(i);
      Shorter(h, mem, m, c, i, |chains|, k);
      forall l | 0 <= l < |c'|
        ensures c'[l] in m && m[c'[l]].key in abs' && abs'[m[c'[l]].key] == m[c'[l]].val
      {
        var n :| 0 <= n < |c| && c[n] == c'[l];
        assert mem[c[n]].key in abs && abs[mem[c[n]].key] == mem[c[n]].val;
      }
      InBucket(i, k);
      OneBucketHolds(h, mem, m, chains, abs, abs', i, c');
    }

    /** htable_remove */
    method Remove(key: nat) returns (val: nat)
      requires Valid()
      modifies this, list, mem.Keys
      ensures Valid() && abs == old(abs) - {key} && val == if key in old(abs) then old(abs)[key] else 0
      ensures elems == if key in old(abs) then old(elems) - 1 else old(elems)
      ensures mem.Keys == old(mem.Keys) && list == old(list)
    {
      hide Count, AllKeyed, Holds, PowerOfTwo, Chain;
      var prev, cur, k := FindPointer(key, h(key));
      KeyFound(key);
      if cur != null {
        ghost var i := Slot(h(key), length);
        InBucket(i, k);
        Detach(Slot(h(key), length), k, prev, cur);
        return cur.val;
      }
      return 0;
    }

    /** Bucket `i` has no entry among its first `n` that the filter takes. */
    ghost predicate Kept(p: (nat, nat) -> bool, i: nat, n: nat)
      reads this
    {
      i < |chains| && n <= |chains[i]| && forall k :: 0 <= k < n ==> chains[i][k] in mem && !p(mem[chains[i][k]].key, mem[chains[i][k]].val)
    }

    /** What has been taken so far was to be taken. */
    ghost predicate Taken(p: (nat, nat) -> bool, abs0: map<nat, nat>)
      reads this
    {
      && (forall key :: key in abs ==> key in abs0 && abs0[key] == abs[key])
      && (forall key :: key in abs0 && key !in abs ==> p(key, abs0[key]))
    }

    /** htable_filter: the entries that the predicate selects are gone. */
    method Filter(p: (nat, nat) -> bool)
      requires Valid()
      modifies this, list, mem.Keys
      ensures Valid() && abs == map key | key in old(abs) && !p(key, old(abs)[key]) :: old(abs)[key]
      ensures mem.Keys == old(mem.Keys) && list == old(list)
    {
      hide Count, AllKeyed, Holds, PowerOfTwo, Chain, Kept, Taken, Chained;
      ghost var abs0 := abs;
      Sizes();
      NothingTaken(p);
      var i := 0;
      while i < length
        invariant 0 <= i <= length == |chains| && Whole() && elems <= length && Taken(p, abs0) && forall j :: 0 <= j < i ==> Kept(p, j, |chains[j]|)
        invariant mem.Keys == old(mem.Keys) && list == old(list)
        decreases length - i
      {
        FilterBucket(p, i, abs0);
        i := i + 1;
      }
      Filtered(p, abs0);
    }

    lemma NothingTaken(p: (nat, nat) -> bool)
      ensures Taken(p, abs)
    {
    }

    lemma Filtered(p: (nat, nat) -> bool, abs0: map<nat, nat>)
      requires Whole() && Taken(p, abs0) && forall j :: 0 <= j < |chains| ==> Kept(p, j, |chains[j]|)
      ensures abs == map key | key in abs0 && !p(key, abs0[key]) :: abs0[key]
    {
      hide Count, AllKeyed, PowerOfTwo, Chained;
      forall key | key in abs
        ensures !p(key, abs[key])
      {
        var j := Slot(h(key), |chains|);
        assert Kept(p, j, |chains[j]|) && InChain(mem, chains[j], key);
        var k :| 0 <= k < |chains[j]| && chains[j][k] in mem && mem[chains[j][k]].key == key;
        assert abs[mem[chains[j][k]].key] == mem[chains[j][k]].val;
      }
    }

    method FilterBucket(p: (nat, nat) -> bool, i: nat, ghost abs0: map<nat, nat>)
      requires Whole() && elems <= length && i < |chains| && Taken(p, abs0) && forall j :: 0 <= j < i ==> Kept(p, j, |chains[j]|)
      modifies `mem, `chains, `abs, `elems, list, mem.Keys
      ensures Whole() && elems <= length && |chains| == old(|chains|) && Taken(p, abs0) && forall j :: 0 <= j <= i ==> Kept(p, j, |chains[j]|)
      ensures mem.Keys == old(mem.Keys)
    {
      hide Count, AllKeyed, Holds, PowerOfTwo, Chain, Keyed, Kept, Taken, Chained;
      Sizes();
      OwnKeyed(i);
      HeadIn(i);
      assert Kept(p, i, 0) by { NoneKept(p, i); }
      var prev: Entry? := null;
      var e := list[i];
      ghost var q := 0;
      while e != null
        invariant Whole() && elems <= length && |chains| == old(|chains|) && Taken(p, abs0) && mem.Keys == old(mem.Keys)
        invariant forall j :: 0 <= j < i ==> Kept(p, j, |chains[j]|)
        invariant q <= |chains[i]| && Kept(p, i, q) && (prev == if q == 0 then null else chains[i][q - 1]) && (e == if q == |chains[i]| then null else chains[i][q])
        decreases |chains[i]| - q
      {
        InBucket(i, q);
        if p(e.key, e.val) {
          e := TakeOut(p, i, q, prev, e, abs0);
        } else {
          KeepOne(p, i, q);
          NextIn(i, q);
          prev, e := e, e.next;
          q := q + 1;
        }
      }
      EndIn(i, q, e);
    }

    lemma HeadIn(i: nat)
      requires Whole() && i < |chains| == list.Length
      ensures list[i] == if chains[i] == [] then null else chains[i][0]
    {
      hide Count, PowerOfTwo, Holds, AllKeyed;
      assert Chain(mem, list[..][i], chains[i]);
    }

    lemma EndIn(i: nat, q: nat, e: Entry?)
      requires i < |chains| && q <= |chains[i]| && (e == if q == |chains[i]| then null else chains[i][q])
      ensures e == null ==> q == |chains[i]|
    {
    }

    lemma NextIn(i: nat, q: nat)
      requires Whole() && i < |chains| && q < |chains[i]|
      ensures chains[i][q] in mem && mem[chains[i][q]].next == if q + 1 < |chains[i]| then chains[i][q + 1] else null
    {
      hide Count, PowerOfTwo, Holds, AllKeyed;
      var c := chains[i];
      assert Chain(mem, list[..][i], c);
      if q + 1 < |c| { assert c[q + 1] in mem; }
    }

    lemma NoneKept(p: (nat, nat) -> bool, i: nat)
      requires i < |chains|
      ensures Kept(p, i, 0)
    {
    }

    lemma KeepOne(p: (nat, nat) -> bool, i: nat, q: nat)
      requires Kept(p, i, q) && q < |chains[i]| && chains[i][q] in mem && !p(mem[chains[i][q]].key, mem[chains[i][q]].val)
      ensures Kept(p, i, q + 1)
    {
    }

    method TakeOut(p: (nat, nat) -> bool, i: nat, ghost q: nat, prev: Entry?, e: Entry, ghost abs0: map<nat, nat>) returns (next: Entry?)
      requires Whole() && elems <= length && i < |chains| && q < |chains[i]| && e == chains[i][q] && (prev == if q == 0 then null else chains[i][q - 1])
      requires e in mem && p(e.key, e.val) && Taken(p, abs0) && Kept(p, i, q) && forall j :: 0 <= j < i ==> Kept(p, j, |chains[j]|)
      modifies `mem, `chains, `abs, `elems, list, mem.Keys
      ensures Whole() && elems <= length && |chains| == old(|chains|) && |chains[i]| == old(|chains[i]|) - 1 && mem.Keys == old(mem.Keys)
      ensures Taken(p, abs0) && Kept(p, i, q) && forall j :: 0 <= j < i ==> Kept(p, j, |chains[j]|)
      ensures prev == (if q == 0 then null else chains[i][q - 1]) && next == if q == |chains[i]| then null else chains[i][q]
    {
      hide Count, AllKeyed, Holds, PowerOfTwo, Chain, Keyed, Chained, Sync;
      InBucket(i, q);
      NextIn(i, q);
      assert e.key == mem[e].key && e.val == mem[e].val && e.next == mem[e].next by { Synced(e); }
      next := e.next;
      Detach(i, q, prev, e);
    }

    lemma Synced(e: Entry)
      requires Sync() && e in mem
      ensures e.key == mem[e].key && e.val == mem[e].val && e.next == mem[e].next && e.hash == mem[e].hash
    {
    }

    /** htable_foreach: the function is called once for every pair. */
    method ForEach() returns (visited: seq<(nat, nat)>)
      requires Valid()
      ensures |visited| == elems
      ensures forall n, o :: 0 <= n < o < |visited| ==> visited[n].0 != visited[o].0
      ensures forall n :: 0 <= n < |visited| ==> visited[n].0 in abs && abs[visited[n].0] == visited[n].1
      ensures forall key :: key in abs ==> (key, abs[key]) in visited
    {
      hide AllKeyed, Holds, PowerOfTwo, Chain;
      Sizes();
      visited := [];
      var count, i := 0, 0;
      assert chains[..0] == [];
      while i < length
        invariant 0 <= i <= length == |chains| && visited == Visits(mem, chains, i) && count == |visited| == Count(chains[..i])
      {
        HeadIn(i);
        assert chains[..i + 1][..i] == chains[..i];
        var e := list[i];
        ghost var k, v0 := 0, visited;
        while e != null
          invariant k <= |chains[i]| && visited == v0 + ChainVisits(mem, chains[i], k) && count == |v0| + k
          invariant e == if k == |chains[i]| then null else chains[i][k]
          decreases |chains[i]| - k
        {
          NextIn(i, k);
          visited := visited + [(e.key, e.val)];
          e := e.next;
          count, k := count + 1, k + 1;
        }
        i := i + 1;
      }
      assert chains[..i] == chains;
      VisitsOnce(h, mem, chains, abs, |chains|);
      VisitsAll(h, mem, chains, abs);
    }
  }

  lemma {:induction false} NoEntries(newChains: seq<seq<Entry>>, n: nat)
    requires n <= |newChains| && forall i :: 0 <= i < |newChains| ==> newChains[i] == []
    ensures Entries(newChains[..n]) == {} && Count(newChains[..n]) == 0
  {
    if n > 0 {
      NoEntries(newChains, n - 1);
      assert newChains[..n][..n - 1] == newChains[..n - 1];
    }
  }

  /** The pairs in the order in which htable_foreach visits them. */
  function Visits(m: Mem, chains: seq<seq<Entry>>, i: nat): seq<(nat, nat)>
    requires i <= |chains|
  {
    if i == 0 then [] else Visits(m, chains, i - 1) + ChainVisits(m, chains[i - 1], |chains[i - 1]|)
  }

  function ChainVisits(m: Mem, c: seq<Entry>, k: nat): (r: seq<(nat, nat)>)
    requires k <= |c|
    ensures |r| == k
  {
    if k == 0 then [] else ChainVisits(m, c, k - 1) + [if c[k - 1] in m then (m[c[k - 1]].key, m[c[k - 1]].val) else (0, 0)]
  }

  lemma {:induction false} ChainVisitsAt(m: Mem, c: seq<Entry>, k: nat, l: nat)
    requires l < k <= |c| && c[l] in m
    ensures ChainVisits(m, c, k)[l] == (m[c[l]].key, m[c[l]].val)
  {
    if l < k - 1 { ChainVisitsAt(m, c, k - 1, l); }
  }

  /** What is visited in the first `i` buckets: pairs of the table, whose keys are there, and each key once. */
  ghost predicate Once(h: nat -> nat, visited: seq<(nat, nat)>, abs: map<nat, nat>, i: nat, length: nat) {
    && length > 0
    && (forall n :: 0 <= n < |visited| ==> visited[n].0 in abs && abs[visited[n].0] == visited[n].1 && Slot(h(visited[n].0), length) < i)
    && (forall n, o :: 0 <= n < o < |visited| ==> visited[n].0 != visited[o].0)
  }

  lemma {:induction false} VisitsOnce(h: nat -> nat, m: Mem, chains: seq<seq<Entry>>, abs: map<nat, nat>, i: nat)
    requires Holds(h, m, chains, abs) && AllKeyed(h, m, chains) && i <= |chains|
    ensures Once(h, Visits(m, chains, i), abs, i, |chains|)
  {
    hide Holds, AllKeyed, Once, OnceIn;
    if i > 0 {
      VisitsOnce(h, m, chains, abs, i - 1);
      ChainOnce(h, m, chains, abs, i - 1);
      OnceMore(h, Visits(m, chains, i - 1), ChainVisits(m, chains[i - 1], |chains[i - 1]|), abs, i - 1, |chains|);
    } else {
      Buckets(h, m, chains, abs);
      NoneOnce(h, abs, |chains|);
    }
  }

  lemma NoneOnce(h: nat -> nat, abs: map<nat, nat>, length: nat)
    requires length > 0
    ensures Once(h, [], abs, 0, length)
  {
  }

  ghost predicate OnceIn(h: nat -> nat, b: seq<(nat, nat)>, abs: map<nat, nat>, i: nat, length: nat) {
    && length > 0
    && (forall n :: 0 <= n < |b| ==> b[n].0 in abs && abs[b[n].0] == b[n].1 && Slot(h(b[n].0), length) == i)
    && (forall n, o :: 0 <= n < o < |b| ==> b[n].0 != b[o].0)
  }

  lemma OnceMore(h: nat -> nat, a: seq<(nat, nat)>, b: seq<(nat, nat)>, abs: map<nat, nat>, i: nat, length: nat)
    requires Once(h, a, abs, i, length) && OnceIn(h, b, abs, i, length)
    ensures Once(h, a + b, abs, i + 1, length)
  {
    var v := a + b;
    forall n, o | 0 <= n < o < |v|
      ensures v[n].0 != v[o].0
    {
      if n < |a| <= o {
        assert v[n] == a[n] && v[o] == b[o - |a|];
      } else if |a| <= n {
        assert v[n] == b[n - |a|] && v[o] == b[o - |a|];
      }
    }
  }

  lemma Buckets(h: nat -> nat, m: Mem, chains: seq<seq<Entry>>, abs: map<nat, nat>)
    requires Holds(h, m, chains, abs)
    ensures |chains| > 0
  {
  }

  lemma ChainOnce(h: nat -> nat, m: Mem, chains: seq<seq<Entry>>, abs: map<nat, nat>, i: nat)
    requires Holds(h, m, chains, abs) && AllKeyed(h, m, chains) && i < |chains|
    ensures OnceIn(h, ChainVisits(m, chains[i], |chains[i]|), abs, i, |chains|)
  {
    var c := chains[i];
    assert Keyed(h, m, c, i, |chains|);
    forall n | 0 <= n < |c|
      ensures ChainVisits(m, c, |c|)[n] == (m[c[n]].key, m[c[n]].val)
    {
      ChainVisitsAt(m, c, |c|, n);
    }
  }

  lemma VisitsAll(h: nat -> nat, m: Mem, chains: seq<seq<Entry>>, abs: map<nat, nat>)
    requires Holds(h, m, chains, abs)
    ensures forall key :: key in abs ==> (key, abs[key]) in Visits(m, chains, |chains|)
  {
    forall key | key in abs
      ensures (key, abs[key]) in Visits(m, chains, |chains|)
    {
      var i := Slot(h(key), |chains|);
      var c := chains[i];
      assert InChain(m, c, key);
      var k :| 0 <= k < |c| && c[k] in m && m[c[k]].key == key;
      ChainVisitsAt(m, c, |c|, k);
      assert ChainVisits(m, c, |c|)[k] == (key, abs[key]);
      InVisits(m, chains, |chains|, i, (key, abs[key]));
    }
  }

  lemma {:induction false} InVisits(m: Mem, chains: seq<seq<Entry>>, n: nat, i: nat, x: (nat, nat))
    requires i < n <= |chains| && x in ChainVisits(m, chains[i], |chains[i]|)
    ensures x in Visits(m, chains, n)
  {
    hide ChainVisits;
    if i < n - 1 { InVisits(m, chains, n - 1, i, x); }
  }
}
