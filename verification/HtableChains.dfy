/** The chains of the hash table, over what the entries hold. */
module HtableChains {

  class Entry {
    var hash: nat
    var key: nat
    var val: nat
    var next: Entry?

    constructor (key: nat, val: nat, hash: nat)
      ensures this.key == key && this.val == val && this.hash == hash && next == null
    {
      this.key, this.val, this.hash, next := key, val, hash, null;
    }
  }

  datatype Cell = Cell(hash: nat, key: nat, val: nat, next: Entry?)

  type Mem = map<Entry, Cell>

  function Slot(hash: nat, length: nat): (i: nat)
    requires length > 0
    ensures i < length
  {
    hash % length
  }

  /** The entries of a bucket, linked through next. */
  ghost predicate Chain(m: Mem, head: Entry?, c: seq<Entry>) {
    && head == (if c == [] then null else c[0])
    && (forall k :: 0 <= k < |c| ==> c[k] in m)
    && (forall k :: 0 <= k < |c| - 1 ==> m[c[k]].next == c[k + 1])
    && (c != [] ==> m[c[|c| - 1]].next == null)
  }

  ghost predicate Chained(m: Mem, list: seq<Entry?>, chains: seq<seq<Entry>>) {
    |list| == |chains| > 0 && forall i :: 0 <= i < |chains| ==> Chain(m, list[i], chains[i])
  }

  /** An entry is in the bucket that its hash selects, and no key is twice in a bucket. */
  ghost predicate Keyed(h: nat -> nat, m: Mem, c: seq<Entry>, i: nat, length: nat) {
    && length > 0
    && (forall k :: 0 <= k < |c| ==> c[k] in m && m[c[k]].hash == h(m[c[k]].key) && Slot(m[c[k]].hash, length) == i)
    && (forall k, l :: 0 <= k < l < |c| ==> c[k] in m && c[l] in m && m[c[k]].key != m[c[l]].key)
  }

  ghost predicate AllKeyed(h: nat -> nat, m: Mem, chains: seq<seq<Entry>>) {
    forall i :: 0 <= i < |chains| ==> Keyed(h, m, chains[i], i, |chains|)
  }

  /** An entry is in the bucket whose number is the remainder of its hash by the length, which is a power of two. */
  lemma Bucketed(h: nat -> nat, m: Mem, chains: seq<seq<Entry>>, i: nat, k: nat)
    requires AllKeyed(h, m, chains) && i < |chains| && k < |chains[i]|
    ensures chains[i][k] in m && h(m[chains[i][k]].key) % |chains| == i
  {
    assert Keyed(h, m, chains[i], i, |chains|);
  }

  ghost predicate InChain(m: Mem, c: seq<Entry>, key: nat) {
    exists k :: 0 <= k < |c| && c[k] in m && m[c[k]].key == key
  }

  /** The table holds the pairs of `abs`. */
  ghost predicate Holds(h: nat -> nat, m: Mem, chains: seq<seq<Entry>>, abs: map<nat, nat>) {
    && |chains| > 0
    && (forall i, k :: 0 <= i < |chains| && 0 <= k < |chains[i]| ==> chains[i][k] in m && m[chains[i][k]].key in abs && abs[m[chains[i][k]].key] == m[chains[i][k]].val)
    && (forall key :: key in abs ==> InChain(m, chains[Slot(h(key), |chains|)], key))
  }

  function Count(chains: seq<seq<Entry>>): nat {
    if chains == [] then 0 else Count(chains[..|chains| - 1]) + |chains[|chains| - 1]|
  }

  lemma {:induction false} CountSet(chains: seq<seq<Entry>>, i: nat, c: seq<Entry>)
    requires i < |chains|
    ensures Count(chains[i := c]) == Count(chains) - |chains[i]| + |c|
  {
    var n := |chains| - 1;
    if i < n {
      CountSet(chains[..n], i, c);
      assert chains[i := c][..n] == chains[..n][i := c];
    } else {
      assert chains[i := c][..n] == chains[..n];
    }
  }

  lemma SameChain(m: Mem, m': Mem, head: Entry?, c: seq<Entry>)
    requires Chain(m, head, c) && forall k :: 0 <= k < |c| ==> c[k] in m' && m'[c[k]] == m[c[k]]
    ensures Chain(m', head, c)
  {
  }

  /** An entry is in one bucket only. */
  lemma OtherBucket(h: nat -> nat, m: Mem, chains: seq<seq<Entry>>, i: nat, e: Entry)
    requires AllKeyed(h, m, chains) && i < |chains| && e in chains[i]
    ensures forall j :: 0 <= j < |chains| && j != i ==> e !in chains[j]
  {
    var k :| 0 <= k < |chains[i]| && chains[i][k] == e;
    assert Keyed(h, m, chains[i], i, |chains|);
    forall j | 0 <= j < |chains| && j != i
      ensures e !in chains[j]
    {
      assert Keyed(h, m, chains[j], j, |chains|);
    }
  }

  /** A change to one bucket, in a memory that keeps the entries of all others. */
  lemma OneBucket(h: nat -> nat, m: Mem, m': Mem, list: seq<Entry?>, chains: seq<seq<Entry>>, i: nat, head: Entry?, c: seq<Entry>)
    requires Chained(m, list, chains) && AllKeyed(h, m, chains) && i < |chains|
    requires forall j, k :: 0 <= j < |chains| && j != i && 0 <= k < |chains[j]| ==> chains[j][k] in m' && chains[j][k] in m && m'[chains[j][k]] == m[chains[j][k]]
    requires Chain(m', head, c) && Keyed(h, m', c, i, |chains|)
    ensures Chained(m', list[i := head], chains[i := c]) && AllKeyed(h, m', chains[i := c])
  {
    var list', chains' := list[i := head], chains[i := c];
    forall j | 0 <= j < |chains'|
      ensures Chain(m', list'[j], chains'[j]) && Keyed(h, m', chains'[j], j, |chains'|)
    {
      if j != i {
        assert Chain(m, list[j], chains[j]) && Keyed(h, m, chains[j], j, |chains|);
        SameChain(m, m', list[j], chains[j]);
      }
    }
  }

  /** The contents after a change to one bucket. */
  lemma OneBucketHolds(h: nat -> nat, m: Mem, m': Mem, chains: seq<seq<Entry>>, abs: map<nat, nat>, abs': map<nat, nat>, i: nat, c: seq<Entry>)
    requires Holds(h, m, chains, abs) && AllKeyed(h, m, chains) && i < |chains|
    requires forall j, k :: 0 <= j < |chains| && j != i && 0 <= k < |chains[j]| ==> chains[j][k] in m' && chains[j][k] in m && m'[chains[j][k]] == m[chains[j][k]]
    requires forall key :: Slot(h(key), |chains|) != i ==> (key in abs' <==> key in abs) && (key in abs ==> abs'[key] == abs[key])
    requires forall k :: 0 <= k < |c| ==> c[k] in m' && m'[c[k]].key in abs' && abs'[m'[c[k]].key] == m'[c[k]].val
    requires forall key :: key in abs' && Slot(h(key), |chains|) == i ==> InChain(m', c, key)
    ensures Holds(h, m', chains[i := c], abs')
  {
    var chains' := chains[i := c];
    forall j, k | 0 <= j < |chains'| && 0 <= k < |chains'[j]|
      ensures chains'[j][k] in m' && m'[chains'[j][k]].key in abs' && abs'[m'[chains'[j][k]].key] == m'[chains'[j][k]].val
    {
      if j != i {
        assert Keyed(h, m, chains[j], j, |chains|);
      }
    }
    forall key | key in abs'
      ensures InChain(m', chains'[Slot(h(key), |chains'|)], key)
    {
      var j := Slot(h(key), |chains|);
      if j != i {
        assert InChain(m, chains[j], key);
        var k :| 0 <= k < |chains[j]| && chains[j][k] in m && m[chains[j][k]].key == key;
        assert m'[chains'[j][k]].key == key;
      }
    }
  }

  // Changes to one chain.

  /** A new entry at the end; `prev` is the entry before it, if any. */
  lemma AppendEntry(h: nat -> nat, m: Mem, head: Entry?, c: seq<Entry>, i: nat, length: nat, e: Entry, cell: Cell, m': Mem)
    requires Chain(m, head, c) && Keyed(h, m, c, i, length) && e !in m && cell.next == null
    requires cell.hash == h(cell.key) && Slot(cell.hash, length) == i && !InChain(m, c, cell.key)
    requires m' == if c == [] then m[e := cell] else m[e := cell][c[|c| - 1] := m[c[|c| - 1]].(next := e)]
    ensures Chain(m', if c == [] then e else head, c + [e]) && Keyed(h, m', c + [e], i, length)
  {
    assert forall k :: 0 <= k < |c| ==> c[k] in m' && m'[c[k]].key == m[c[k]].key && m'[c[k]].hash == m[c[k]].hash;
    assert forall k :: 0 <= k < |c| - 1 ==> c[k] != c[|c| - 1];
  }

  lemma SetValue(h: nat -> nat, m: Mem, head: Entry?, c: seq<Entry>, i: nat, length: nat, e: Entry, val: nat)
    requires Chain(m, head, c) && Keyed(h, m, c, i, length) && e in m
    ensures var m' := m[e := m[e].(val := val)]; Chain(m', head, c) && Keyed(h, m', c, i, length)
  {
    var m' := m[e := m[e].(val := val)];
    assert forall k :: 0 <= k < |c| ==> c[k] in m' && m'[c[k]].key == m[c[k]].key && m'[c[k]].hash == m[c[k]].hash && m'[c[k]].next == m[c[k]].next;
  }

  /** The entry at `k` is taken out: the pointer to it, in the bucket or in the entry before, skips it. */
  lemma Unlink(h: nat -> nat, m: Mem, head: Entry?, c: seq<Entry>, i: nat, length: nat, k: nat, m': Mem)
    requires Chain(m, head, c) && Keyed(h, m, c, i, length) && k < |c|
    requires m' == if k == 0 then m else m[c[k - 1] := m[c[k - 1]].(next := m[c[k]].next)]
    ensures Chain(m', if k == 0 then m[c[0]].next else head, c[..k] + c[k + 1..]) && Keyed(h, m', c[..k] + c[k + 1..], i, length)
  {
    var c' := c[..k] + c[k + 1..];
    assert forall l :: 0 <= l < |c| ==> c[l] in m' && m'[c[l]].key == m[c[l]].key && m'[c[l]].hash == m[c[l]].hash;
    assert forall l :: 0 <= l < |c'| ==> c'[l] == if l < k then c[l] else c[l + 1];
    forall l | 0 <= l < |c'| - 1
      ensures m'[c'[l]].next == c'[l + 1]
    {
      if l < k - 1 {
        assert c[l] != c[k - 1];
      } else if l >= k {
        if k > 0 { assert c[l + 1] != c[k - 1]; }
        assert m[c[l + 1]].next == c[l + 2];
      } else {
        assert m[c[k]].next == c[k + 1];
      }
    }
    if c' != [] && k < |c| - 1 && k > 0 { assert c[|c| - 1] != c[k - 1]; }
  }

  /** An entry moves to the front of another chain. */
  lemma PushFront(h: nat -> nat, m: Mem, head: Entry?, c: seq<Entry>, i: nat, length: nat, e: Entry)
    requires Chain(m, head, c) && Keyed(h, m, c, i, length) && e in m && e !in c
    requires m[e].hash == h(m[e].key) && Slot(m[e].hash, length) == i && !InChain(m, c, m[e].key)
    ensures var m' := m[e := m[e].(next := head)]; Chain(m', e, [e] + c) && Keyed(h, m', [e] + c, i, length)
  {
    var m' := m[e := m[e].(next := head)];
    assert forall k :: 0 <= k < |c| ==> c[k] in m' && c[k] != e && m'[c[k]] == m[c[k]];
  }

  // The entries of several chains.

  ghost function Elems(c: seq<Entry>): set<Entry> {
    set e | e in c
  }

  ghost function Entries(chains: seq<seq<Entry>>): set<Entry> {
    if chains == [] then {} else Entries(chains[..|chains| - 1]) + Elems(chains[|chains| - 1])
  }

  lemma {:induction false} InEntries(chains: seq<seq<Entry>>, e: Entry)
    ensures e in Entries(chains) <==> exists i :: 0 <= i < |chains| && e in chains[i]
  {
    if chains != [] {
      var n := |chains| - 1;
      InEntries(chains[..n], e);
      if i :| 0 <= i < |chains| && e in chains[i] {
        if i < n { assert e in chains[..n][i]; }
      }
    }
  }

  lemma {:induction false} EntriesSet(chains: seq<seq<Entry>>, i: nat, e: Entry)
    requires i < |chains|
    ensures Entries(chains[i := [e] + chains[i]]) == Entries(chains) + {e}
  {
    var n := |chains| - 1;
    if i < n {
      EntriesSet(chains[..n], i, e);
      assert chains[i := [e] + chains[i]][..n] == chains[..n][i := [e] + chains[..n][i]];
    } else {
      assert chains[i := [e] + chains[i]][..n] == chains[..n];
    }
  }

  lemma EntriesNext(chains: seq<seq<Entry>>, i: nat)
    requires i < |chains|
    ensures Entries(chains[..i + 1]) == Entries(chains[..i]) + Elems(chains[i]) && Count(chains[..i + 1]) == Count(chains[..i]) + |chains[i]|
  {
    assert chains[..i + 1][..i] == chains[..i];
  }

  /** Only the links differ. */
  ghost predicate SameData(m: Mem, m': Mem) {
    m.Keys == m'.Keys && forall e :: e in m ==> e in m' && m'[e].hash == m[e].hash && m'[e].key == m[e].key && m'[e].val == m[e].val
  }

  /** The same entries in other chains hold the same pairs. */
  lemma HoldsAgain(h: nat -> nat, m: Mem, m': Mem, chains: seq<seq<Entry>>, chains': seq<seq<Entry>>, abs: map<nat, nat>)
    requires Holds(h, m, chains, abs) && SameData(m, m') && Entries(chains) == Entries(chains') && AllKeyed(h, m', chains') && |chains'| > 0
    ensures Holds(h, m', chains', abs)
  {
    forall i, k | 0 <= i < |chains'| && 0 <= k < |chains'[i]|
      ensures chains'[i][k] in m' && m'[chains'[i][k]].key in abs && abs[m'[chains'[i][k]].key] == m'[chains'[i][k]].val
    {
      var e := chains'[i][k];
      assert e in chains'[i];
      InEntries(chains', e);
      InEntries(chains, e);
      var j :| 0 <= j < |chains| && e in chains[j];
      var l :| 0 <= l < |chains[j]| && chains[j][l] == e;
      assert chains[j][l] in m;
    }
    forall key | key in abs
      ensures InChain(m', chains'[Slot(h(key), |chains'|)], key)
    {
      var i := Slot(h(key), |chains|);
      assert InChain(m, chains[i], key);
      var k :| 0 <= k < |chains[i]| && chains[i][k] in m && m[chains[i][k]].key == key;
      var e := chains[i][k];
      assert e in chains[i];
      InEntries(chains, e);
      InEntries(chains', e);
      var j :| 0 <= j < |chains'| && e in chains'[j];
      var l :| 0 <= l < |chains'[j]| && chains'[j][l] == e;
      assert Keyed(h, m', chains'[j], j, |chains'|);
      assert m'[chains'[j][l]].key == key;
    }
  }

  /** An entry that has not moved has a key of its own. */
  lemma NewKey(h: nat -> nat, m: Mem, chains: seq<seq<Entry>>, i: nat, k: nat, e': Entry)
    requires AllKeyed(h, m, chains) && i < |chains| && k < |chains[i]|
    requires e' in Entries(chains[..i]) + Elems(chains[i][..k])
    ensures e' in m && chains[i][k] in m && m[e'].key != m[chains[i][k]].key
  {
    assert Keyed(h, m, chains[i], i, |chains|);
    if e' in Elems(chains[i][..k]) {
      var l :| 0 <= l < k && chains[i][l] == e';
    } else {
      InEntries(chains[..i], e');
      var j :| 0 <= j < i && e' in chains[..i][j];
      var l :| 0 <= l < |chains[j]| && chains[j][l] == e';
      assert Keyed(h, m, chains[j], j, |chains|);
    }
  }

  /** One entry moves to the new buckets. */
  lemma MoveOne(h: nat -> nat, m: Mem, newList: seq<Entry?>, newChains: seq<seq<Entry>>, e: Entry)
    requires Chained(m, newList, newChains) && AllKeyed(h, m, newChains) && e in m && m[e].hash == h(m[e].key)
    requires forall e' :: e' in Entries(newChains) ==> e' in m && m[e'].key != m[e].key
    ensures var i := Slot(m[e].hash, |newChains|); var m' := m[e := m[e].(next := newList[i])];
      && Chained(m', newList[i := e], newChains[i := [e] + newChains[i]]) && AllKeyed(h, m', newChains[i := [e] + newChains[i]])
      && Entries(newChains[i := [e] + newChains[i]]) == Entries(newChains) + {e}
      && Count(newChains[i := [e] + newChains[i]]) == Count(newChains) + 1
  {
    hide Entries, Count, Chain, Keyed;
    var i := Slot(m[e].hash, |newChains|);
    var m' := m[e := m[e].(next := newList[i])];
    forall j, k | 0 <= j < |newChains| && 0 <= k < |newChains[j]|
      ensures newChains[j][k] in m && m[newChains[j][k]].key != m[e].key
    {
      assert newChains[j][k] in newChains[j];
      InEntries(newChains, newChains[j][k]);
    }
    assert Chain(m, newList[i], newChains[i]) && Keyed(h, m, newChains[i], i, |newChains|);
    PushFront(h, m, newList[i], newChains[i], i, |newChains|, e);
    OneBucket(h, m, m', newList, newChains, i, e, [e] + newChains[i]);
    EntriesSet(newChains, i, e);
    CountSet(newChains, i, [e] + newChains[i]);
  }

  /** The rest of the old chain, once its first entry is linked elsewhere. */
  lemma RestOfChain(h: nat -> nat, m0: Mem, m: Mem, c: seq<Entry>, i: nat, length: nat, k: nat, n: Entry?)
    requires Keyed(h, m0, c, i, length) && k < |c| && Chain(m, c[k], c[k..])
    ensures c[k] in m && Chain(m[c[k] := m[c[k]].(next := n)], m[c[k]].next, c[k + 1..])
  {
    var r := c[k..];
    assert r[0] == c[k] && forall l :: 0 <= l < |c| - k ==> r[l] == c[k + l] && r[l] in m;
    assert forall l :: k < l < |c| ==> c[l] != c[k];
    assert forall l :: 0 <= l < |c| - k - 1 ==> m[r[l]].next == r[l + 1];
    var r' := c[k + 1..];
    assert forall l :: 0 <= l < |r'| ==> r'[l] == r[l + 1];
    if r' != [] { assert r'[|r'| - 1] == r[|r| - 1]; }
  }

  /** The pairs of a chain without its entry at `k`. */
  lemma Shorter(h: nat -> nat, m0: Mem, m: Mem, c: seq<Entry>, i: nat, length: nat, k: nat)
    requires Keyed(h, m0, c, i, length) && k < |c| && SameData(m0, m)
    ensures var c' := c[..k] + c[k + 1..]; var key := m0[c[k]].key;
      && (forall l :: 0 <= l < |c'| ==> c'[l] in c && c'[l] in m0 && c'[l] in m && m0[c'[l]].key != key)
      && (forall x :: x != key && InChain(m0, c, x) ==> InChain(m, c', x))
  {
    var c', key := c[..k] + c[k + 1..], m0[c[k]].key;
    assert forall l :: 0 <= l < |c'| ==> c'[l] == if l < k then c[l] else c[l + 1];
    forall x | x != key && InChain(m0, c, x)
      ensures InChain(m, c', x)
    {
      var l :| 0 <= l < |c| && c[l] in m0 && m0[c[l]].key == x;
      if l < k { assert c'[l] == c[l]; } else { assert c'[l - 1] == c[l]; }
    }
  }

  /** The pairs of a chain with a new entry. */
  lemma Longer(m0: Mem, m: Mem, c: seq<Entry>, e: Entry)
    requires e in m && forall k :: 0 <= k < |c| ==> c[k] in m0 && c[k] in m && m[c[k]].key == m0[c[k]].key && m[c[k]].val == m0[c[k]].val
    ensures forall k :: 0 <= k < |c + [e]| ==> (c + [e])[k] == (if k < |c| then c[k] else e)
    ensures InChain(m, c + [e], m[e].key) && forall x :: InChain(m0, c, x) ==> InChain(m, c + [e], x)
  {
    assert (c + [e])[|c|] == e;
    forall x | InChain(m0, c, x)
      ensures InChain(m, c + [e], x)
    {
      var k :| 0 <= k < |c| && c[k] in m0 && m0[c[k]].key == x;
      assert (c + [e])[k] == c[k];
    }
  }

  /** The pairs of a chain with another value at `k`. */
  lemma Revalued(h: nat -> nat, m0: Mem, m: Mem, c: seq<Entry>, i: nat, length: nat, k: nat, val: nat)
    requires Keyed(h, m0, c, i, length) && k < |c| && m == m0[c[k] := m0[c[k]].(val := val)]
    ensures forall l :: 0 <= l < |c| ==> c[l] in m && m[c[l]].key == m0[c[l]].key && m[c[l]].val == (if l == k then val else m0[c[l]].val) && (l != k ==> m0[c[l]].key != m0[c[k]].key)
    ensures forall x :: InChain(m0, c, x) ==> InChain(m, c, x)
  {
    forall x | InChain(m0, c, x)
      ensures InChain(m, c, x)
    {
      var l :| 0 <= l < |c| && c[l] in m0 && m0[c[l]].key == x;
      assert m[c[l]].key == x;
    }
  }
}
