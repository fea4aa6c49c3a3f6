/** The plain hash table of c-hacks/src/hashtbl.c on the heap: bucket chains, the rehash that
    moves entries one at a time, and the iterator that walks slots and chains. */
module Hashtbl {
  import opened Sequences
  import opened Bits
  import opened RecencyList
  import opened Chains

  /** The order in which hashtbl_apply and the iterator visit the entries. */
  ghost function Flatten(chains: seq<seq<Entry>>): seq<Entry> {
    if chains == [] then [] else Flatten(chains[..|chains| - 1]) + chains[|chains| - 1]
  }

  /** struct hashtbl. The abstract value lists the pairs newest first; the C code keeps no such
      order, so it serves here as a map. */
  class Table {
    const hashFn: Ptr -> nat
    const equalsFn: (Ptr, Ptr) -> bool
    const autoResize: bool
    const maxLoadFactor: real
    var nentries: nat
    var resizeThreshold: int
    var table: array<Entry?>

    ghost var all: seq<Entry>
    ghost var chains: seq<seq<Entry>>
    ghost var contents: Pairs

    ghost predicate Valid()
      reads this, table, all
    {
      && Distinct(all)
      && ChainsOk(table[..], chains, all)
      && table.Length <= MAX_TABLE_SIZE
      && nentries == |all| == |contents|
      && Holds(all, contents, hashFn)
      && UniqueKeys(equalsFn, contents)
      && GoodCallbacks(equalsFn, hashFn)
      && 0.0 <= maxLoadFactor <= 1.0
      && resizeThreshold == Threshold(table.Length, maxLoadFactor)
    }

    ghost function Repr(): set<object>
      reads this
    {
      {this, table} + set e | e in all
    }

    /** hashtbl_create after its allocations succeeded. */
    constructor (cap: nat, loadFactor: real, auto: bool, hash: Ptr -> nat, equals: (Ptr, Ptr) -> bool)
      requires IsPow2(cap) && 1 <= cap <= MAX_TABLE_SIZE && GoodCallbacks(equals, hash)
      ensures Valid() && fresh(Repr()) && contents == [] && table.Length == cap
      ensures hashFn == hash && equalsFn == equals && autoResize == auto
      ensures maxLoadFactor == ClampLoadFactor(loadFactor)
    {
      hashFn, equalsFn := hash, equals;
      autoResize, maxLoadFactor := auto, ClampLoadFactor(loadFactor);
      nentries := 0;
      resizeThreshold := Threshold(cap, ClampLoadFactor(loadFactor));
      table := new Entry?[cap](_ => null);
      all, chains, contents := [], seq(cap, _ => []), [];
    }

    /** find_entry. */
    method FindEntry(k: Ptr) returns (e: Entry?, ghost i: int)
      requires Valid()
      ensures i == IndexOf(equalsFn, contents, k)
      ensures i < 0 <==> e == null
      ensures i < |all| && (i >= 0 ==> e == all[i])
    {
      SlotBound(hashFn(k), table.Length);
      var b := Slot(hashFn(k), table.Length);
      var prev, e', j := ChainFind(table[b], hashFn(k), k, equalsFn, chains[b]);
      e := e';
      i := FoundIndex(table[..], chains, all, contents, hashFn, equalsFn, k, e, j);
    }

    /** hashtbl_lookup. */
    method Lookup(k: Ptr) returns (v: Ptr)
      requires Valid()
      ensures v == Get(equalsFn, contents, k)
      ensures !Holding(equalsFn, contents, k) ==> v == NULL
      ensures forall i :: 0 <= i < |contents| && equalsFn(contents[i].0, k) ==> v == contents[i].1
    {
      hide ChainsOk, UniqueKeys, GoodCallbacks, Threshold;
      GetIs(equalsFn, hashFn, contents, k);
      var e, i := FindEntry(k);
      return if e != null then e.val else NULL;
    }

    /** remove_key and hashtbl_remove. */
    method RemoveKey(k: Ptr) returns (rc: int)
      requires Valid()
      modifies this`all, this`contents, this`chains, this`nentries, table, all`next
      ensures Valid() && Repr() <= old(Repr())
      ensures rc == if IndexOf(equalsFn, old(contents), k) >= 0 then 0 else 1
      ensures contents == Remove(equalsFn, old(contents), k)
      ensures !Holding(equalsFn, old(contents), k) ==> rc == 1 && contents == old(contents)
      ensures forall i :: 0 <= i < |old(contents)| && equalsFn(old(contents)[i].0, k) ==>
        rc == 0 && contents == old(contents)[..i] + old(contents)[i + 1..]
    {
      hide ChainsOk, Holds, UniqueKeys, GoodCallbacks, IndexOf, Holding, Remove, Threshold, Distinct;
      RemoveIs(equalsFn, hashFn, contents, k);
      AbsentIndex(equalsFn, contents, k);
      rc := TakeOut(k);
    }

    method TakeOut(k: Ptr) returns (rc: int)
      requires Valid()
      modifies this`all, this`contents, this`chains, this`nentries, table, all`next
      ensures Valid() && Repr() <= old(Repr())
      ensures rc == if IndexOf(equalsFn, old(contents), k) >= 0 then 0 else 1
      ensures contents == Remove(equalsFn, old(contents), k)
    {
      hide UniqueKeys, GoodCallbacks, Threshold, Distinct, ChainsOk, Holds, IndexOf;
      SizeIsPow2(table[..], chains, all);
      SlotBound(hashFn(k), table.Length);
      var b := Slot(hashFn(k), table.Length);
      SlotChain(table[..], chains, all, b);
      var prev, e, j := ChainFind(table[b], hashFn(k), k, equalsFn, chains[b]);
      ghost var i := FoundIndex(table[..], chains, all, contents, hashFn, equalsFn, k, e, j);
      if e == null {
        return 1;
      }
      Unlink(b, prev, e, j, i);
      return 0;
    }

    method Unlink(b: nat, prev: Entry?, e: Entry, ghost j: nat, ghost i: nat)
      requires Valid()
      requires b < |chains| && j < |chains[b]| && chains[b][j] == e && i < |all| && all[i] == e
      requires prev == if j == 0 then null else chains[b][j - 1]
      modifies this`all, this`contents, this`chains, this`nentries, table, all`next
      ensures Valid() && all == Without(old(all), i)
      ensures |old(contents)| == |old(all)| && contents == Without(old(contents), i)
    {
      hide ChainsOk, Holds, UniqueKeys, GoodCallbacks, Threshold;
      ghost var all', contents' := Without(all, i), Without(contents, i);
      ghost var chains' := chains[b := Without(chains[b], j)];
      WithoutFacts(equalsFn, hashFn, all, contents, i);
      WithoutIndex(all, i);
      if j > 0 {
        ChainInAll(table[..], chains, all, b, j - 1);
      }
      ChainUnlink(table, b, prev, e, chains, all, j, i);
      assert Holds(all', contents', hashFn);
      nentries := nentries - 1;
      all, contents, chains := all', contents', chains';
    }

    /** hashtbl_insert: the resize comes before the entry is allocated, so it stays even when that
        allocation fails. */
    method Insert(k: Ptr, v: Ptr, entryOk: bool, tableOk: bool) returns (rc: int)
      requires Valid()
      modifies Repr()
      ensures Valid() && fresh(Repr() - old(Repr()))
      ensures rc == if IndexOf(equalsFn, old(contents), k) < 0 && !entryOk then 1 else 0
      ensures contents == if rc == 1 then old(contents) else RecencyList.Insert(equalsFn, old(contents), k, v)
      ensures table.Length == if IndexOf(equalsFn, old(contents), k) >= 0 then old(table.Length)
                              else AutoSize(autoResize, tableOk, |old(contents)|, old(table.Length), maxLoadFactor)
      ensures !Holding(equalsFn, old(contents), k) ==> rc == if entryOk then 0 else 1
      ensures !Holding(equalsFn, old(contents), k) ==>
        contents == if entryOk then [(k, v)] + old(contents) else old(contents)
      ensures forall i :: 0 <= i < |old(contents)| && equalsFn(old(contents)[i].0, k) ==>
        rc == 0 && contents == old(contents)[i := (old(contents)[i].0, v)] && table == old(table)
      ensures !autoResize || !tableOk ==> table == old(table)
      ensures !Holding(equalsFn, old(contents), k) && autoResize && tableOk && old(table.Length) < MAX_TABLE_SIZE ==>
        table.Length == if Reaches(|old(contents)|, old(table.Length), maxLoadFactor) then 2 * old(table.Length)
                        else old(table.Length)
    {
      hide Reaches, ChainsOk, Holds, UniqueKeys, GoodCallbacks, IndexOf, Holding, InsertEvict, AutoSize, Threshold, Distinct;
      InsertIs(equalsFn, hashFn, contents, k, v, false);
      InsertPlain(equalsFn, contents, k, v);
      AbsentIndex(equalsFn, contents, k);
      AutoSizeIs(autoResize, tableOk, |contents|, table.Length, maxLoadFactor);
      rc := PutIn(k, v, entryOk, tableOk);
    }

    method PutIn(k: Ptr, v: Ptr, entryOk: bool, tableOk: bool) returns (rc: int)
      requires Valid()
      modifies Repr()
      ensures Valid() && fresh(Repr() - old(Repr()))
      ensures rc == if IndexOf(equalsFn, old(contents), k) < 0 && !entryOk then 1 else 0
      ensures contents == if rc == 1 then old(contents) else RecencyList.Insert(equalsFn, old(contents), k, v)
      ensures table.Length == if IndexOf(equalsFn, old(contents), k) >= 0 then old(table.Length)
                              else AutoSize(autoResize, tableOk, |old(contents)|, old(table.Length), maxLoadFactor)
      ensures table.Length == old(table.Length) ==> table == old(table)
    {
      hide ChainsOk, Holds, UniqueKeys, GoodCallbacks, IndexOf, Threshold, Distinct;
      var e, i := FindEntry(k);
      if e != null {
        assert e in all;
        ReplaceValue(e, v, i);
        return 0;
      }
      GrowIfFull(tableOk);
      if !entryOk {
        return 1;
      }
      var n := new Entry();
      n.key, n.val, n.hash := k, v, hashFn(k);
      LinkNew(n);
      return 0;
    }

    method ReplaceValue(e: Entry, v: Ptr, ghost i: nat)
      requires Valid() && i < |all| && all[i] == e
      modifies this`contents, e`val
      ensures Valid() && |old(contents)| == |all|
      ensures contents == old(contents)[i := (old(contents)[i].0, v)]
    {
      hide ChainsOk, GoodCallbacks, IndexOf;
      e.val := v;
      contents := contents[i := (contents[i].0, v)];
    }

    /** link_entry on the table itself. */
    method LinkNew(e: Entry)
      requires Valid() && e !in all
      requires e.hash == hashFn(e.key) && IndexOf(equalsFn, contents, e.key) < 0
      modifies this`all, this`contents, this`chains, this`nentries, table, e`next
      ensures Valid() && all == [e] + old(all) && contents == [(e.key, e.val)] + old(contents)
      ensures nentries == old(nentries) + 1
    {
      hide ChainsOk, Holds, UniqueKeys, GoodCallbacks, IndexOf, Threshold;
      ghost var all', contents' := [e] + all, [(e.key, e.val)] + contents;
      NewFacts(equalsFn, hashFn, all, contents, e);
      ghost var b := ChainPush(table, e, chains, all);
      assert Holds(all', contents', hashFn);
      nentries := nentries + 1;
      all, contents, chains := all', contents', chains[b := [e] + chains[b]];
    }

    method GrowIfFull(tableOk: bool)
      requires Valid()
      modifies this`table, this`chains, this`nentries, this`resizeThreshold, table, all`next
      ensures Valid() && (table == old(table) || fresh(table))
      ensures table.Length == AutoSize(autoResize, tableOk, nentries, old(table.Length), maxLoadFactor)
      ensures table.Length == old(table.Length) ==> table == old(table)
      ensures nentries == old(nentries)
    {
      hide ChainsOk, Holds, UniqueKeys, GoodCallbacks, IndexOf, Distinct, Threshold;
      SizeIsPow2(table[..], chains, all);
      DoubleFits(table.Length);
      if autoResize && nentries >= resizeThreshold {
        var rc := Resize(2 * table.Length, tableOk);
      }
    }

    /** hashtbl_resize: every lookup answers as before, whatever happens to the allocation. */
    method Resize(capacity: int, tableOk: bool) returns (rc: int)
      requires Valid()
      modifies this`table, this`chains, this`nentries, this`resizeThreshold, table, all`next
      ensures Valid() && (table == old(table) || fresh(table)) && nentries == old(nentries)
      ensures table.Length >= old(table.Length)
      ensures rc != 0 <==> !tableOk && rc == 1 && old(table.Length) < capacity && old(table.Length) < MAX_TABLE_SIZE
      ensures rc != 0 ==> unchanged(this) && unchanged(table)
      ensures rc == 0 && capacity <= MAX_TABLE_SIZE ==> capacity <= table.Length
      ensures rc == 0 && capacity == 2 * old(table.Length) <= MAX_TABLE_SIZE ==> table.Length == capacity
      ensures table.Length == if tableOk then Greater(NormalSize(capacity), old(table.Length)) else old(table.Length)
      ensures rc == if !tableOk && NormalSize(capacity) > old(table.Length) then 1 else 0
      ensures table.Length == old(table.Length) ==> table == old(table)
    {
      hide ChainsOk, Holds, UniqueKeys, GoodCallbacks, IndexOf, IsPow2, IsNormalCapacity, Distinct;
      var cap := NormalCapacity(capacity);
      SizeIsPow2(table[..], chains, all);
      CapacityFacts(capacity, table.Length, cap);
      NormalSizeIs(capacity, cap);
      if cap <= table.Length {
        return 0;
      }
      if !tableOk {
        return 1;
      }
      var table' := new Entry?[cap](_ => null);
      var left, moved, chains' := Transfer(table, table', nentries, chains, all);
      assert Holds(all, contents, hashFn);
      table, chains, nentries := table', chains', moved;
      resizeThreshold := Threshold(cap, maxLoadFactor);
      return 0;
    }

    /** hashtbl_clear. */
    method Clear()
      requires Valid()
      modifies this`all, this`contents, this`chains, this`nentries, table, all`next
      ensures Valid() && contents == [] && nentries == 0
    {
      hide ChainsOk, UniqueKeys, GoodCallbacks, Threshold;
      SizeIsPow2(table[..], chains, all);
      ClearSlots();
      all, contents, chains := [], [], seq(table.Length, _ => []);
      EmptyIsValid(table[..], chains);
      EmptyIsUnique(equalsFn);
    }

    method ClearSlots()
      requires Distinct(all) && ChainsOk(table[..], chains, all) && nentries == |all|
      modifies this`nentries, table, all`next
      ensures nentries == 0 && forall b :: 0 <= b < table.Length ==> table[b] == null
    {
      hide ChainsOk, IsPow2, Without;
      ghost var cs, rest := chains, all;
      SizeIsPow2(table[..], cs, rest);
      for i := 0 to table.Length
        invariant Distinct(rest) && ChainsOk(table[..], cs, rest) && nentries == |rest|
        invariant |cs| == table.Length && forall b :: 0 <= b < i ==> cs[b] == []
        invariant forall e :: e in rest ==> e in all
      {
        SlotHead(table[..], cs, rest, i);
        while table[i] != null
          invariant Distinct(rest) && ChainsOk(table[..], cs, rest) && nentries == |rest|
          invariant |cs| == table.Length && forall b :: 0 <= b < i ==> cs[b] == []
          invariant forall e :: e in rest ==> e in all
          invariant table[i] == Link(cs[i], 0)
          decreases |rest|
        {
          var e := table[i];
          ghost var m := InRest(table[..], cs, rest, i);
          ChainUnlink(table, i, null, e, cs, rest, 0, m);
          assert rest[m] in all;
          e.next := null;
          nentries := nentries - 1;
          DropFacts(rest, m);
          cs, rest := cs[i := Without(cs[i], 0)], Without(rest, m);
          assert ChainsOk(table[..], cs, rest);
          SlotHead(table[..], cs, rest, i);
        }
      }
      NothingLeft(table[..], cs, rest);
    }
  }

  lemma SlotHead(t: seq<Entry?>, chains: seq<seq<Entry>>, all: seq<Entry>, i: nat)
    requires ChainsOk(t, chains, all) && i < |t|
    ensures |chains| == |t| && t[i] == Link(chains[i], 0)
  {}

  lemma InRest(t: seq<Entry?>, chains: seq<seq<Entry>>, all: seq<Entry>, i: nat) returns (m: nat)
    requires ChainsOk(t, chains, all) && i < |t| && t[i] != null
    ensures m < |all| && all[m] == t[i] && |chains| == |t| && chains[i] != [] && chains[i][0] == t[i]
  {
    assert chains[i][0] in all;
    m :| 0 <= m < |all| && all[m] == chains[i][0];
  }

  lemma DropFacts<T>(s: seq<T>, m: nat)
    requires m < |s| && Distinct(s)
    ensures |Without(s, m)| == |s| - 1 && Distinct(Without(s, m))
    ensures s[m] !in Without(s, m)
    ensures forall x :: x in s <==> x in Without(s, m) || x == s[m]
  {}

  lemma NothingLeft(t: seq<Entry?>, chains: seq<seq<Entry>>, all: seq<Entry>)
    requires ChainsOk(t, chains, all) && forall b :: 0 <= b < |t| ==> chains[b] == []
    ensures all == [] && forall b :: 0 <= b < |t| ==> t[b] == null
  {
    if all != [] {
      var b := Slot(all[0].hash, |t|);
      assert false;
    }
  }

  /** The transfer loop of hashtbl_resize: while a slot has a first entry, unlink it from the old
      table and link it into the new one; `left` and `moved` are the two nentries counters. */
  method Transfer(source: array<Entry?>, target: array<Entry?>, count: nat,
                  ghost chains: seq<seq<Entry>>, ghost all: seq<Entry>)
      returns (left: nat, moved: nat, ghost chains': seq<seq<Entry>>)
    requires source != target && Distinct(all) && ChainsOk(source[..], chains, all) && count == |all|
    requires IsPow2(target.Length) && forall b :: 0 <= b < target.Length ==> target[b] == null
    modifies source, target, all`next
    ensures left == 0 && moved == count && ChainsOk(target[..], chains', all)
  {
    hide ChainsOk, IsPow2, Without;
    ghost var cs, rest, done := chains, all, [];
    left, moved, chains' := count, 0, seq(target.Length, _ => []);
    SizeIsPow2(source[..], cs, rest);
    EmptyIsValid(target[..], chains');
    for i := 0 to source.Length
      invariant Distinct(rest) && ChainsOk(source[..], cs, rest) && left == |rest|
      invariant |cs| == source.Length && forall b :: 0 <= b < i ==> cs[b] == []
      invariant ChainsOk(target[..], chains', done) && moved == |done| && left + moved == count
      invariant Parts(all, rest, done)
    {
      SlotHead(source[..], cs, rest, i);
      while source[i] != null
        invariant Distinct(rest) && ChainsOk(source[..], cs, rest) && left == |rest|
        invariant |cs| == source.Length && forall b :: 0 <= b < i ==> cs[b] == []
        invariant ChainsOk(target[..], chains', done) && moved == |done| && left + moved == count
        invariant Parts(all, rest, done)
        decreases left
      {
        ghost var m := InRest(source[..], cs, rest, i);
        assert rest[m] in all;
        cs, chains' := MoveOne(source, target, i, cs, rest, chains', done, m);
        left, moved := left - 1, moved + 1;
        DropFacts(rest, m);
        PartsMoved(all, rest, done, m);
        rest, done := Without(rest, m), [rest[m]] + done;
        SlotHead(source[..], cs, rest, i);
      }
      SlotHead(source[..], cs, rest, i);
    }
    NothingLeft(source[..], cs, rest);
    ChainsPermuted(target[..], chains', done, all);
  }

  /** unlink_entry followed by link_entry. */
  method MoveOne(source: array<Entry?>, target: array<Entry?>, i: nat, ghost cs: seq<seq<Entry>>, ghost rest: seq<Entry>,
                 ghost ds: seq<seq<Entry>>, ghost done: seq<Entry>, ghost m: nat)
      returns (ghost cs': seq<seq<Entry>>, ghost ds': seq<seq<Entry>>)
    requires source != target && Distinct(rest) && ChainsOk(source[..], cs, rest) && ChainsOk(target[..], ds, done)
    requires forall e :: e in rest ==> e !in done
    requires i < source.Length && source[i] != null && m < |rest| && rest[m] == source[i]
    requires |cs| == source.Length && cs[i] != [] && cs[i][0] == source[i]
    modifies source, target, {source[i]}`next
    ensures cs' == cs[i := Without(cs[i], 0)] && ChainsOk(source[..], cs', Without(rest, m))
    ensures ChainsOk(target[..], ds', [rest[m]] + done)
  {
    hide ChainsOk, IsPow2;
    var e := source[i];
    ghost var rest' := Without(rest, m);
    DropFacts(rest, m);
    ChainUnlink(source, i, null, e, cs, rest, 0, m);
    cs' := cs[i := Without(cs[i], 0)];
    assert ChainsOk(target[..], ds, done);
    ghost var b := ChainPush(target, e, ds, done);
    ds' := ds[b := [e] + ds[b]];
    assert ChainsOk(source[..], cs', rest');
  }

  /** The entries still in the old table and those already moved make up all of them. */
  ghost predicate Parts(all: seq<Entry>, rest: seq<Entry>, done: seq<Entry>) {
    && (forall e :: e in all ==> e in rest || e in done)
    && (forall e :: e in rest ==> e in all && e !in done)
    && (forall e :: e in done ==> e in all)
  }

  lemma PartsMoved(all: seq<Entry>, rest: seq<Entry>, done: seq<Entry>, m: nat)
    requires Parts(all, rest, done) && m < |rest| && Distinct(rest)
    ensures Parts(all, Without(rest, m), [rest[m]] + done)
  {}

  // ---- iteration ----

  /** The key-value pairs of some entries. */
  ghost function PairsOf(es: seq<Entry>): (ps: Pairs)
    reads es
    ensures |ps| == |es| && forall i :: 0 <= i < |es| ==> ps[i] == (es[i].key, es[i].val)
  {
    seq(|es|, i requires 0 <= i < |es| reads es => (es[i].key, es[i].val))
  }

  lemma FlattenTake(chains: seq<seq<Entry>>, b: nat)
    requires b < |chains|
    ensures Flatten(chains[..b + 1]) == Flatten(chains[..b]) + chains[b]
  {
    assert chains[..b + 1][..b] == chains[..b];
  }

  /** A prefix of the slots gives a prefix of the visit order. */
  lemma {:induction false} FlattenPrefix(chains: seq<seq<Entry>>, b: nat)
    requires b <= |chains|
    ensures |Flatten(chains[..b])| <= |Flatten(chains)|
    ensures Flatten(chains[..b]) == Flatten(chains)[..|Flatten(chains[..b])|]
    decreases |chains| - b
  {
    if b == |chains| {
      assert chains[..b] == chains;
    } else {
      FlattenTake(chains, b);
      FlattenPrefix(chains, b + 1);
    }
  }

  lemma FlattenAt(chains: seq<seq<Entry>>, b: nat, j: nat)
    requires b < |chains| && j < |chains[b]|
    ensures |Flatten(chains[..b])| + j < |Flatten(chains)|
    ensures Flatten(chains)[|Flatten(chains[..b])| + j] == chains[b][j]
  {
    FlattenTake(chains, b);
    FlattenPrefix(chains, b + 1);
  }

  lemma FlattenEmpty(chains: seq<seq<Entry>>, a: nat, b: nat)
    requires a <= b <= |chains| && forall m :: a <= m < b ==> chains[m] == []
    ensures Flatten(chains[..b]) == Flatten(chains[..a])
    decreases b
  {
    if a < b {
      FlattenTake(chains, b - 1);
      FlattenEmpty(chains, a, b - 1);
    }
  }

  /** struct hashtbl_iter. */
  class Iter {
    var pos: nat
    var entry: Entry?
    var key: Ptr
    var val: Ptr
    ghost var j: nat    // index of `entry` in its chain

    /** hashtbl_iter_init. */
    constructor (h: Table)
      requires h.Valid()
      ensures At(h, 0) && key == val == NULL
    {
      pos, entry, key, val := 0, null, NULL, NULL;
      j := 0;
    }

    /** n entries were returned so far. */
    ghost predicate At(h: Table, n: nat)
      reads this, h
    {
      && pos <= |h.chains|
      && (entry != null ==> pos < |h.chains| && j < |h.chains[pos]| && entry == h.chains[pos][j])
      && n == |Flatten(h.chains[..pos])| + if entry != null then j + 1 else 0
    }

    /** hashtbl_iter_next: on down the chain, else on to the next slot that has one. */
    method Next(h: Table, ghost n: nat) returns (rc: int)
      requires h.Valid() && At(h, n)
      modifies this
      ensures rc == if n < |Flatten(h.chains)| then 1 else 0
      ensures rc == 1 ==> At(h, n + 1) && (key, val) == (Flatten(h.chains)[n].key, Flatten(h.chains)[n].val)
      ensures rc == 0 ==> At(h, n) && key == old(key) && val == old(val)
    {
      hide ChainsOk, UniqueKeys, GoodCallbacks, Threshold, Holds, Flatten, Distinct;
      SizeIsPow2(h.table[..], h.chains, h.all);
      FlattenPrefix(h.chains, pos);
      if entry != null {
        FlattenTake(h.chains, pos);
        SlotChain(h.table[..], h.chains, h.all, pos);
        entry := entry.next;
        if entry != null {
          j := j + 1;
          FlattenAt(h.chains, pos, j);
          key, val := entry.key, entry.val;
          return 1;
        }
        pos := pos + 1;
      }
      var i := pos;
      ghost var p := pos;
      while i < h.table.Length
        invariant p <= i <= h.table.Length && entry == null && p <= pos <= i
        invariant forall m :: p <= m < i ==> h.chains[m] == []
        invariant key == old(key) && val == old(val)
      {
        entry, pos := h.table[i], i;
        SlotChain(h.table[..], h.chains, h.all, i);
        if entry != null {
          FlattenEmpty(h.chains, p, i);
          FlattenAt(h.chains, i, 0);
          j := 0;
          key, val := entry.key, entry.val;
          return 1;
        }
        i := i + 1;
      }
      FlattenEmpty(h.chains, p, i);
      FlattenEmpty(h.chains, p, pos);
      assert h.chains[..i] == h.chains;
      return 0;
    }
  }

  lemma SlotChain(t: seq<Entry?>, chains: seq<seq<Entry>>, all: seq<Entry>, i: nat)
    requires ChainsOk(t, chains, all) && i < |t|
    ensures |chains| == |t| && ChainOk(t[i], chains[i])
  {}

  lemma PairsAre(es: seq<Entry>)
    ensures |PairsOf(es)| == |es| && forall i :: 0 <= i < |es| ==> PairsOf(es)[i] == (es[i].key, es[i].val)
  {}

  /** Iterating an unmodified table to the end visits the entries in the order of hashtbl_apply. */
  method Enumerate(h: Table) returns (out: Pairs)
    requires h.Valid()
    ensures out == PairsOf(Flatten(h.chains))
  {
    hide ChainsOk, UniqueKeys, GoodCallbacks, Threshold, Holds, Flatten, Distinct, PairsOf;
    out := [];
    ghost var es := Flatten(h.chains);
    ghost var ps := PairsOf(es);
    PairsAre(es);
    var it := new Iter(h);
    var rc := it.Next(h, 0);
    while rc == 1
      invariant h.Valid() && |out| <= |es| && es == Flatten(h.chains) && ps == PairsOf(es)
      invariant rc == if |out| < |es| then 1 else 0
      invariant rc == 1 ==> it.At(h, |out| + 1) && (it.key, it.val) == ps[|out|]
      invariant out == ps[..|out|]
      decreases |es| - |out|
    {
      out := out + [(it.key, it.val)];
      rc := it.Next(h, |out|);
    }
  }

  /** hashtbl_apply: call back on every entry until the callback answers zero. */
  method Apply(h: Table, callback: (Ptr, Ptr) -> bool) returns (n: nat)
    requires h.Valid()
    ensures n <= |Flatten(h.chains)|
    ensures forall i :: 0 <= i < n - 1 ==> callback(PairsOf(Flatten(h.chains))[i].0, PairsOf(Flatten(h.chains))[i].1)
    ensures n < |Flatten(h.chains)| ==>
      n > 0 && !callback(PairsOf(Flatten(h.chains))[n - 1].0, PairsOf(Flatten(h.chains))[n - 1].1)
  {
    hide ChainsOk, UniqueKeys, GoodCallbacks, Threshold, Holds, Flatten, Distinct, PairsOf;
    SizeIsPow2(h.table[..], h.chains, h.all);
    ghost var es := Flatten(h.chains);
    PairsAre(es);
    n := 0;
    FlattenPrefix(h.chains, 0);
    FlattenNil();
    assert h.chains[..0] == [];
    for i := 0 to h.table.Length
      invariant n == |Flatten(h.chains[..i])| <= |es|
      invariant forall m :: 0 <= m < n ==> callback(PairsOf(es)[m].0, PairsOf(es)[m].1)
    {
      var entry := h.table[i];
      ghost var j := 0;
      SlotChain(h.table[..], h.chains, h.all, i);
      FlattenTake(h.chains, i);
      FlattenPrefix(h.chains, i + 1);
      while entry != null
        invariant 0 <= j <= |h.chains[i]| && entry == Link(h.chains[i], j)
        invariant n == |Flatten(h.chains[..i])| + j <= |es|
        invariant forall m :: 0 <= m < n ==> callback(PairsOf(es)[m].0, PairsOf(es)[m].1)
        decreases |h.chains[i]| - j
      {
        FlattenAt(h.chains, i, j);
        n := n + 1;
        if !callback(entry.key, entry.val) {
          return;
        }
        entry := entry.next;
        j := j + 1;
      }
    }
    assert h.chains[..h.table.Length] == h.chains;
  }

  lemma FlattenNil()
    ensures Flatten([]) == []
  {}

  // ---- every entry exactly once ----

  lemma {:induction false} FlattenIn(chains: seq<seq<Entry>>, e: Entry)
    ensures e in Flatten(chains) <==> exists b :: 0 <= b < |chains| && e in chains[b]
  {
    if chains != [] {
      var n := |chains| - 1;
      FlattenIn(chains[..n], e);
      if e in Flatten(chains[..n]) {
        var b :| 0 <= b < n && e in chains[..n][b];
        assert e in chains[b];
      }
    }
  }

  lemma {:induction false} FlattenDistinct(chains: seq<seq<Entry>>)
    requires forall b :: 0 <= b < |chains| ==> Distinct(chains[b])
    requires forall b, c, e :: 0 <= b < c < |chains| && e in chains[b] ==> e !in chains[c]
    ensures Distinct(Flatten(chains))
  {
    if chains != [] {
      var n := |chains| - 1;
      var front := chains[..n];
      FlattenDistinct(front);
      forall e | e in chains[n] ensures e !in Flatten(front) {
        FlattenIn(front, e);
      }
      var f := Flatten(front);
      var r := Flatten(chains);
      forall i, j | 0 <= i < j < |r| ensures r[i] != r[j] {
        if i < |f| <= j {
          assert r[i] in f && r[j] in chains[n];
        }
      }
    }
  }

  /** Two duplicate-free sequences with the same elements have the same length. */
  lemma {:induction false} SameElements<T>(s: seq<T>, t: seq<T>)
    requires Distinct(s) && Distinct(t)
    requires forall x :: x in s <==> x in t
    ensures |s| == |t|
  {
    assert t != [] ==> t[0] in s;
    if s != [] {
      assert s[0] in s;
      var m :| 0 <= m < |t| && t[m] == s[0];
      DropFacts(t, m);
      DropFacts(s, 0);
      assert Without(s, 0) == s[1..];
      forall x ensures x in s[1..] <==> x in Without(t, m) {
        assert x in s <==> x in t;
      }
      SameElements(s[1..], Without(t, m));
    }
  }

  /** The visit order is a permutation of the table's entries: each one exactly once, nentries in all. */
  lemma VisitsEachOnce(h: Table)
    requires h.Valid()
    ensures Distinct(Flatten(h.chains)) && |Flatten(h.chains)| == h.nentries
    ensures forall e: Entry :: e in Flatten(h.chains) <==> e in h.all
  {
    hide GoodCallbacks, UniqueKeys, Holds, Threshold;
    forall e: Entry ensures e in Flatten(h.chains) <==> e in h.all {
      FlattenIn(h.chains, e);
    }
    FlattenDistinct(h.chains);
    SameElements(Flatten(h.chains), h.all);
  }

  /** hashtbl_create: NULL exactly when one of its two allocations fails. */
  method Create(capacity: int, loadFactor: real, auto: bool, hash: Ptr -> nat, equals: (Ptr, Ptr) -> bool,
                structOk: bool, tableOk: bool) returns (h: Table?)
    requires GoodCallbacks(equals, hash)
    ensures h != null <==> structOk && tableOk
    ensures h != null ==> h.Valid() && fresh(h.Repr()) && h.contents == []
    ensures h != null ==> IsNormalCapacity(capacity, h.table.Length) && h.table.Length == NormalSize(capacity)
    ensures h != null ==> h.maxLoadFactor == ClampLoadFactor(loadFactor)
    ensures h != null ==>
      h.maxLoadFactor == if loadFactor < 0.0 then 0.75 else if loadFactor > 1.0 then 1.0 else loadFactor
    ensures h != null ==> (h.maxLoadFactor == 0.75 <==> loadFactor < 0.0 || loadFactor == 0.75)
    ensures h != null && loadFactor == 0.0 ==> h.resizeThreshold == 0
    ensures h != null ==> Nearest(h.resizeThreshold, h.table.Length, h.maxLoadFactor)
    ensures h != null ==> h.hashFn == hash && h.equalsFn == equals && h.autoResize == auto
  {
    hide ClampLoadFactor, Threshold, NormalSize, IsNormalCapacity, Nearest, Reaches, IsPow2;
    if !structOk || !tableOk {
      return null;
    }
    var cap := NormalCapacity(capacity);
    NormalSizeIs(capacity, cap);
    NormalSizeOk(capacity);
    DefaultFactorIff(loadFactor);
    ThresholdRounds(cap, ClampLoadFactor(loadFactor));
    h := new Table(cap, loadFactor, auto, hash, equals);
  }
}
