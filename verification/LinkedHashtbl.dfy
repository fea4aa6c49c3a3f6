/** The linked hash table of c-hacks/src/linked-hashtbl.c on the heap: bucket chains and a
    circular doubly linked list threaded through the same entries. */
module LinkedHashtbl {
  import opened Sequences
  import opened Bits
  import opened RecencyList
  import opened Chains
  import opened Ring

  lemma ToFrontFacts(eq: (Ptr, Ptr) -> bool, hash: Ptr -> nat, all: seq<Entry>, contents: Pairs, i: nat)
    requires Holds(all, contents, hash) && UniqueKeys(eq, contents) && i < |all| && GoodCallbacks(eq, hash)
    ensures |ToFront(all, i)| == |all| && |ToFront(contents, i)| == |all|
    ensures Holds(ToFront(all, i), ToFront(contents, i), hash)
    ensures UniqueKeys(eq, ToFront(contents, i))
    ensures forall e :: e in all <==> e in ToFront(all, i)
  {
    WithoutIndex(all, i);
    WithoutIndex(contents, i);
    var r := ToFront(contents, i);
    forall x, y | 0 <= x < y < |r| ensures !eq(r[x].0, r[y].0) {
      if x == 0 && eq(r[0].0, r[y].0) {
        EqualKeys(eq, hash, r[0].0, r[y].0);
      }
    }
  }

  /** struct l_hashtbl. */
  class Table {
    const head: Entry                       // all_entries
    const hashFn: Ptr -> nat
    const equalsFn: (Ptr, Ptr) -> bool
    const accessOrder: bool
    const autoResize: bool
    const maxLoadFactor: real
    var nentries: nat
    var resizeThreshold: int
    var table: array<Entry?>                // table and table_size

    ghost var all: seq<Entry>               // the ring without its head
    ghost var chains: seq<seq<Entry>>       // the bucket chains
    ghost var contents: Pairs               // the abstract value

    ghost predicate Valid()
      reads this, table, head, all
    {
      && RingOk([head] + all)
      && ChainsOk(table[..], chains, all)
      && table.Length <= MAX_TABLE_SIZE
      && nentries == |all| == |contents|
      && Holds(all, contents, hashFn)
      && UniqueKeys(equalsFn, contents)
      && GoodCallbacks(equalsFn, hashFn)
      && 0.0 <= maxLoadFactor <= 1.0
      && resizeThreshold == Threshold(table.Length, maxLoadFactor)
    }

    ghost function Repr(): set<object>
      reads this
    {
      {this, head, table} + set e | e in all
    }

    /** The part of l_hashtbl_create after its allocations succeeded: an empty ring, and the
        first resize of a table without entries. */
    constructor (cap: nat, loadFactor: real, auto: bool, order: bool, hash: Ptr -> nat,
                 equals: (Ptr, Ptr) -> bool)
      requires IsPow2(cap) && 1 <= cap <= MAX_TABLE_SIZE && GoodCallbacks(equals, hash)
      ensures Valid() && fresh(Repr()) && contents == [] && table.Length == cap
      ensures hashFn == hash && equalsFn == equals
      ensures accessOrder == order && autoResize == auto
      ensures maxLoadFactor == ClampLoadFactor(loadFactor)
    {
      head := new Entry();
      hashFn, equalsFn := hash, equals;
      accessOrder, autoResize, maxLoadFactor := order, auto, ClampLoadFactor(loadFactor);
      nentries := 0;
      resizeThreshold := Threshold(cap, ClampLoadFactor(loadFactor));
      table := new Entry?[cap](_ => null);
      all, chains, contents := [], seq(cap, _ => []), [];
    }

    /** find_entry. */
    method FindEntry(hv: nat, k: Ptr) returns (e: Entry?, ghost i: int)
      requires Valid() && hv == hashFn(k)
      ensures i == IndexOf(equalsFn, contents, k)
      ensures i < 0 <==> e == null
      ensures i < |all| && (i >= 0 ==> e == all[i])
    {
      SlotBound(hv, table.Length);
      var b := Slot(hv, table.Length);
      var prev, e', j := ChainFind(table[b], hv, k, equalsFn, chains[b]);
      e := e';
      i := FoundIndex(table[..], chains, all, contents, hashFn, equalsFn, k, e, j);
    }

    /** l_hashtbl_lookup with record_access. */
    method Lookup(k: Ptr) returns (v: Ptr)
      requires Valid()
      modifies Repr()
      ensures Valid() && Repr() == old(Repr())
      ensures v == Get(equalsFn, old(contents), k)
      ensures contents == Touch(equalsFn, accessOrder, old(contents), k)
      ensures table == old(table) && nentries == old(nentries) && resizeThreshold == old(resizeThreshold)
      ensures !Holding(equalsFn, old(contents), k) ==> v == NULL && contents == old(contents)
      ensures forall i :: 0 <= i < |old(contents)| && equalsFn(old(contents)[i].0, k) ==>
        && v == old(contents)[i].1
        && contents == if accessOrder then [old(contents)[i]] + (old(contents)[..i] + old(contents)[i + 1..]) else old(contents)
    {
      hide ChainsOk, RingOk, UniqueKeys, GoodCallbacks, IndexOf, Holding, Touch;
      GetIs(equalsFn, hashFn, contents, k);
      TouchIs(equalsFn, hashFn, accessOrder, contents, k);
      TouchAt(equalsFn, accessOrder, contents, k);
      var hv := hashFn(k);
      var e, i := FindEntry(hv, k);
      if e != null {
        assert contents[i].1 == e.val;
        RecordAccess(e, i);
        return e.val;
      }
      return NULL;
    }

    method RecordAccess(e: Entry, ghost i: nat)
      requires Valid() && i < |all| && all[i] == e
      modifies this`all, this`contents, head`lnext, head`lprev, all`lnext, all`lprev
      ensures Valid() && Repr() == old(Repr())
      ensures contents == if accessOrder then ToFront(old(contents), i) else old(contents)
    {
      hide ChainsOk, RingOk, Holds, UniqueKeys, GoodCallbacks, Threshold;
      if accessOrder {
        ghost var all', contents' := ToFront(all, i), ToFront(contents, i);
        ToFrontFacts(equalsFn, hashFn, all, contents, i);
        ChainsPermuted(table[..], chains, all, all');
        MoveToFront(e, head, all, i);
        assert ChainsOk(table[..], chains, all');
        assert Holds(all', contents', hashFn);
        assert RingOk([head] + all');
        all, contents := all', contents';
      }
    }

    /** remove_key and l_hashtbl_remove: unlink from the chain and from the list. */
    method RemoveKey(k: Ptr) returns (rc: int)
      requires Valid()
      modifies Repr()
      ensures Valid() && Repr() <= old(Repr())
      ensures rc == if IndexOf(equalsFn, old(contents), k) >= 0 then 0 else 1
      ensures contents == Remove(equalsFn, old(contents), k)
      ensures table == old(table)
      ensures !Holding(equalsFn, old(contents), k) ==> rc == 1 && contents == old(contents)
      ensures forall i :: 0 <= i < |old(contents)| && equalsFn(old(contents)[i].0, k) ==>
        rc == 0 && contents == old(contents)[..i] + old(contents)[i + 1..]
    {
      hide ChainsOk, RingOk, Holds, UniqueKeys, GoodCallbacks, IndexOf, Holding, Remove;
      RemoveIs(equalsFn, hashFn, contents, k);
      AbsentIndex(equalsFn, contents, k);
      rc := TakeOut(k);
    }

    method TakeOut(k: Ptr) returns (rc: int)
      requires Valid()
      modifies Repr()
      ensures Valid() && Repr() <= old(Repr())
      ensures rc == if IndexOf(equalsFn, old(contents), k) >= 0 then 0 else 1
      ensures contents == Remove(equalsFn, old(contents), k)
      ensures table == old(table)
    {
      hide RingOk, UniqueKeys, GoodCallbacks, IndexOf;
      var hv := hashFn(k);
      SlotBound(hv, table.Length);
      var b := Slot(hv, table.Length);
      var prev, e, j := ChainFind(table[b], hv, k, equalsFn, chains[b]);
      ghost var i := FoundIndex(table[..], chains, all, contents, hashFn, equalsFn, k, e, j);
      if e == null {
        return 1;
      }
      Unlink(b, prev, e, j, i);
      return 0;
    }

    method Unlink(b: nat, prev: Entry?, e: Entry, ghost j: nat, ghost i: nat)
      requires Valid()
      requires b < |chains| && j < |chains[b]| && chains[b][j] == e && i < |all| && all[i] == e
      requires prev == if j == 0 then null else chains[b][j - 1]
      modifies this`all, this`contents, this`chains, this`nentries, table
      modifies head`lnext, head`lprev, all`lnext, all`lprev, all`next
      ensures Valid() && forall x :: x in all ==> x in old(all)
      ensures |old(contents)| == |old(all)| && contents == Without(old(contents), i)
    {
      hide ChainsOk, RingOk, Holds, UniqueKeys, GoodCallbacks, Threshold;
      WithoutFacts(equalsFn, hashFn, all, contents, i);
      UnlinkBoth(table, b, prev, e, head, chains, all, contents, hashFn, j, i);
      nentries := nentries - 1;
      all, contents, chains := Without(all, i), Without(contents, i), chains[b := Without(chains[b], j)];
    }

    /** The evictor's victim: the node before the head is the last pair. */
    method RemoveEldest()
      requires Valid() && contents != []
      modifies Repr()
      ensures Valid() && Repr() <= old(Repr()) && table == old(table)
      ensures contents == old(contents)[..|old(contents)| - 1]
    {
      hide ChainsOk, UniqueKeys, GoodCallbacks, IndexOf;
      ghost var n := |all|;
      assert ([head] + all)[n] == all[n - 1] && ([head] + all)[0] == head;
      var e := head.lprev;
      assert e == all[n - 1] && contents[n - 1].0 == e.key;
      LastIndex(equalsFn, hashFn, contents);
      var rc := RemoveKey(e.key);
    }

    /** Link a fresh entry at the head of its chain and at the front of the list. */
    method LinkNew(e: Entry)
      requires Valid() && e !in all && e != head
      requires e.hash == hashFn(e.key) && IndexOf(equalsFn, contents, e.key) < 0
      modifies this`all, this`contents, this`chains, this`nentries, table
      modifies head`lnext, head`lprev, all`lnext, all`lprev, e`lnext, e`lprev, e`next
      ensures Valid() && all == [e] + old(all) && contents == [(e.key, e.val)] + old(contents)
    {
      hide ChainsOk, RingOk, Holds, UniqueKeys, GoodCallbacks, IndexOf, Threshold;
      NewFacts(equalsFn, hashFn, all, contents, e);
      ghost var chains' := LinkBoth(table, e, head, chains, all, contents, hashFn);
      nentries := nentries + 1;
      all, contents, chains := [e] + all, [(e.key, e.val)] + contents, chains';
    }

    method ReplaceValue(e: Entry, v: Ptr, ghost i: nat)
      requires Valid() && i < |all| && all[i] == e
      modifies this`contents, e`val
      ensures Valid() && |old(contents)| == |all|
      ensures contents == old(contents)[i := (old(contents)[i].0, v)]
    {
      hide ChainsOk, GoodCallbacks, IndexOf;
      RingDistinct(head, all);
      e.val := v;
      contents := contents[i := (contents[i].0, v)];
    }

    /** l_hashtbl_resize: the capacity never shrinks, and a failed allocation changes nothing. */
    method Resize(capacity: int, tableOk: bool) returns (rc: int)
      requires Valid()
      modifies this`table, this`chains, this`resizeThreshold, all`next
      ensures Valid() && (table == old(table) || fresh(table))
      ensures table.Length >= old(table.Length)
      ensures rc != 0 <==> !tableOk && rc == 1 && old(table.Length) < capacity && old(table.Length) < MAX_TABLE_SIZE
      ensures rc != 0 ==> table == old(table)
      ensures rc == 0 && capacity <= MAX_TABLE_SIZE ==> capacity <= table.Length
      ensures rc == 0 && capacity == 2 * old(table.Length) <= MAX_TABLE_SIZE ==> table.Length == capacity
      ensures table.Length == if tableOk then Greater(NormalSize(capacity), old(table.Length)) else old(table.Length)
      ensures rc == if !tableOk && NormalSize(capacity) > old(table.Length) then 1 else 0
      ensures table.Length == old(table.Length) ==> table == old(table)
    {
      hide ChainsOk, RingOk, Holds, UniqueKeys, GoodCallbacks, IndexOf, IsPow2, IsNormalCapacity;
      var cap := NormalCapacity(capacity);
      SizeIsPow2(table[..], chains, all);
      CapacityFacts(capacity, table.Length, cap);
      NormalSizeIs(capacity, cap);
      if cap <= table.Length {
        return 0;
      }
      if !tableOk {
        return 1;
      }
      var table' := new Entry?[cap](_ => null);
      ghost var chains' := Rehash(table', head, all);
      assert Holds(all, contents, hashFn);
      table, chains := table', chains';
      resizeThreshold := Threshold(cap, maxLoadFactor);
      return 0;
    }

    /** l_hashtbl_insert. `entryOk` and `tableOk` say whether the two allocations succeed, and
        `evict` is the evictor's answer when it is asked. */
    method Insert(k: Ptr, v: Ptr, entryOk: bool, tableOk: bool, evict: bool) returns (rc: int)
      requires Valid()
      modifies Repr()
      ensures Valid() && fresh(Repr() - old(Repr()))
      ensures rc == if IndexOf(equalsFn, old(contents), k) < 0 && !entryOk then 1 else 0
      ensures contents == if rc == 1 then old(contents) else InsertEvict(equalsFn, old(contents), k, v, evict)
      ensures table.Length == if rc == 1 || IndexOf(equalsFn, old(contents), k) >= 0 then old(table.Length)
                              else AutoSize(autoResize, tableOk, |contents|, old(table.Length), maxLoadFactor)
      ensures !Holding(equalsFn, old(contents), k) ==> rc == if entryOk then 0 else 1
      ensures !Holding(equalsFn, old(contents), k) ==>
        contents == if !entryOk then old(contents) else if evict then ([(k, v)] + old(contents))[..|old(contents)|]
                    else [(k, v)] + old(contents)
      ensures forall i :: 0 <= i < |old(contents)| && equalsFn(old(contents)[i].0, k) ==>
        rc == 0 && contents == old(contents)[i := (old(contents)[i].0, v)] && table == old(table)
      ensures !autoResize || !tableOk || rc == 1 ==> table == old(table)
      ensures !Holding(equalsFn, old(contents), k) && rc == 0 && autoResize && tableOk && old(table.Length) < MAX_TABLE_SIZE ==>
        table.Length == if Reaches(|contents|, old(table.Length), maxLoadFactor) then 2 * old(table.Length) else old(table.Length)
    {
      hide Reaches, ChainsOk, RingOk, Holds, UniqueKeys, GoodCallbacks, IndexOf, Holding, InsertEvict, AutoSize, Threshold;
      InsertIs(equalsFn, hashFn, contents, k, v, evict);
      AbsentIndex(equalsFn, contents, k);
      rc := PutIn(k, v, entryOk, tableOk, evict);
      AutoSizeIs(autoResize, tableOk, |contents|, old(table.Length), maxLoadFactor);
    }

    method PutIn(k: Ptr, v: Ptr, entryOk: bool, tableOk: bool, evict: bool) returns (rc: int)
      requires Valid()
      modifies Repr()
      ensures Valid() && fresh(Repr() - old(Repr()))
      ensures rc == if IndexOf(equalsFn, old(contents), k) < 0 && !entryOk then 1 else 0
      ensures contents == if rc == 1 then old(contents) else InsertEvict(equalsFn, old(contents), k, v, evict)
      ensures table.Length == if rc == 1 || IndexOf(equalsFn, old(contents), k) >= 0 then old(table.Length)
                              else AutoSize(autoResize, tableOk, |contents|, old(table.Length), maxLoadFactor)
      ensures table.Length == old(table.Length) ==> table == old(table)
    {
      hide ChainsOk, RingOk, Holds, UniqueKeys, GoodCallbacks, IndexOf;
      var e, i := FindEntry(hashFn(k), k);
      if e != null {
        assert e in all;
        ReplaceValue(e, v, i);
        return 0;
      }
      if !entryOk {
        return 1;
      }
      InsertNew(k, v, tableOk, evict);
      return 0;
    }

    method InsertNew(k: Ptr, v: Ptr, tableOk: bool, evict: bool)
      requires Valid() && IndexOf(equalsFn, contents, k) < 0
      modifies Repr()
      ensures Valid() && fresh(Repr() - old(Repr()))
      ensures contents == InsertEvict(equalsFn, old(contents), k, v, evict)
      ensures table.Length == AutoSize(autoResize, tableOk, |contents|, old(table.Length), maxLoadFactor)
      ensures table.Length == old(table.Length) ==> table == old(table)
    {
      hide ChainsOk, RingOk, Holds, UniqueKeys, GoodCallbacks, IndexOf, Threshold;
      LinkEvict(k, v, evict);
      GrowIfFull(tableOk);
    }

    method LinkEvict(k: Ptr, v: Ptr, evict: bool)
      requires Valid() && IndexOf(equalsFn, contents, k) < 0
      modifies Repr()
      ensures Valid() && fresh(Repr() - old(Repr())) && table == old(table)
      ensures contents == InsertEvict(equalsFn, old(contents), k, v, evict)
    {
      hide ChainsOk, RingOk, Holds, UniqueKeys, GoodCallbacks, IndexOf, Threshold;
      var n := new Entry();
      n.key, n.val, n.hash := k, v, hashFn(k);
      LinkNew(n);
      if evict {
        RemoveEldest();
      }
    }

    /** The automatic resize at the end of l_hashtbl_insert; its failure is ignored. */
    method GrowIfFull(tableOk: bool)
      requires Valid()
      modifies this`table, this`chains, this`resizeThreshold, all`next
      ensures Valid() && (table == old(table) || fresh(table))
      ensures table.Length == AutoSize(autoResize, tableOk, nentries, old(table.Length), maxLoadFactor)
      ensures table.Length == old(table.Length) ==> table == old(table)
    {
      hide ChainsOk, RingOk, Holds, UniqueKeys, GoodCallbacks, Threshold;
      SizeIsPow2(table[..], chains, all);
      DoubleFits(table.Length);
      if autoResize && nentries >= resizeThreshold {
        var rc := Resize(2 * table.Length, tableOk);
      }
    }

    /** l_hashtbl_clear: walk the list, taking every node out, then wipe the slots. */
    method Clear()
      requires Valid()
      modifies Repr()
      ensures Valid() && Repr() <= old(Repr())
      ensures contents == [] && nentries == 0 && table == old(table)
    {
      hide ChainsOk, UniqueKeys, GoodCallbacks, Threshold;
      SizeIsPow2(table[..], chains, all);
      nentries := TakeAll(head, all, nentries);
      WipeSlots(table);
      head.lnext, head.lprev := head, head;
      all, contents, chains := [], [], seq(table.Length, _ => []);
      EmptyIsValid(table[..], chains);
      assert UniqueKeys(equalsFn, contents) by { EmptyIsUnique(equalsFn); }
    }
  }

  /** The pointer writes that take an entry out of its chain and out of the ring. */
  method UnlinkBoth(table: array<Entry?>, b: nat, prev: Entry?, e: Entry, ghost head: Entry,
                    ghost chains: seq<seq<Entry>>, ghost all: seq<Entry>, ghost contents: Pairs, ghost hash: Ptr -> nat,
                    ghost j: nat, ghost i: nat)
    requires ChainsOk(table[..], chains, all) && RingOk([head] + all)
    requires b < |chains| && j < |chains[b]| && chains[b][j] == e && i < |all| && all[i] == e
    requires prev == if j == 0 then null else chains[b][j - 1]
    requires |contents| == |all| && Holds(Without(all, i), Without(contents, i), hash)
    modifies table, head`lnext, head`lprev, all`lnext, all`lprev, all`next
    ensures ChainsOk(table[..], chains[b := Without(chains[b], j)], Without(all, i))
    ensures RingOk([head] + Without(all, i)) && Holds(Without(all, i), Without(contents, i), hash)
  {
    hide ChainsOk, RingOk, Holds;
    RingDistinct(head, all);
    if j > 0 {
      ChainInAll(table[..], chains, all, b, j - 1);
    }
    ChainUnlink(table, b, prev, e, chains, all, j, i);
    ListTake(e, head, all, i);
  }

  /** The pointer writes that put an entry at the front of its chain and of the ring. */
  method LinkBoth(table: array<Entry?>, e: Entry, head: Entry, ghost chains: seq<seq<Entry>>, ghost all: seq<Entry>,
                  ghost contents: Pairs, ghost hash: Ptr -> nat) returns (ghost chains': seq<seq<Entry>>)
    requires ChainsOk(table[..], chains, all) && RingOk([head] + all) && e !in all && e != head
    requires Holds([e] + all, [(e.key, e.val)] + contents, hash)
    modifies table, head`lnext, head`lprev, all`lnext, all`lprev, e`lnext, e`lprev, e`next
    ensures ChainsOk(table[..], chains', [e] + all) && RingOk([head] + ([e] + all))
    ensures Holds([e] + all, [(e.key, e.val)] + contents, hash)
  {
    hide ChainsOk, RingOk, Holds;
    ghost var b := ChainPush(table, e, chains, all);
    chains' := chains[b := [e] + chains[b]];
    ListPut(e, head, all);
  }

  /** The loop of l_hashtbl_clear: it reads the successor before the node is freed, and counts
      the entries down. */
  method TakeAll(head: Entry, ghost all: seq<Entry>, count: nat) returns (left: nat)
    requires RingOk([head] + all) && count == |all|
    modifies head`lnext, head`lprev, all`lnext, all`lprev
    ensures left == 0
  {
    hide RingOk;
    ghost var rest := all;
    var node := head.lnext;
    var tmp := node.lnext;
    left := count;
    FirstOfRing(head, rest);
    while node != head
      invariant left == |rest| <= |all| && rest == all[|all| - left..] && RingOk([head] + rest)
      invariant node == (if rest == [] then head else rest[0]) && tmp == node.lnext
      decreases left
    {
      FirstOfRing(head, rest);
      ListTake(node, head, rest, 0);
      assert Without(rest, 0) == rest[1..];
      left := left - 1;
      rest := rest[1..];
      FirstOfRing(head, rest);
      node := tmp;
      tmp := node.lnext;
    }
    FirstOfRing(head, rest);
  }

  /** The head is not an entry, and the links lead from it to the first and then to the second one. */
  lemma FirstOfRing(head: Entry, all: seq<Entry>)
    requires RingOk([head] + all)
    ensures head.lnext == if all == [] then head else all[0]
    ensures all != [] ==> all[0] != head && all[0].lnext == if |all| == 1 then head else all[1]
  {
    var ring := [head] + all;
    NextInRing(ring, 0);
    if all != [] {
      assert ring[1] == all[0];
      NextInRing(ring, 1);
      assert ring[0] != ring[1];
    }
  }

  /** l_hashtbl_create: NULL exactly when one of its two allocations fails. */
  method Create(capacity: int, loadFactor: real, auto: bool, order: bool, hash: Ptr -> nat,
                equals: (Ptr, Ptr) -> bool, structOk: bool, tableOk: bool) returns (h: Table?)
    requires GoodCallbacks(equals, hash)
    ensures h != null <==> structOk && tableOk
    ensures h != null ==> h.Valid() && fresh(h.Repr()) && h.contents == []
    ensures h != null ==> IsNormalCapacity(capacity, h.table.Length) && h.table.Length == NormalSize(capacity)
    ensures h != null ==> h.maxLoadFactor == ClampLoadFactor(loadFactor)
    ensures h != null ==>
      h.maxLoadFactor == if loadFactor < 0.0 then 0.75 else if loadFactor > 1.0 then 1.0 else loadFactor
    ensures h != null ==> (h.maxLoadFactor == 0.75 <==> loadFactor < 0.0 || loadFactor == 0.75)
    ensures h != null && loadFactor == 0.0 ==> h.resizeThreshold == 0
    ensures h != null ==> Nearest(h.resizeThreshold, h.table.Length, h.maxLoadFactor)
    ensures h != null ==> h.hashFn == hash && h.equalsFn == equals && h.accessOrder == order && h.autoResize == auto
  {
    hide ClampLoadFactor, Threshold, NormalSize, IsNormalCapacity, Nearest, Reaches, IsPow2;
    if !structOk || !tableOk {
      return null;
    }
    var cap := NormalCapacity(capacity);
    NormalSizeIs(capacity, cap);
    NormalSizeOk(capacity);
    DefaultFactorIff(loadFactor);
    ThresholdRounds(cap, ClampLoadFactor(loadFactor));
    h := new Table(cap, loadFactor, auto, order, hash, equals);
  }

  /** struct l_hashtbl_iter: `pos` runs over the ring until it is back at the head. */
  class Iter {
    const forward: bool
    const end: Entry
    var pos: Entry
    var key: Ptr
    var val: Ptr

    /** l_hashtbl_iter_init. */
    constructor (h: Table, direction: int)
      requires h.Valid()
      ensures forward == (direction >= 1) && end == h.head && key == val == NULL
      ensures At(h, 0)
    {
      hide ChainsOk, UniqueKeys, GoodCallbacks, Threshold, Holds;
      forward, end := direction >= 1, h.head;
      pos := if direction >= 1 then h.head.lnext else h.head.lprev;
      key, val := NULL, NULL;
      new;
      assert ([h.head] + h.all)[0] == h.head;
    }

    /** n pairs were returned so far. */
    ghost predicate At(h: Table, n: nat)
      reads this, h
    {
      && end == h.head && n <= |h.all|
      && pos == if n == |h.all| then h.head else if forward then h.all[n] else h.all[|h.all| - 1 - n]
    }

    /** l_hashtbl_iter_next. */
    method Next(h: Table, ghost n: nat) returns (rc: int)
      requires h.Valid() && At(h, n)
      modifies this
      ensures rc == if n < |h.contents| then 1 else 0
      ensures rc == 1 ==> At(h, n + 1)
      ensures rc == 1 ==> (key, val) == h.contents[if forward then n else |h.contents| - 1 - n]
      ensures rc == 0 ==> At(h, n) && key == old(key) && val == old(val)
    {
      hide ChainsOk, UniqueKeys, GoodCallbacks, Threshold;
      ghost var ring := [h.head] + h.all;
      if pos == end {
        assert n == |h.all| by { RingDistinctAt(h.head, h.all); }
        return 0;
      }
      var node := pos;
      ghost var i := if forward then n else |h.all| - 1 - n;
      assert node == h.all[i] == ring[i + 1];
      if forward {
        pos := node.lnext;
      } else {
        pos := node.lprev;
      }
      key, val := node.key, node.val;
      return 1;
    }
  }

  function Reversed(s: Pairs): Pairs {
    if s == [] then [] else Reversed(s[1..]) + [s[0]]
  }

  lemma {:induction false} ReversedAt(s: Pairs)
    ensures |Reversed(s)| == |s|
    ensures forall i :: 0 <= i < |s| ==> Reversed(s)[i] == s[|s| - 1 - i]
  {
    if s != [] {
      ReversedAt(s[1..]);
    }
  }

  /** Iterating an unmodified table to the end gives every pair exactly once, newest first or oldest first. */
  method Enumerate(h: Table, direction: int) returns (out: Pairs)
    requires h.Valid()
    ensures out == if direction >= 1 then h.contents else Reversed(h.contents)
  {
    hide ChainsOk, RingOk, UniqueKeys, GoodCallbacks, Threshold, Holds;
    out := [];
    var it := new Iter(h, direction);
    var rc := it.Next(h, 0);
    while rc == 1
      invariant h.Valid() && |out| <= |h.contents|
      invariant rc == if |out| < |h.contents| then 1 else 0
      invariant it.forward == (direction >= 1)
      invariant rc == 1 ==> it.At(h, |out| + 1)
      invariant rc == 1 ==> (it.key, it.val) == h.contents[if it.forward then |out| else |h.contents| - 1 - |out|]
      invariant forall i :: 0 <= i < |out| ==> out[i] == h.contents[if it.forward then i else |h.contents| - 1 - i]
      decreases |h.contents| - |out|
    {
      out := out + [(it.key, it.val)];
      rc := it.Next(h, |out|);
    }
    ReversedAt(h.contents);
  }

  lemma NextInRing(ring: seq<Entry>, i: nat)
    requires RingOk(ring) && i < |ring|
    ensures ring[i].lnext == ring[Succ(i, |ring|)]
  {}

  ghost method NoChains(t: seq<Entry?>) returns (chains: seq<seq<Entry>>)
    requires IsPow2(|t|) && forall b :: 0 <= b < |t| ==> t[b] == null
    ensures ChainsOk(t, chains, [])
  {
    chains := seq(|t|, _ => []);
  }

  /** The transfer loop of l_hashtbl_resize: every entry of the list is pushed onto its new chain. */
  method Rehash(table: array<Entry?>, head: Entry, ghost all: seq<Entry>) returns (ghost chains: seq<seq<Entry>>)
    requires RingOk([head] + all) && IsPow2(table.Length)
    requires forall b :: 0 <= b < table.Length ==> table[b] == null
    modifies table, all`next
    ensures ChainsOk(table[..], chains, all)
  {
    hide RingOk, ChainsOk, IsPow2;
    ghost var ring := [head] + all;
    ghost var m := 0;
    ghost var done: seq<Entry> := [];
    NextInRing(ring, 0);
    var node := head.lnext;
    chains := NoChains(table[..]);
    while node != head
      invariant 0 <= m <= |all| && RingOk(ring)
      invariant node == ring[Succ(m, |ring|)]
      invariant ChainsOk(table[..], chains, done)
      invariant forall e :: e in done <==> e in all[..m]
      decreases |all| - m
    {
      ghost var e := node;
      assert ring[m + 1] == all[m] == e;
      NotInPrefix(head, all, m);
      NextInRing(ring, m + 1);
      ghost var b := ChainPush(table, node, chains, done);
      chains, done := chains[b := [e] + chains[b]], [e] + done;
      assert all[..m + 1] == all[..m] + [e];
      node := node.lnext;
      m := m + 1;
    }
    assert m == |all| by { RingEnd(ring, m); }
    assert all[..m] == all;
    ChainsPermuted(table[..], chains, done, all);
  }

  lemma LastIndex(eq: (Ptr, Ptr) -> bool, hash: Ptr -> nat, contents: Pairs)
    requires UniqueKeys(eq, contents) && GoodCallbacks(eq, hash) && contents != []
    ensures IndexOf(eq, contents, contents[|contents| - 1].0) == |contents| - 1
    ensures Without(contents, |contents| - 1) == contents[..|contents| - 1]
  {
    var k := contents[|contents| - 1].0;
    assert Same(eq, k, k);
  }
}
