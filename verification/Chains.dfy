/** Bucket chains on the heap: the part that c-hacks/src/hashtbl.c and
    c-hacks/src/linked-hashtbl.c have in common. */
module Chains {
  import opened Sequences
  import opened Bits
  import opened RecencyList

  /** struct hashtbl_entry and struct l_hashtbl_entry. Only the linked table uses the two list
      links, and its own list head is one more node of this kind. */
  class Entry {
    var lnext: Entry   // list.next
    var lprev: Entry   // list.prev
    var next: Entry?   // per-slot chain
    var key: Ptr
    var val: Ptr
    var hash: nat

    /** list_init: a node alone is a ring of one. */
    constructor ()
      ensures lnext == this && lprev == this && next == null
    {
      lnext, lprev, next := this, this, null;
    }
  }

  function Link(c: seq<Entry>, j: nat): Entry? { if j < |c| then c[j] else null }

  /** The null-terminated chain from `first` visits exactly `c`. */
  ghost predicate ChainOk(first: Entry?, c: seq<Entry>)
    reads c`next
  {
    && Distinct(c)
    && first == Link(c, 0)
    && forall j {:trigger c[j].next} :: 0 <= j < |c| ==> c[j].next == Link(c, j + 1)
  }

  function Slot(hv: nat, size: nat): nat
    requires size >= 1
  {
    BitAnd(hv, size - 1)
  }

  /** Bucket b holds exactly the entries of `all` whose hash selects b, chained in the order chains[b]. */
  ghost predicate ChainsOk(t: seq<Entry?>, chains: seq<seq<Entry>>, all: seq<Entry>)
    reads all`next, all`hash
  {
    && |t| == |chains| && IsPow2(|t|)
    && (forall b, j :: 0 <= b < |chains| && 0 <= j < |chains[b]| ==> chains[b][j] in all)
    && (forall b :: 0 <= b < |t| ==> ChainOk(t[b], chains[b]))
    && (forall b, j :: 0 <= b < |chains| && 0 <= j < |chains[b]| ==> Slot(chains[b][j].hash, |t|) == b)
    && (forall i :: 0 <= i < |all| ==>
          var b := Slot(all[i].hash, |t|); b < |chains| && all[i] in chains[b])
  }

  lemma SizeIsPow2(t: seq<Entry?>, chains: seq<seq<Entry>>, all: seq<Entry>)
    requires ChainsOk(t, chains, all)
    ensures IsPow2(|t|) && |t| >= 1 && |chains| == |t|
  {}

  lemma ChainInAll(t: seq<Entry?>, chains: seq<seq<Entry>>, all: seq<Entry>, b: nat, j: nat)
    requires ChainsOk(t, chains, all) && b < |chains| && j < |chains[b]|
    ensures chains[b][j] in all
  {}

  lemma EmptyIsValid(t: seq<Entry?>, chains: seq<seq<Entry>>)
    requires IsPow2(|t|) && |t| == |chains|
    requires forall b :: 0 <= b < |t| ==> t[b] == null && chains[b] == []
    ensures ChainsOk(t, chains, [])
  {}

  lemma ChainsPermuted(t: seq<Entry?>, chains: seq<seq<Entry>>, all: seq<Entry>, all': seq<Entry>)
    requires ChainsOk(t, chains, all)
    requires forall e :: e in all <==> e in all'
    ensures ChainsOk(t, chains, all')
  {
    forall i | 0 <= i < |all'| ensures var b := Slot(all'[i].hash, |t|); b < |chains| && all'[i] in chains[b] {
      assert all'[i] in all;
    }
  }

  /** Put a new entry at the head of its slot's chain. */
  method ChainPush(table: array<Entry?>, e: Entry, ghost chains: seq<seq<Entry>>, ghost all: seq<Entry>)
      returns (ghost b: nat)
    requires ChainsOk(table[..], chains, all) && e !in all
    modifies table, e`next
    ensures b == Slot(e.hash, table.Length) < |chains|
    ensures ChainsOk(table[..], chains[b := [e] + chains[b]], [e] + all)
  {
    SlotBound(e.hash, table.Length);
    var s := Slot(e.hash, table.Length);
    b := s;
    e.next := table[s];
    table[s] := e;
    ChainPushed(e, chains[b]);
    assert forall m :: 0 <= m < |chains| && m != b ==> ChainOk(table[m], chains[m]);
    ChainsPushed(table[..], chains, all, e, b);
  }

  lemma ChainPushed(e: Entry, c: seq<Entry>)
    requires Distinct(c) && e !in c && e.next == Link(c, 0)
    requires forall j {:trigger c[j].next} :: 0 <= j < |c| ==> c[j].next == Link(c, j + 1)
    ensures ChainOk(e, [e] + c)
  {}

  lemma ChainsPushed(t: seq<Entry?>, chains: seq<seq<Entry>>, all: seq<Entry>, e: Entry, b: nat)
    requires |t| == |chains| && IsPow2(|t|) && b == Slot(e.hash, |t|) < |chains| && ChainOk(t[b], [e] + chains[b])
    requires forall b, j :: 0 <= b < |chains| && 0 <= j < |chains[b]| ==> chains[b][j] in all
    requires forall b, j :: 0 <= b < |chains| && 0 <= j < |chains[b]| ==> Slot(chains[b][j].hash, |t|) == b
    requires forall i :: 0 <= i < |all| ==>
          var b := Slot(all[i].hash, |t|); b < |chains| && all[i] in chains[b]
    requires forall m :: 0 <= m < |chains| && m != b ==> ChainOk(t[m], chains[m])
    ensures ChainsOk(t, chains[b := [e] + chains[b]], [e] + all)
  {}

  /** Advance the predecessor's link (or the slot itself) over the j-th entry of chain b. */
  method ChainUnlink(table: array<Entry?>, b: nat, prev: Entry?, e: Entry,
                     ghost chains: seq<seq<Entry>>, ghost all: seq<Entry>, ghost j: nat, ghost i: nat)
    requires ChainsOk(table[..], chains, all) && Distinct(all)
    requires b < |chains| && j < |chains[b]| && chains[b][j] == e && i < |all| && all[i] == e
    requires prev == if j == 0 then null else chains[b][j - 1]
    modifies table, {prev}`next
    ensures ChainsOk(table[..], chains[b := Without(chains[b], j)], Without(all, i))
  {
    if prev == null {
      table[b] := e.next;
    } else {
      prev.next := e.next;
    }
    ChainClosed(table[b], chains[b], j);
    assert forall m :: 0 <= m < |chains| && m != b ==> ChainOk(table[m], chains[m]);
    ChainsClosed(table[..], chains, all, b, j, i);
  }

  lemma ChainClosed(first: Entry?, c: seq<Entry>, j: nat)
    requires Distinct(c) && j < |c| && first == Link(c, if j > 0 then 0 else 1)
    requires forall m {:trigger c[m].next} :: 0 <= m < |c| ==> c[m].next == Link(c, if m == j - 1 then j + 1 else m + 1)
    ensures ChainOk(first, Without(c, j))
  {}

  lemma ChainsClosed(t: seq<Entry?>, chains: seq<seq<Entry>>, all: seq<Entry>, b: nat, j: nat, i: nat)
    requires |t| == |chains| && IsPow2(|t|) && Distinct(all)
    requires forall b, j :: 0 <= b < |chains| && 0 <= j < |chains[b]| ==> chains[b][j] in all
    requires forall b, j :: 0 <= b < |chains| && 0 <= j < |chains[b]| ==> Slot(chains[b][j].hash, |t|) == b
    requires forall i :: 0 <= i < |all| ==>
          var b := Slot(all[i].hash, |t|); b < |chains| && all[i] in chains[b]
    requires b < |chains| && j < |chains[b]| && i < |all| && chains[b][j] == all[i] && Distinct(chains[b])
    requires forall m :: 0 <= m < |chains| && m != b ==> ChainOk(t[m], chains[m])
    requires ChainOk(t[b], Without(chains[b], j))
    ensures ChainsOk(t, chains[b := Without(chains[b], j)], Without(all, i))
  {
    hide ChainOk, Slot, IsPow2;
    var e, c := all[i], chains[b];
    var c': seq<Entry>, all': seq<Entry> := Without(c, j), Without(all, i);
    WithoutIn(all, i);
    WithoutIn(c, j);
    var chains': seq<seq<Entry>> := chains[b := c'];
    forall x, y | 0 <= x < |chains'| && 0 <= y < |chains'[x]|
        ensures chains'[x][y] in all' && Slot(chains'[x][y].hash, |t|) == x {
      if x == b {
        assert chains'[x][y] in c' && chains'[x][y] in c;
      } else {
        assert chains[x][y] != e;
      }
    }
    forall k | 0 <= k < |all'| ensures var x := Slot(all'[k].hash, |t|); x < |chains'| && all'[k] in chains'[x] {
      assert all'[k] in all' && all'[k] in all;
    }
  }

  /** The chain walk of find_entry and remove_key: hashes are compared before keys. */
  method ChainFind(first: Entry?, hv: nat, k: Ptr, eq: (Ptr, Ptr) -> bool, ghost c: seq<Entry>)
      returns (prev: Entry?, e: Entry?, ghost j: nat)
    requires ChainOk(first, c)
    ensures j <= |c| && e == Link(c, j)
    ensures prev == if j == 0 then null else c[j - 1]
    ensures e != null ==> e.hash == hv && eq(e.key, k)
    ensures forall m :: 0 <= m < j ==> !(c[m].hash == hv && eq(c[m].key, k))
  {
    prev, e, j := null, first, 0;
    while e != null && !(e.hash == hv && eq(e.key, k))
      invariant 0 <= j <= |c| && e == Link(c, j)
      invariant prev == if j == 0 then null else c[j - 1]
      invariant forall m :: 0 <= m < j ==> !(c[m].hash == hv && eq(c[m].key, k))
      decreases |c| - j
    {
      prev, e := e, e.next;
      j := j + 1;
    }
  }

  method WipeSlots(table: array<Entry?>)
    modifies table
    ensures forall b :: 0 <= b < table.Length ==> table[b] == null
  {
    for b := 0 to table.Length
      invariant forall c :: 0 <= c < b ==> table[c] == null
    {
      table[b] := null;
    }
  }

  /** Entry i of `all` carries pair i of `contents` and the hash of its key. */
  ghost predicate Holds(all: seq<Entry>, contents: Pairs, hash: Ptr -> nat)
    reads all`key, all`val, all`hash
  {
    && |all| == |contents|
    && forall i :: 0 <= i < |all| ==> contents[i] == (all[i].key, all[i].val) && all[i].hash == hash(all[i].key)
  }

  lemma WithoutFacts(eq: (Ptr, Ptr) -> bool, hash: Ptr -> nat, all: seq<Entry>, contents: Pairs, i: nat)
    requires Holds(all, contents, hash) && UniqueKeys(eq, contents) && i < |all|
    ensures Holds(Without(all, i), Without(contents, i), hash)
    ensures UniqueKeys(eq, Without(contents, i))
    ensures |Without(all, i)| == |all| - 1 && forall x :: x in Without(all, i) ==> x in all
  {}

  lemma NewFacts(eq: (Ptr, Ptr) -> bool, hash: Ptr -> nat, all: seq<Entry>, contents: Pairs, e: Entry)
    requires Holds(all, contents, hash) && UniqueKeys(eq, contents) && GoodCallbacks(eq, hash)
    requires e.hash == hash(e.key) && IndexOf(eq, contents, e.key) < 0
    ensures Holds([e] + all, [(e.key, e.val)] + contents, hash)
    ensures UniqueKeys(eq, [(e.key, e.val)] + contents)
  {
    var r := [(e.key, e.val)] + contents;
    forall y | 0 < y < |r| ensures !eq(r[0].0, r[y].0) {
      if eq(r[0].0, r[y].0) {
        EqualKeys(eq, hash, r[0].0, r[y].0);
        assert false;
      }
    }
  }

  lemma EmptyIsUnique(eq: (Ptr, Ptr) -> bool)
    ensures UniqueKeys(eq, [])
  {}

  /** Negative load factors mean 0.75 and factors above one mean one; zero is kept as it is. */
  function ClampLoadFactor(f: real): (r: real)
    ensures 0.0 <= r <= 1.0
  {
    if f < 0.0 then 0.75 else if f > 1.0 then 1.0 else f
  }

  /** When the default of 0.75 is in force, and when the caller's load factor is: 0.0 does not ask for the
      default, whatever the headers say. */
  lemma DefaultFactorIff(f: real)
    ensures ClampLoadFactor(f) == 0.75 <==> f < 0.0 || f == 0.75
    ensures ClampLoadFactor(f) == if f < 0.0 then 0.75 else if f > 1.0 then 1.0 else f
    ensures forall capacity: nat :: Threshold(capacity, ClampLoadFactor(0.0)) == 0
  {
    forall capacity: nat ensures Threshold(capacity, ClampLoadFactor(0.0)) == 0 {
      ZeroFactor(capacity);
    }
  }

  function Greater(a: nat, b: nat): nat { if a > b then a else b }

  /** The size after the automatic resize that both inserts do when `count` has reached the threshold. */
  function AutoSize(auto: bool, ok: bool, count: nat, size: nat, loadFactor: real): nat {
    if auto && ok && size < MAX_TABLE_SIZE && count >= Threshold(size, loadFactor) then 2 * size else size
  }

  /** The automatic resize in plain words: off, or without memory, it does nothing; else a table that can
      grow doubles exactly when the count is at least size times load factor, rounded to nearest. */
  lemma AutoSizeIs(auto: bool, ok: bool, count: nat, size: nat, f: real)
    ensures !auto || !ok || size >= MAX_TABLE_SIZE ==> AutoSize(auto, ok, count, size, f) == size
    ensures auto && ok && size < MAX_TABLE_SIZE ==>
      AutoSize(auto, ok, count, size, f) == if Reaches(count, size, f) then 2 * size else size
  {
    ThresholdRounds(size, f);
  }

  /** What a chain walk found is what the abstract list holds. */
  lemma FoundIndex(t: seq<Entry?>, chains: seq<seq<Entry>>, all: seq<Entry>, contents: Pairs,
                   hash: Ptr -> nat, eq: (Ptr, Ptr) -> bool, k: Ptr, e: Entry?, j: nat) returns (i: int)
    requires ChainsOk(t, chains, all) && Holds(all, contents, hash)
    requires UniqueKeys(eq, contents) && GoodCallbacks(eq, hash)
    requires |t| >= 1 && Slot(hash(k), |t|) < |chains|
    requires j <= |chains[Slot(hash(k), |t|)]| && e == Link(chains[Slot(hash(k), |t|)], j)
    requires e != null ==> eq(e.key, k)
    requires forall m :: 0 <= m < j ==>
      var x := chains[Slot(hash(k), |t|)][m]; !(x.hash == hash(k) && eq(x.key, k))
    ensures i == IndexOf(eq, contents, k)
    ensures i < 0 <==> e == null
    ensures i < |all| && (i >= 0 ==> e == all[i])
  {
    var c := chains[Slot(hash(k), |t|)];
    i := IndexOf(eq, contents, k);
    if e != null {
      assert c[j] in all;
      var m :| 0 <= m < |all| && all[m] == e;
      assert contents[m].0 == e.key;
      EqualToThird(eq, hash, contents[m].0, contents[i].0, k);
    } else if i >= 0 {
      EqualKeys(eq, hash, all[i].key, k);
      assert false;
    }
  }
}
