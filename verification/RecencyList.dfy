/** The abstract value of a linked hash table: a sequence of key-value pairs, newest first,
    and the four ways in which c-hacks/src/linked-hashtbl.c may change it. */
module RecencyList {
  import opened Sequences

  /** A `void *` of the C interface: an address, with 0 for NULL. */
  type Ptr = int
  const NULL: Ptr := 0

  type Pairs = seq<(Ptr, Ptr)>

  predicate Same(eq: (Ptr, Ptr) -> bool, a: Ptr, b: Ptr) { eq(a, b) }

  /** What the tables demand of their two callbacks: `equals_fn` is an equivalence and
      `hash_fn` gives equal keys equal hashes. */
  ghost predicate GoodCallbacks(eq: (Ptr, Ptr) -> bool, hash: Ptr -> nat) {
    && (forall a :: Same(eq, a, a))
    && (forall a, b :: Same(eq, a, b) ==> Same(eq, b, a))
    && (forall a, b, c :: Same(eq, a, b) && Same(eq, b, c) ==> Same(eq, a, c))
    && (forall a, b :: Same(eq, a, b) ==> hash(a) == hash(b))
  }

  lemma EqualKeys(eq: (Ptr, Ptr) -> bool, hash: Ptr -> nat, a: Ptr, b: Ptr)
    requires GoodCallbacks(eq, hash) && eq(a, b)
    ensures eq(b, a) && hash(a) == hash(b)
  {
    assert Same(eq, a, b);
    assert Same(eq, b, a);
  }

  /** Two keys equal to a third are equal to each other. */
  lemma EqualToThird(eq: (Ptr, Ptr) -> bool, hash: Ptr -> nat, a: Ptr, b: Ptr, k: Ptr)
    requires GoodCallbacks(eq, hash) && eq(a, k) && eq(b, k)
    ensures eq(a, b) && eq(b, a)
  {
    assert Same(eq, a, k) && Same(eq, b, k);
    assert Same(eq, k, b) && Same(eq, a, b) && Same(eq, b, a);
  }

  ghost predicate UniqueKeys(eq: (Ptr, Ptr) -> bool, s: Pairs) {
    forall i, j :: 0 <= i < j < |s| ==> !eq(s[i].0, s[j].0)
  }

  function IndexOf(eq: (Ptr, Ptr) -> bool, s: Pairs, k: Ptr): (r: int)
    ensures -1 <= r < |s|
    ensures r >= 0 ==> eq(s[r].0, k)
    ensures forall j :: 0 <= j < (if r >= 0 then r else |s|) ==> !eq(s[j].0, k)
  {
    if s == [] then -1
    else if eq(s[0].0, k) then 0
    else
      var r := IndexOf(eq, s[1..], k);
      assert forall j :: 1 <= j < |s| ==> s[j] == s[1..][j - 1];
      if r < 0 then -1 else r + 1
  }

  function ToFront<T>(s: seq<T>, i: nat): seq<T>
    requires i < |s|
  {
    [s[i]] + Without(s, i)
  }

  /** A new key goes to the front; a known key keeps its place and its stored key. */
  function Insert(eq: (Ptr, Ptr) -> bool, s: Pairs, k: Ptr, v: Ptr): Pairs {
    var i := IndexOf(eq, s, k);
    if i >= 0 then s[i := (s[i].0, v)] else [(k, v)] + s
  }

  /** A hit moves to the front when the table keeps access order. */
  function Touch(eq: (Ptr, Ptr) -> bool, accessOrder: bool, s: Pairs, k: Ptr): Pairs {
    var i := IndexOf(eq, s, k);
    if i >= 0 && accessOrder then ToFront(s, i) else s
  }

  function Get(eq: (Ptr, Ptr) -> bool, s: Pairs, k: Ptr): Ptr {
    var i := IndexOf(eq, s, k);
    if i >= 0 then s[i].1 else NULL
  }

  function Remove(eq: (Ptr, Ptr) -> bool, s: Pairs, k: Ptr): Pairs {
    var i := IndexOf(eq, s, k);
    if i >= 0 then Without(s, i) else s
  }

  lemma RemoveShortens(eq: (Ptr, Ptr) -> bool, s: Pairs, k: Ptr)
    ensures |Remove(eq, s, k)| <= |s|
  {}

  /** The whole effect of one insert: the evictor is asked only after a new key went in, and
      its answer `evict` costs the last pair. */
  function InsertEvict(eq: (Ptr, Ptr) -> bool, s: Pairs, k: Ptr, v: Ptr, evict: bool): Pairs {
    var t := Insert(eq, s, k, v);
    if IndexOf(eq, s, k) < 0 && evict then t[..|t| - 1] else t
  }

  lemma InsertLength(eq: (Ptr, Ptr) -> bool, s: Pairs, k: Ptr, v: Ptr, evict: bool)
    ensures |InsertEvict(eq, s, k, v, evict)| == |s| + if IndexOf(eq, s, k) < 0 && !evict then 1 else 0
  {}

  lemma TouchLength(eq: (Ptr, Ptr) -> bool, accessOrder: bool, s: Pairs, k: Ptr)
    ensures |Touch(eq, accessOrder, s, k)| == |s|
  {}

  // ---- the four changes in plain words ----

  /** Some pair has a key equal to k. */
  ghost predicate Holding(eq: (Ptr, Ptr) -> bool, s: Pairs, k: Ptr) { exists i :: 0 <= i < |s| && eq(s[i].0, k) }

  lemma AbsentIndex(eq: (Ptr, Ptr) -> bool, s: Pairs, k: Ptr)
    ensures Holding(eq, s, k) <==> IndexOf(eq, s, k) >= 0
  {}

  /** A lookup answers the value of the pair with that key, or NULL when there is none. */
  lemma GetIs(eq: (Ptr, Ptr) -> bool, hash: Ptr -> nat, s: Pairs, k: Ptr)
    requires GoodCallbacks(eq, hash) && UniqueKeys(eq, s)
    ensures !Holding(eq, s, k) ==> Get(eq, s, k) == NULL
    ensures forall i :: 0 <= i < |s| && eq(s[i].0, k) ==> Get(eq, s, k) == s[i].1
  {
    forall i | 0 <= i < |s| && eq(s[i].0, k) ensures Get(eq, s, k) == s[i].1 {
      IndexIs(eq, hash, s, k, i);
    }
  }

  lemma TouchAt(eq: (Ptr, Ptr) -> bool, accessOrder: bool, s: Pairs, k: Ptr)
    ensures var i := IndexOf(eq, s, k); Touch(eq, accessOrder, s, k) == if i >= 0 && accessOrder then ToFront(s, i) else s
  {}

  lemma TouchIs(eq: (Ptr, Ptr) -> bool, hash: Ptr -> nat, accessOrder: bool, s: Pairs, k: Ptr)
    requires GoodCallbacks(eq, hash) && UniqueKeys(eq, s)
    ensures !Holding(eq, s, k) ==> Touch(eq, accessOrder, s, k) == s
    ensures forall i :: 0 <= i < |s| && eq(s[i].0, k) ==>
      Touch(eq, accessOrder, s, k) == if accessOrder then [s[i]] + (s[..i] + s[i + 1..]) else s
  {
    forall i | 0 <= i < |s| && eq(s[i].0, k) ensures
        Touch(eq, accessOrder, s, k) == if accessOrder then [s[i]] + (s[..i] + s[i + 1..]) else s {
      IndexIs(eq, hash, s, k, i);
    }
  }

  /** A new pair stands in front, and costs the last pair if the evictor says so; a known key keeps its
      place, its spelling and its neighbours, and no evictor is asked. */
  lemma InsertIs(eq: (Ptr, Ptr) -> bool, hash: Ptr -> nat, s: Pairs, k: Ptr, v: Ptr, evict: bool)
    requires GoodCallbacks(eq, hash) && UniqueKeys(eq, s)
    ensures !Holding(eq, s, k) ==> InsertEvict(eq, s, k, v, evict) == if evict then ([(k, v)] + s)[..|s|] else [(k, v)] + s
    ensures forall i :: 0 <= i < |s| && eq(s[i].0, k) ==> InsertEvict(eq, s, k, v, evict) == s[i := (s[i].0, v)]
  {
    forall i | 0 <= i < |s| && eq(s[i].0, k) ensures InsertEvict(eq, s, k, v, evict) == s[i := (s[i].0, v)] {
      IndexIs(eq, hash, s, k, i);
    }
  }

  lemma InsertPlain(eq: (Ptr, Ptr) -> bool, s: Pairs, k: Ptr, v: Ptr)
    ensures Insert(eq, s, k, v) == InsertEvict(eq, s, k, v, false)
  {}

  lemma RemoveIs(eq: (Ptr, Ptr) -> bool, hash: Ptr -> nat, s: Pairs, k: Ptr)
    requires GoodCallbacks(eq, hash) && UniqueKeys(eq, s)
    ensures !Holding(eq, s, k) ==> Remove(eq, s, k) == s
    ensures forall i :: 0 <= i < |s| && eq(s[i].0, k) ==> Remove(eq, s, k) == s[..i] + s[i + 1..]
  {
    forall i | 0 <= i < |s| && eq(s[i].0, k) ensures Remove(eq, s, k) == s[..i] + s[i + 1..] {
      IndexIs(eq, hash, s, k, i);
    }
  }

  lemma InsertKeepsUnique(eq: (Ptr, Ptr) -> bool, hash: Ptr -> nat, s: Pairs, k: Ptr, v: Ptr)
    requires GoodCallbacks(eq, hash) && UniqueKeys(eq, s)
    ensures UniqueKeys(eq, Insert(eq, s, k, v))
  {
    var i, t := IndexOf(eq, s, k), Insert(eq, s, k, v);
    if i < 0 {
      forall j | 1 <= j < |t| ensures !eq(t[0].0, t[j].0) {
        assert !eq(s[j - 1].0, k);
        if eq(k, s[j - 1].0) {
          EqualKeys(eq, hash, k, s[j - 1].0);
          assert false;
        }
      }
    }
  }

  lemma RemoveKeepsUnique(eq: (Ptr, Ptr) -> bool, s: Pairs, k: Ptr)
    requires UniqueKeys(eq, s)
    ensures UniqueKeys(eq, Remove(eq, s, k))
  {
    var i, t := IndexOf(eq, s, k), Remove(eq, s, k);
    if i >= 0 {
      WithoutIndex(s, i);
      assert forall m :: 0 <= m < |t| ==> t[m] == s[if m < i then m else m + 1];
    }
  }

  // ---- the list as a map ----

  predicate Has(eq: (Ptr, Ptr) -> bool, s: Pairs, k: Ptr) { IndexOf(eq, s, k) >= 0 }

  /** With unique keys, any position whose key equals k is the position of k. */
  lemma IndexIs(eq: (Ptr, Ptr) -> bool, hash: Ptr -> nat, s: Pairs, k: Ptr, i: nat)
    requires GoodCallbacks(eq, hash) && UniqueKeys(eq, s) && i < |s| && eq(s[i].0, k)
    ensures IndexOf(eq, s, k) == i
  {
    EqualToThird(eq, hash, s[i].0, s[IndexOf(eq, s, k)].0, k);
  }

  lemma NothingHeld(eq: (Ptr, Ptr) -> bool, k: Ptr)
    ensures UniqueKeys(eq, []) && !Has(eq, [], k) && Get(eq, [], k) == NULL
  {}

  lemma SameKey(eq: (Ptr, Ptr) -> bool, hash: Ptr -> nat, s: Pairs, a: Ptr, b: Ptr)
    requires GoodCallbacks(eq, hash) && UniqueKeys(eq, s) && eq(a, b)
    ensures Has(eq, s, a) <==> Has(eq, s, b)
  {
    var i, j := IndexOf(eq, s, a), IndexOf(eq, s, b);
    EqualKeys(eq, hash, a, b);
    if i >= 0 {
      EqualKeys(eq, hash, s[i].0, a);
      EqualToThird(eq, hash, s[i].0, b, a);
    }
    if j >= 0 {
      EqualKeys(eq, hash, s[j].0, b);
      EqualToThird(eq, hash, s[j].0, a, b);
    }
  }

  /** Inserting k binds every key equal to k to v and leaves every other key alone. */
  lemma InsertIsMapUpdate(eq: (Ptr, Ptr) -> bool, hash: Ptr -> nat, s: Pairs, k: Ptr, v: Ptr, x: Ptr)
    requires GoodCallbacks(eq, hash) && UniqueKeys(eq, s)
    ensures var t := Insert(eq, s, k, v);
      if eq(k, x) then Has(eq, t, x) && Get(eq, t, x) == v
      else Has(eq, t, x) == Has(eq, s, x) && Get(eq, t, x) == Get(eq, s, x)
  {
    var i, t := IndexOf(eq, s, k), Insert(eq, s, k, v);
    if i < 0 {
      assert t[1..] == s;
    } else {
      if eq(k, x) {
        EqualKeys(eq, hash, k, x);
        EqualToThird(eq, hash, s[i].0, x, k);
        IndexIs(eq, hash, t, x, i);
      } else {
        var j := IndexOf(eq, s, x);
        if j >= 0 {
          IndexIs(eq, hash, t, x, j);
          if i == j {
            EqualKeys(eq, hash, s[i].0, k);
            EqualKeys(eq, hash, s[i].0, x);
            EqualToThird(eq, hash, k, x, s[i].0);
            assert false;
          }
        }
      }
    }
  }

  lemma RemovedKey(eq: (Ptr, Ptr) -> bool, hash: Ptr -> nat, s: Pairs, k: Ptr, x: Ptr)
    requires GoodCallbacks(eq, hash) && UniqueKeys(eq, s) && eq(k, x)
    ensures !Has(eq, Remove(eq, s, k), x)
  {
    var i, t := IndexOf(eq, s, k), Remove(eq, s, k);
    RemovedAt(eq, s, k);
    EqualKeys(eq, hash, k, x);
    hide UniqueKeys, GoodCallbacks, IndexOf, Remove;
    forall m | 0 <= m < |t| ensures !eq(t[m].0, x) {
      if eq(t[m].0, x) {
        EqualToThird(eq, hash, t[m].0, k, x);
        IndexIs(eq, hash, s, k, if i >= 0 && m >= i then m + 1 else m);
        assert false;
      }
    }
  }

  lemma RemovedAt(eq: (Ptr, Ptr) -> bool, s: Pairs, k: Ptr)
    ensures var i, t := IndexOf(eq, s, k), Remove(eq, s, k);
      && |t| == (if i >= 0 then |s| - 1 else |s|) && (i < 0 ==> t == s)
      && forall m :: 0 <= m < |t| ==> t[m] == s[if i >= 0 && m >= i then m + 1 else m]
  {
    hide IndexOf, Without;
    var i, t := IndexOf(eq, s, k), Remove(eq, s, k);
    if i >= 0 {
      WithoutIndex(s, i);
      forall m | 0 <= m < |t| ensures t[m] == s[if m >= i then m + 1 else m] {
        assert t[m] == Without(s, i)[m];
      }
    }
  }

  lemma OthersStay(eq: (Ptr, Ptr) -> bool, hash: Ptr -> nat, s: Pairs, k: Ptr, x: Ptr)
    requires GoodCallbacks(eq, hash) && UniqueKeys(eq, s) && !eq(k, x)
    ensures var t := Remove(eq, s, k); IndexOf(eq, s, x) >= 0 ==> var j := IndexOf(eq, t, x); j >= 0 && t[j] == s[IndexOf(eq, s, x)]
    ensures IndexOf(eq, s, x) < 0 ==> IndexOf(eq, Remove(eq, s, k), x) < 0
  {
    var i, j, t := IndexOf(eq, s, k), IndexOf(eq, s, x), Remove(eq, s, k);
    RemovedAt(eq, s, k);
    RemoveKeepsUnique(eq, s, k);
    hide UniqueKeys, GoodCallbacks, IndexOf, Remove;
    if i >= 0 && j >= 0 {
      if i == j {
        EqualKeys(eq, hash, s[i].0, k);
        EqualKeys(eq, hash, s[i].0, x);
        EqualToThird(eq, hash, k, x, s[i].0);
        assert false;
      }
      IndexIs(eq, hash, t, x, if j < i then j else j - 1);
    }
  }

  /** Removing k unbinds exactly the keys equal to k. */
  lemma RemoveIsMapRemove(eq: (Ptr, Ptr) -> bool, hash: Ptr -> nat, s: Pairs, k: Ptr, x: Ptr)
    requires GoodCallbacks(eq, hash) && UniqueKeys(eq, s)
    ensures var t := Remove(eq, s, k);
      if eq(k, x) then !Has(eq, t, x)
      else Has(eq, t, x) == Has(eq, s, x) && Get(eq, t, x) == Get(eq, s, x)
  {
    if eq(k, x) {
      RemovedKey(eq, hash, s, k, x);
    } else {
      OthersStay(eq, hash, s, k, x);
    }
    hide UniqueKeys, GoodCallbacks, IndexOf, Remove;
  }
}
