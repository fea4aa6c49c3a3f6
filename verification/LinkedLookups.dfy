/** What the calls of a run of the linked hash table of c-hacks/src/linked-hashtbl.c answer, told by the
    calls before them. */
module LinkedLookups {
  import opened Options
  import opened Sequences
  import opened RecencyList
  import opened LinkedRuns

  /** The key that the evictor's answer costs at this call: the last one of the list, the new key in front
      included. */
  function Victim(m: Mode, before: seq<Op>, k: Ptr): Ptr {
    var s := Run(m, [], before);
    if s == [] then k else s[|s| - 1].0
  }

  /** What a call makes of the value that k was last given; `known` says whether the key of an insert was
      found, and `victim` is what an eviction would cost. */
  function Next(m: Mode, op: Op, k: Ptr, last: Option<Ptr>, known: bool, victim: Ptr): Option<Ptr> {
    match op
    case InsertOp(k', v, entryOk, _, evict) =>
      if known then if m.eq(k', k) then Some(v) else last
      else if !entryOk then last
      else if evict && m.eq(victim, k) then None
      else if m.eq(k', k) then Some(v)
      else last
    case RemoveOp(k') => if m.eq(k', k) then None else last
    case ClearOp => None
    case _ => last
  }

  /** The value that k was last given, by an insert of an equal key that succeeded, with no removal or
      eviction of an equal key and no clear since. */
  function Latest(m: Mode, ops: seq<Op>, k: Ptr): Option<Ptr>
    decreases |ops|
  {
    if ops == [] then None else
      var before, op := ops[..|ops| - 1], ops[|ops| - 1];
      if op.InsertOp? then Next(m, op, k, Latest(m, before, k), Latest(m, before, op.k).Some?, Victim(m, before, op.k))
      else Next(m, op, k, Latest(m, before, k), false, NULL)
  }

  /** Last pair gone: one key less. */
  lemma DropLast(m: Mode, s: Pairs, k: Ptr)
    requires GoodMode(m) && UniqueKeys(m.eq, s) && s != []
    ensures UniqueKeys(m.eq, s[..|s| - 1])
    ensures var n, t := |s| - 1, s[..|s| - 1];
      if m.eq(s[n].0, k) then !Has(m.eq, t, k) && Get(m.eq, t, k) == NULL
      else Has(m.eq, t, k) == Has(m.eq, s, k) && Get(m.eq, t, k) == Get(m.eq, s, k)
  {
    var hash :| GoodCallbacks(m.eq, hash);
    var n := |s| - 1;
    var t := s[..n];
    if m.eq(s[n].0, k) {
      forall i | 0 <= i < n ensures !m.eq(t[i].0, k) {
        if m.eq(s[i].0, k) {
          EqualToThird(m.eq, hash, s[i].0, s[n].0, k);
          assert false;
        }
      }
    } else {
      var i := IndexOf(m.eq, s, k);
      if i >= 0 {
        IndexIs(m.eq, hash, t, k, i);
      }
    }
  }

  lemma InsertStep(m: Mode, s: Pairs, k': Ptr, v: Ptr, evict: bool, k: Ptr)
    requires GoodMode(m) && UniqueKeys(m.eq, s) && !Has(m.eq, s, k')
    ensures var t := InsertEvict(m.eq, s, k', v, evict);
      var victim := if s == [] then k' else s[|s| - 1].0;
      && UniqueKeys(m.eq, t)
      && if evict && m.eq(victim, k) then !Has(m.eq, t, k) && Get(m.eq, t, k) == NULL
         else if m.eq(k', k) then Has(m.eq, t, k) && Get(m.eq, t, k) == v
         else Has(m.eq, t, k) == Has(m.eq, s, k) && Get(m.eq, t, k) == Get(m.eq, s, k)
  {
    var hash :| GoodCallbacks(m.eq, hash);
    var t := Insert(m.eq, s, k', v);
    InsertIsMapUpdate(m.eq, hash, s, k', v, k);
    InsertKeepsUnique(m.eq, hash, s, k', v);
    assert t == [(k', v)] + s;
    if evict {
      DropLast(m, t, k);
    }
    hide Has, Get, UniqueKeys, GoodMode, GoodCallbacks;
  }

  lemma ReplaceStep(m: Mode, s: Pairs, k': Ptr, v: Ptr, evict: bool, k: Ptr)
    requires GoodMode(m) && UniqueKeys(m.eq, s) && Has(m.eq, s, k')
    ensures var t := InsertEvict(m.eq, s, k', v, evict);
      && UniqueKeys(m.eq, t)
      && if m.eq(k', k) then Has(m.eq, t, k) && Get(m.eq, t, k) == v
         else Has(m.eq, t, k) == Has(m.eq, s, k) && Get(m.eq, t, k) == Get(m.eq, s, k)
  {
    var hash :| GoodCallbacks(m.eq, hash);
    InsertIsMapUpdate(m.eq, hash, s, k', v, k);
    InsertKeepsUnique(m.eq, hash, s, k', v);
  }

  /** Moving a pair to the front changes no answer. */
  lemma TouchStep(m: Mode, s: Pairs, k': Ptr, k: Ptr)
    requires GoodMode(m) && UniqueKeys(m.eq, s)
    ensures var t := Touch(m.eq, m.accessOrder, s, k');
      UniqueKeys(m.eq, t) && Has(m.eq, t, k) == Has(m.eq, s, k) && Get(m.eq, t, k) == Get(m.eq, s, k)
  {
    var hash :| GoodCallbacks(m.eq, hash);
    var i, t := IndexOf(m.eq, s, k'), Touch(m.eq, m.accessOrder, s, k');
    if i >= 0 && m.accessOrder {
      WithoutIndex(s, i);
      assert forall j :: 0 <= j < |t| ==> t[j] == s[if j == 0 then i else if j <= i then j - 1 else j];
      MovedFront(m, hash, s, t, i, k);
    }
    hide IndexOf, Has, Get, UniqueKeys, GoodCallbacks, Without;
  }

  lemma MovedFront(m: Mode, hash: Ptr -> nat, s: Pairs, t: Pairs, i: nat, k: Ptr)
    requires GoodCallbacks(m.eq, hash) && UniqueKeys(m.eq, s) && i < |s| == |t|
    requires forall j :: 0 <= j < |t| ==> t[j] == s[if j == 0 then i else if j <= i then j - 1 else j]
    ensures UniqueKeys(m.eq, t) && Has(m.eq, t, k) == Has(m.eq, s, k) && Get(m.eq, t, k) == Get(m.eq, s, k)
  {
    FrontUnique(m, hash, s, t, i);
    hide IndexOf, UniqueKeys, GoodCallbacks;
    var j := IndexOf(m.eq, s, k);
    if j >= 0 {
      IndexIs(m.eq, hash, t, k, if j == i then 0 else if j < i then j + 1 else j);
    }
  }

  lemma FrontUnique(m: Mode, hash: Ptr -> nat, s: Pairs, t: Pairs, i: nat)
    requires GoodCallbacks(m.eq, hash) && UniqueKeys(m.eq, s) && i < |s| == |t|
    requires forall j :: 0 <= j < |t| ==> t[j] == s[if j == 0 then i else if j <= i then j - 1 else j]
    ensures UniqueKeys(m.eq, t)
  {
    forall x, y | 0 <= x < y < |t| ensures !m.eq(t[x].0, t[y].0) {
      if x == 0 && y <= i && m.eq(t[x].0, t[y].0) {
        EqualKeys(m.eq, hash, t[x].0, t[y].0);
        assert false;
      }
    }
  }

  lemma RemoveStep(m: Mode, s: Pairs, k': Ptr, k: Ptr)
    requires GoodMode(m) && UniqueKeys(m.eq, s)
    ensures var t := Remove(m.eq, s, k');
      && UniqueKeys(m.eq, t)
      && if m.eq(k', k) then !Has(m.eq, t, k) else Has(m.eq, t, k) == Has(m.eq, s, k) && Get(m.eq, t, k) == Get(m.eq, s, k)
  {
    var hash :| GoodCallbacks(m.eq, hash);
    RemoveIsMapRemove(m.eq, hash, s, k', k);
    RemoveKeepsUnique(m.eq, s, k');
  }

  function Found(m: Mode, s: Pairs, k: Ptr): Option<Ptr> { if Has(m.eq, s, k) then Some(Get(m.eq, s, k)) else None }

  lemma FoundIs(m: Mode, s: Pairs, k: Ptr)
    ensures Get(m.eq, s, k) == match Found(m, s, k) case Some(v) => v case None => NULL
  {}

  /** In a table that started empty, exactly the keys with such a value are found, with that value. */
  lemma {:induction false} HoldsLatest(m: Mode, ops: seq<Op>, k: Ptr)
    requires GoodMode(m)
    ensures UniqueKeys(m.eq, Run(m, [], ops)) && Found(m, Run(m, [], ops), k) == Latest(m, ops, k)
    decreases |ops|
  {
    hide Step, UniqueKeys, GoodMode, Found, Next;
    if ops == [] {
      Empty(m, k);
    } else {
      var before, op := ops[..|ops| - 1], ops[|ops| - 1];
      HoldsLatest(m, before, k);
      if op.InsertOp? {
        HoldsLatest(m, before, op.k);
      }
      HoldsStep(m, Run(m, [], before), op, k);
    }
  }

  lemma Empty(m: Mode, k: Ptr)
    ensures UniqueKeys(m.eq, []) && Found(m, [], k) == None
  {
    NothingHeld(m.eq, k);
  }

  lemma HoldsStep(m: Mode, s: Pairs, op: Op, k: Ptr)
    requires GoodMode(m) && UniqueKeys(m.eq, s)
    ensures UniqueKeys(m.eq, Step(m, s, op))
    ensures op.InsertOp? ==> (Found(m, Step(m, s, op), k)
      == Next(m, op, k, Found(m, s, k), Found(m, s, op.k).Some?, if s == [] then op.k else s[|s| - 1].0))
    ensures !op.InsertOp? ==> Found(m, Step(m, s, op), k) == Next(m, op, k, Found(m, s, k), false, NULL)
  {
    hide UniqueKeys, GoodMode, GoodCallbacks, IndexOf, Get, InsertEvict, Remove, Touch;
    match op
    case InsertOp(k', v, entryOk, _, evict) =>
      if Has(m.eq, s, k') {
        ReplaceStep(m, s, k', v, evict, k);
      } else if entryOk {
        InsertStep(m, s, k', v, evict, k);
      }
    case LookupOp(k') => TouchStep(m, s, k', k);
    case RemoveOp(k') =>
      RemoveStep(m, s, k', k);
    case ResizeOp(_, _) =>
    case ClearOp => Empty(m, k);
  }

  lemma {:induction false} AnswerAt(m: Mode, z: Sizing, s: Pairs, size: nat, ops: seq<Op>, i: nat)
    requires i < |ops|
    ensures Answers(m, z, s, size, ops)[i] == Answer(m, Run(m, s, ops[..i]), SizeRun(m, z, s, size, ops[..i]), ops[i])
  {
    hide Answer, Run, SizeRun;
    var n := |ops| - 1;
    if i < n {
      AnswerAt(m, z, s, size, ops[..n], i);
      assert ops[..n][..i] == ops[..i];
    }
  }

  /** A lookup anywhere in a run answers the value that its key was last given, or NULL. */
  lemma LookupInRun(m: Mode, z: Sizing, size: nat, ops: seq<Op>, i: nat)
    requires GoodMode(m) && i < |ops| && ops[i].LookupOp?
    ensures Answers(m, z, [], size, ops)[i]
         == match Latest(m, ops[..i], ops[i].k) case Some(v) => v case None => NULL
  {
    AnswerAt(m, z, [], size, ops, i);
    HoldsLatest(m, ops[..i], ops[i].k);
    FoundIs(m, Run(m, [], ops[..i]), ops[i].k);
  }

  /** Without automatic resizing only a resize changes the size. */
  lemma {:induction false} FixedSize(m: Mode, z: Sizing, s: Pairs, size: nat, ops: seq<Op>)
    requires !z.auto && forall i :: 0 <= i < |ops| ==> !ops[i].ResizeOp?
    ensures SizeRun(m, z, s, size, ops) == size
  {
    if ops != [] {
      FixedSize(m, z, s, size, ops[..|ops| - 1]);
    }
  }
}
