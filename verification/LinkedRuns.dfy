/** Whole runs of a linked hash table: refinement of the abstract list, order by last touch,
    and the least-recently-used cache that a bounding evictor makes of it. */
module LinkedRuns {
  import opened Sequences
  import opened Bits
  import opened RecencyList
  import opened Chains
  import opened Ring
  import opened LinkedHashtbl

  /** One call, with the answers of the allocator and of the evictor during that call. */
  datatype Op =
    | InsertOp(k: Ptr, v: Ptr, entryOk: bool, tableOk: bool, evict: bool)
    | LookupOp(k: Ptr)
    | RemoveOp(k: Ptr)
    | ResizeOp(capacity: int, tableOk: bool)
    | ClearOp

  datatype Mode = Mode(eq: (Ptr, Ptr) -> bool, accessOrder: bool)

  function Step(m: Mode, s: Pairs, op: Op): Pairs {
    match op
    case InsertOp(k, v, entryOk, _, evict) =>
      if IndexOf(m.eq, s, k) < 0 && !entryOk then s else InsertEvict(m.eq, s, k, v, evict)
    case LookupOp(k) => Touch(m.eq, m.accessOrder, s, k)
    case RemoveOp(k) => Remove(m.eq, s, k)
    case ResizeOp(_, _) => s
    case ClearOp => []
  }

  function Run(m: Mode, s: Pairs, ops: seq<Op>): Pairs {
    if ops == [] then s else Step(m, Run(m, s, ops[..|ops| - 1]), ops[|ops| - 1])
  }

  /** How the table is to grow. */
  datatype Sizing = Sizing(auto: bool, factor: real)

  /** The size of the table after a call on one that holds the pairs s. */
  function SizeStep(m: Mode, z: Sizing, s: Pairs, size: nat, op: Op): nat {
    match op
    case InsertOp(k, _, entryOk, tableOk, _) =>
      if IndexOf(m.eq, s, k) >= 0 || !entryOk then size else AutoSize(z.auto, tableOk, |Step(m, s, op)|, size, z.factor)
    case ResizeOp(capacity, tableOk) => if tableOk then Greater(NormalSize(capacity), size) else size
    case _ => size
  }

  function SizeRun(m: Mode, z: Sizing, s: Pairs, size: nat, ops: seq<Op>): nat {
    if ops == [] then size else
      var before := ops[..|ops| - 1];
      SizeStep(m, z, Run(m, s, before), SizeRun(m, z, s, size, before), ops[|ops| - 1])
  }

  /** What the call answers: a value, or 0 for success and 1 for failure. */
  function Answer(m: Mode, s: Pairs, size: nat, op: Op): int {
    match op
    case InsertOp(k, _, entryOk, _, _) => if IndexOf(m.eq, s, k) < 0 && !entryOk then 1 else 0
    case LookupOp(k) => Get(m.eq, s, k)
    case RemoveOp(k) => if IndexOf(m.eq, s, k) >= 0 then 0 else 1
    case ResizeOp(capacity, tableOk) => if !tableOk && NormalSize(capacity) > size then 1 else 0
    case ClearOp => 0
  }

  function Answers(m: Mode, z: Sizing, s: Pairs, size: nat, ops: seq<Op>): (r: seq<int>)
    ensures |r| == |ops|
  {
    if ops == [] then [] else
      var before, op := ops[..|ops| - 1], ops[|ops| - 1];
      Answers(m, z, s, size, before) + [Answer(m, Run(m, s, before), SizeRun(m, z, s, size, before), op)]
  }

  /** Refinement over whole runs: after any calls, on any heap layout and under any allocation failures and
      evictor answers, the table holds exactly the pairs of the abstract list, in its order, has the size
      that those calls lead to, and has given the answers of the list. */
  method Execute(h: Table, ops: seq<Op>) returns (answers: seq<int>)
    requires h.Valid()
    modifies h.Repr()
    ensures h.Valid() && fresh(h.Repr() - old(h.Repr()))
    ensures h.contents == Run(Mode(h.equalsFn, h.accessOrder), old(h.contents), ops)
    ensures var m, z := Mode(h.equalsFn, h.accessOrder), Sizing(h.autoResize, h.maxLoadFactor);
      && h.table.Length == SizeRun(m, z, old(h.contents), old(h.table.Length), ops)
      && answers == Answers(m, z, old(h.contents), old(h.table.Length), ops)
  {
    hide ChainsOk, RingOk, UniqueKeys, GoodCallbacks, Threshold, Holds, Step, SizeStep, Answer;
    ghost var m, z := Mode(h.equalsFn, h.accessOrder), Sizing(h.autoResize, h.maxLoadFactor);
    ghost var start, size := h.contents, h.table.Length;
    answers := [];
    assert ops[..0] == [];
    for i := 0 to |ops|
      invariant h.Valid() && fresh(h.Repr() - old(h.Repr()))
      invariant h.contents == Run(m, start, ops[..i]) && h.table.Length == SizeRun(m, z, start, size, ops[..i])
      invariant answers == Answers(m, z, start, size, ops[..i])
    {
      assert ops[..i + 1][..i] == ops[..i];
      var answer := Call(h, ops[i]);
      answers := answers + [answer];
    }
    assert ops[..|ops|] == ops;
  }

  method Call(h: Table, op: Op) returns (answer: int)
    requires h.Valid()
    modifies h.Repr()
    ensures h.Valid() && fresh(h.Repr() - old(h.Repr()))
    ensures h.contents == Step(Mode(h.equalsFn, h.accessOrder), old(h.contents), op)
    ensures var m, z := Mode(h.equalsFn, h.accessOrder), Sizing(h.autoResize, h.maxLoadFactor);
      && h.table.Length == SizeStep(m, z, old(h.contents), old(h.table.Length), op)
      && answer == Answer(m, old(h.contents), old(h.table.Length), op)
  {
    hide ChainsOk, RingOk, UniqueKeys, GoodCallbacks, Threshold, Holds, IndexOf;
    answer := 0;
    match op {
      case InsertOp(k, v, entryOk, tableOk, evict) => answer := h.Insert(k, v, entryOk, tableOk, evict);
      case LookupOp(k) => answer := h.Lookup(k);
      case RemoveOp(k) => answer := h.RemoveKey(k);
      case ResizeOp(capacity, tableOk) => answer := h.Resize(capacity, tableOk);
      case ClearOp => h.Clear();
    }
  }

  // ---- order by last touch ----

  ghost predicate GoodMode(m: Mode) {
    exists hash :: GoodCallbacks(m.eq, hash)
  }

  /** A key is touched by the call that puts it in, and by a hit when the table keeps access
      order; replacing a value touches nothing. */
  predicate Touches(m: Mode, s: Pairs, op: Op) {
    match op
    case InsertOp(k, _, entryOk, _, _) => IndexOf(m.eq, s, k) < 0 && entryOk
    case LookupOp(k) => m.accessOrder && IndexOf(m.eq, s, k) >= 0
    case _ => false
  }

  /** The keys touched so far, newest first. */
  function Touched(m: Mode, ops: seq<Op>): seq<Ptr> {
    if ops == [] then [] else
      var before, op := ops[..|ops| - 1], ops[|ops| - 1];
      (if Touches(m, Run(m, [], before), op) then [op.k] else []) + Touched(m, before)
  }

  /** How many touches ago key k was last touched. */
  function Age(m: Mode, touched: seq<Ptr>, k: Ptr): nat {
    if touched == [] || m.eq(touched[0], k) then 0 else 1 + Age(m, touched[1..], k)
  }

  ghost predicate OrderedByTouch(m: Mode, s: Pairs, touched: seq<Ptr>) {
    && (forall i :: 0 <= i < |s| ==> Age(m, touched, s[i].0) < |touched|)
    && (forall i, j :: 0 <= i < j < |s| ==> Age(m, touched, s[i].0) < Age(m, touched, s[j].0))
  }

  lemma SymTrans(m: Mode, a: Ptr, b: Ptr)
    requires GoodMode(m) && m.eq(a, b)
    ensures m.eq(b, a) && forall k :: m.eq(a, k) <==> m.eq(b, k)
  {
    var hash :| GoodCallbacks(m.eq, hash);
    assert Same(m.eq, a, b) && Same(m.eq, b, a);
    forall k ensures m.eq(a, k) <==> m.eq(b, k) {
      assert Same(m.eq, a, k) ==> Same(m.eq, b, k);
      assert Same(m.eq, b, k) ==> Same(m.eq, a, k);
    }
  }

  lemma UniqueInsert(m: Mode, s: Pairs, k: Ptr, v: Ptr)
    requires GoodMode(m) && UniqueKeys(m.eq, s) && IndexOf(m.eq, s, k) < 0
    ensures UniqueKeys(m.eq, [(k, v)] + s)
  {
    var t := [(k, v)] + s;
    forall j | 0 < j < |t| ensures !m.eq(t[0].0, t[j].0) {
      if m.eq(k, t[j].0) {
        SymTrans(m, k, t[j].0);
        assert false;
      }
    }
  }

  lemma UniqueFront(m: Mode, s: Pairs, i: nat)
    requires GoodMode(m) && UniqueKeys(m.eq, s) && i < |s|
    ensures UniqueKeys(m.eq, ToFront(s, i)) && UniqueKeys(m.eq, Without(s, i))
  {
    WithoutIndex(s, i);
    var t := ToFront(s, i);
    forall y | 0 < y < |t| ensures !m.eq(t[0].0, t[y].0) {
      if m.eq(t[0].0, t[y].0) {
        SymTrans(m, t[0].0, t[y].0);
      }
    }
  }

  lemma UniqueStep(m: Mode, s: Pairs, op: Op)
    requires GoodMode(m) && UniqueKeys(m.eq, s)
    ensures UniqueKeys(m.eq, Step(m, s, op))
  {
    hide GoodMode, ToFront, Without;
    match op
    case InsertOp(k, v, entryOk, _, evict) =>
      if IndexOf(m.eq, s, k) < 0 && entryOk {
        UniqueInsert(m, s, k, v);
      }
    case LookupOp(k) =>
      if IndexOf(m.eq, s, k) >= 0 {
        UniqueFront(m, s, IndexOf(m.eq, s, k));
      }
    case RemoveOp(k) =>
      if IndexOf(m.eq, s, k) >= 0 {
        UniqueFront(m, s, IndexOf(m.eq, s, k));
      }
    case ResizeOp(_, _) =>
    case ClearOp =>
  }

  lemma {:induction false} UniqueRun(m: Mode, ops: seq<Op>)
    requires GoodMode(m)
    ensures UniqueKeys(m.eq, Run(m, [], ops))
  {
    if ops != [] {
      UniqueRun(m, ops[..|ops| - 1]);
      UniqueStep(m, Run(m, [], ops[..|ops| - 1]), ops[|ops| - 1]);
    }
  }

  lemma OrderAfterFront(m: Mode, s: Pairs, rest: Pairs, touched: seq<Ptr>, k: Ptr, p: (Ptr, Ptr))
    requires GoodMode(m) && OrderedByTouch(m, rest, touched) && m.eq(k, p.0)
    requires forall i :: 0 <= i < |rest| ==> !m.eq(k, rest[i].0)
    requires s == [p] + rest
    ensures OrderedByTouch(m, s, [k] + touched)
  {}

  lemma OrderInsert(m: Mode, s: Pairs, touched: seq<Ptr>, k: Ptr, v: Ptr)
    requires GoodMode(m) && OrderedByTouch(m, s, touched) && IndexOf(m.eq, s, k) < 0
    ensures OrderedByTouch(m, [(k, v)] + s, [k] + touched)
  {
    forall j | 0 <= j < |s| ensures !m.eq(k, s[j].0) {
      if m.eq(k, s[j].0) {
        SymTrans(m, k, s[j].0);
        assert false;
      }
    }
    SelfEqual(m, k);
    OrderAfterFront(m, [(k, v)] + s, s, touched, k, (k, v));
  }

  lemma OrderHit(m: Mode, s: Pairs, touched: seq<Ptr>, k: Ptr, i: nat)
    requires GoodMode(m) && UniqueKeys(m.eq, s) && OrderedByTouch(m, s, touched)
    requires i < |s| && m.eq(s[i].0, k)
    ensures OrderedByTouch(m, ToFront(s, i), [k] + touched)
  {
    hide Age;
    WithoutIndex(s, i);
    SymTrans(m, s[i].0, k);
    var rest := Without(s, i);
    forall j | 0 <= j < |rest| ensures !m.eq(k, rest[j].0) {
      if m.eq(s[i].0, rest[j].0) {
        SymTrans(m, s[i].0, rest[j].0);
        assert false;
      }
    }
    OrderAfterFront(m, ToFront(s, i), rest, touched, k, s[i]);
  }

  lemma OrderStep(m: Mode, s: Pairs, touched: seq<Ptr>, op: Op)
    requires GoodMode(m) && UniqueKeys(m.eq, s) && OrderedByTouch(m, s, touched)
    ensures OrderedByTouch(m, Step(m, s, op), (if Touches(m, s, op) then [op.k] else []) + touched)
  {
    assert OrderedByTouch(m, [], touched);
    hide OrderedByTouch, UniqueKeys, GoodMode, InsertEvict, Remove, ToFront;
    assert [] + touched == touched;
    match op
    case InsertOp(k, v, entryOk, _, evict) =>
      if IndexOf(m.eq, s, k) < 0 && entryOk {
        OrderInsert(m, s, touched, k, v);
        InsertIsFront(m.eq, s, k, v, evict);
        OrderPrefix(m, [(k, v)] + s, InsertEvict(m.eq, s, k, v, evict), [k] + touched);
      } else if IndexOf(m.eq, s, k) >= 0 {
        OrderReplace(m, s, touched, k, v, evict);
      }
    case LookupOp(k) =>
      var i := IndexOf(m.eq, s, k);
      if i >= 0 && m.accessOrder {
        OrderHit(m, s, touched, k, i);
      }
    case RemoveOp(k) =>
      OrderRemove(m, s, touched, k);
    case ResizeOp(_, _) =>
    case ClearOp =>
  }

  lemma InsertIsFront(eq: (Ptr, Ptr) -> bool, s: Pairs, k: Ptr, v: Ptr, evict: bool)
    requires IndexOf(eq, s, k) < 0
    ensures InsertEvict(eq, s, k, v, evict) <= [(k, v)] + s
  {}

  lemma OrderPrefix(m: Mode, s: Pairs, t: Pairs, touched: seq<Ptr>)
    requires OrderedByTouch(m, s, touched) && t <= s
    ensures OrderedByTouch(m, t, touched)
  {
    hide Age;
  }

  lemma OrderReplace(m: Mode, s: Pairs, touched: seq<Ptr>, k: Ptr, v: Ptr, evict: bool)
    requires OrderedByTouch(m, s, touched) && IndexOf(m.eq, s, k) >= 0
    ensures OrderedByTouch(m, InsertEvict(m.eq, s, k, v, evict), touched)
  {
    hide Age;
  }

  lemma OrderRemove(m: Mode, s: Pairs, touched: seq<Ptr>, k: Ptr)
    requires OrderedByTouch(m, s, touched)
    ensures OrderedByTouch(m, Remove(m.eq, s, k), touched)
  {
    hide Age;
    var i := IndexOf(m.eq, s, k);
    if i >= 0 {
      WithoutIndex(s, i);
    }
  }

  lemma SelfEqual(m: Mode, k: Ptr)
    requires GoodMode(m)
    ensures m.eq(k, k)
  {
    var hash :| GoodCallbacks(m.eq, hash);
    assert Same(m.eq, k, k);
  }

  /** After every run the pairs stand in the order of their last touch, most recent first. */
  lemma {:induction false} OrderedRun(m: Mode, ops: seq<Op>)
    requires GoodMode(m)
    ensures OrderedByTouch(m, Run(m, [], ops), Touched(m, ops))
  {
    if ops != [] {
      var before := ops[..|ops| - 1];
      OrderedRun(m, before);
      UniqueRun(m, before);
      OrderStep(m, Run(m, [], before), Touched(m, before), ops[|ops| - 1]);
    }
  }

  /** The pair an insert evicts is the one touched longest ago, and nothing else leaves. */
  lemma EvictsLeastRecent(m: Mode, ops: seq<Op>, k: Ptr, v: Ptr, tableOk: bool)
    requires GoodMode(m) && IndexOf(m.eq, Run(m, [], ops), k) < 0
    ensures var t := [(k, v)] + Run(m, [], ops);
      var ops' := ops + [InsertOp(k, v, true, tableOk, true)];
      && Run(m, [], ops') == t[..|t| - 1]
      && forall j :: 0 <= j < |t| - 1 ==>
           Age(m, Touched(m, ops'), t[j].0) < Age(m, Touched(m, ops'), t[|t| - 1].0)
  {
    var kept := ops + [InsertOp(k, v, true, tableOk, false)];
    var gone := ops + [InsertOp(k, v, true, tableOk, true)];
    assert kept[..|ops|] == ops && gone[..|ops|] == ops;
    OrderedRun(m, kept);
  }

  // ---- the least-recently-used cache ----

  /** A run of any calls, under any allocation failures, in which the evictor answers `count > cap`
      whenever it is asked. */
  ghost predicate CappedRun(m: Mode, ops: seq<Op>, cap: nat) {
    forall i :: 0 <= i < |ops| ==> CappedOp(m, Run(m, [], ops[..i]), ops[i], cap)
  }

  predicate CappedOp(m: Mode, s: Pairs, op: Op, cap: nat) {
    op.InsertOp? && op.entryOk && IndexOf(m.eq, s, op.k) < 0 ==> op.evict == (|s| + 1 > cap)
  }

  /** Such a table never holds more than cap entries. */
  lemma {:induction false} NeverAboveCap(m: Mode, ops: seq<Op>, cap: nat)
    requires CappedRun(m, ops, cap)
    ensures |Run(m, [], ops)| <= cap
  {
    hide CappedOp, Step;
    if ops != [] {
      var before, op := ops[..|ops| - 1], ops[|ops| - 1];
      assert forall i :: 0 <= i < |before| ==> before[..i] == ops[..i] && before[i] == ops[i];
      NeverAboveCap(m, before, cap);
      StepWithinCap(m, Run(m, [], before), op, cap);
    }
  }

  lemma StepWithinCap(m: Mode, s: Pairs, op: Op, cap: nat)
    requires |s| <= cap && CappedOp(m, s, op, cap)
    ensures |Step(m, s, op)| <= cap
  {
    hide InsertEvict, Touch, Remove, IndexOf;
    match op
    case InsertOp(k, v, _, _, evict) => InsertLength(m.eq, s, k, v, evict);
    case LookupOp(k) => TouchLength(m.eq, m.accessOrder, s, k);
    case RemoveOp(k) => RemoveShortens(m.eq, s, k);
    case _ =>
  }

  /** A run of inserts and lookups whose entry allocations succeed, with an evictor that answers
      `count > cap`. */
  ghost predicate CacheRun(m: Mode, ops: seq<Op>, cap: nat) {
    forall i :: 0 <= i < |ops| ==> CacheOp(m, Run(m, [], ops[..i]), ops[i], cap)
  }

  predicate CacheOp(m: Mode, s: Pairs, op: Op, cap: nat) {
    match op
    case InsertOp(_, _, entryOk, _, evict) => entryOk && evict == (|s| + 1 > cap)
    case LookupOp(_) => true
    case ResizeOp(_, _) => true
    case _ => false
  }

  /** The first key of `keys` that equals k is dropped. */
  function Minus(m: Mode, keys: seq<Ptr>, k: Ptr): seq<Ptr> {
    if keys == [] then [] else if m.eq(keys[0], k) then keys[1..] else [keys[0]] + Minus(m, keys[1..], k)
  }

  /** The distinct touched keys, most recently touched first. */
  function Recent(m: Mode, touched: seq<Ptr>): seq<Ptr> {
    if touched == [] then [] else [touched[0]] + Minus(m, Recent(m, touched[1..]), touched[0])
  }

  /** The table holds exactly the (at most cap) most recently touched keys, in that order. */
  ghost predicate HoldsRecent(m: Mode, s: Pairs, recent: seq<Ptr>, cap: nat) {
    && |s| == (if |recent| < cap then |recent| else cap)
    && forall i :: 0 <= i < |s| ==> m.eq(s[i].0, recent[i])
  }

  lemma {:induction false} MinusAt(m: Mode, keys: seq<Ptr>, k: Ptr, i: int)
    requires -1 <= i < |keys|
    requires forall j :: 0 <= j < (if i >= 0 then i else |keys|) ==> !m.eq(keys[j], k)
    requires i >= 0 ==> m.eq(keys[i], k)
    ensures Minus(m, keys, k) == if i >= 0 then Without(keys, i) else keys
  {
    if keys != [] && i != 0 {
      MinusAt(m, keys[1..], k, if i > 0 then i - 1 else -1);
    }
  }

  /** Below the first occurrence nothing moves. */
  lemma {:induction false} MinusPrefix(m: Mode, keys: seq<Ptr>, k: Ptr, n: nat)
    requires n <= |keys|
    requires forall j :: 0 <= j < n ==> !m.eq(keys[j], k)
    ensures |Minus(m, keys, k)| >= |keys| - 1 && |Minus(m, keys, k)| >= n
    ensures forall j :: 0 <= j < n ==> Minus(m, keys, k)[j] == keys[j]
  {
    if n > 0 {
      MinusPrefix(m, keys[1..], k, n - 1);
    } else if keys != [] {
      MinusPrefix(m, keys[1..], k, 0);
    }
  }

  lemma HitKeepsRecent(m: Mode, s: Pairs, recent: seq<Ptr>, cap: nat, k: Ptr)
    requires GoodMode(m) && UniqueKeys(m.eq, s) && HoldsRecent(m, s, recent, cap) && IndexOf(m.eq, s, k) >= 0
    ensures HoldsRecent(m, ToFront(s, IndexOf(m.eq, s, k)), [k] + Minus(m, recent, k), cap)
  {
    hide GoodMode, UniqueKeys, Minus, ToFront;
    var i := IndexOf(m.eq, s, k);
    forall j | 0 <= j < |s| ensures m.eq(recent[j], k) <==> m.eq(s[j].0, k) {
      SymTrans(m, s[j].0, recent[j]);
    }
    MinusAt(m, recent, k, i);
    FrontKeepsRecent(m, s, recent, cap, k, i);
  }

  lemma FrontKeepsRecent(m: Mode, s: Pairs, recent: seq<Ptr>, cap: nat, k: Ptr, i: nat)
    requires HoldsRecent(m, s, recent, cap) && i < |s| && m.eq(s[i].0, k)
    ensures HoldsRecent(m, ToFront(s, i), [k] + Without(recent, i), cap)
  {
    WithoutIndex(s, i);
    WithoutIndex(recent, i);
  }

  lemma MissKeepsRecent(m: Mode, s: Pairs, recent: seq<Ptr>, cap: nat, k: Ptr, v: Ptr)
    requires GoodMode(m) && HoldsRecent(m, s, recent, cap) && IndexOf(m.eq, s, k) < 0
    ensures HoldsRecent(m, InsertEvict(m.eq, s, k, v, |s| + 1 > cap), [k] + Minus(m, recent, k), cap)
  {
    hide GoodMode, Minus, InsertEvict;
    forall j | 0 <= j < |s| ensures !m.eq(recent[j], k) {
      SymTrans(m, s[j].0, recent[j]);
    }
    SelfEqual(m, k);
    MinusPrefix(m, recent, k, |s|);
    if |s| == |recent| {
      MinusAt(m, recent, k, -1);
    }
    NewKeepsRecent(m, s, recent, Minus(m, recent, k), cap, k, v);
  }

  lemma NewKeepsRecent(m: Mode, s: Pairs, recent: seq<Ptr>, minus: seq<Ptr>, cap: nat, k: Ptr, v: Ptr)
    requires HoldsRecent(m, s, recent, cap) && IndexOf(m.eq, s, k) < 0 && m.eq(k, k)
    requires |minus| >= |recent| - 1 && |minus| >= |s| && forall j :: 0 <= j < |s| ==> minus[j] == recent[j]
    requires |s| == |recent| ==> minus == recent
    ensures HoldsRecent(m, InsertEvict(m.eq, s, k, v, |s| + 1 > cap), [k] + minus, cap)
  {
    hide IndexOf;
    var s' := InsertEvict(m.eq, s, k, v, |s| + 1 > cap);
    FrontOf(s, s', (k, v));
    var r := [k] + minus;
    hide InsertEvict;
    assert |s'| == if |r| < cap then |r| else cap;
    forall i | 0 <= i < |s'| ensures m.eq(s'[i].0, r[i]) {
      if i > 0 {
        assert r[i] == recent[i - 1] && s'[i] == s[i - 1];
      }
    }
  }

  lemma FrontOf(s: Pairs, s': Pairs, p: (Ptr, Ptr))
    requires s' <= [p] + s
    ensures forall i :: 0 <= i < |s'| ==> s'[i] == if i == 0 then p else s[i - 1]
  {}

  lemma CacheStep(m: Mode, s: Pairs, touched: seq<Ptr>, op: Op, cap: nat)
    requires GoodMode(m) && UniqueKeys(m.eq, s) && CacheOp(m, s, op, cap)
    requires HoldsRecent(m, s, Recent(m, touched), cap)
    ensures HoldsRecent(m, Step(m, s, op), Recent(m, (if Touches(m, s, op) then [op.k] else []) + touched), cap)
  {
    hide GoodMode, UniqueKeys, Minus, HoldsRecent, Recent, InsertEvict, ToFront;
    assert [] + touched == touched;
    if Touches(m, s, op) {
      RecentStep(m, op.k, touched);
      if op.LookupOp? {
        HitKeepsRecent(m, s, Recent(m, touched), cap, op.k);
      } else {
        MissKeepsRecent(m, s, Recent(m, touched), cap, op.k, op.v);
      }
    } else if op.InsertOp? {
      ReplacingKeepsRecent(m, s, Recent(m, touched), cap, op);
    }
  }

  lemma RecentStep(m: Mode, k: Ptr, touched: seq<Ptr>)
    ensures Recent(m, [k] + touched) == [k] + Minus(m, Recent(m, touched), k)
  {
    hide Minus;
    assert ([k] + touched)[1..] == touched;
  }

  /** Replacing a value moves nothing. */
  lemma ReplacingKeepsRecent(m: Mode, s: Pairs, recent: seq<Ptr>, cap: nat, op: Op)
    requires op.InsertOp? && IndexOf(m.eq, s, op.k) >= 0 && HoldsRecent(m, s, recent, cap)
    ensures HoldsRecent(m, InsertEvict(m.eq, s, op.k, op.v, op.evict), recent, cap)
  {}

  /** The table is a least-recently-used cache (first-in-first-out without access order): after
      every such run it holds exactly the cap most recently touched distinct keys. */
  lemma {:induction false} CacheHoldsMostRecent(m: Mode, ops: seq<Op>, cap: nat)
    requires GoodMode(m) && CacheRun(m, ops, cap)
    ensures HoldsRecent(m, Run(m, [], ops), Recent(m, Touched(m, ops)), cap)
  {
    if ops != [] {
      var before, op := ops[..|ops| - 1], ops[|ops| - 1];
      assert CacheOp(m, Run(m, [], before), op, cap);
      CacheRunPrefix(m, ops, cap);
      hide GoodMode, UniqueKeys, HoldsRecent, Recent, CacheOp, CacheRun, Step, Touches;
      CacheHoldsMostRecent(m, before, cap);
      UniqueRun(m, before);
      CacheStep(m, Run(m, [], before), Touched(m, before), op, cap);
    }
  }

  lemma CacheRunPrefix(m: Mode, ops: seq<Op>, cap: nat)
    requires CacheRun(m, ops, cap) && ops != []
    ensures CacheRun(m, ops[..|ops| - 1], cap)
  {
    hide CacheOp, Run;
    var before := ops[..|ops| - 1];
    assert forall i :: 0 <= i < |before| ==> ops[..i] == before[..i];
  }
}
