/** Whole runs of the plain hash table of c-hacks/src/hashtbl.c: refinement of the abstract map, the answers
    of its calls, and how full it gets. */
module HashtblRuns {
  import opened Options
  import opened Sequences
  import opened Bits
  import opened RecencyList
  import opened Chains
  import opened Load
  import opened Hashtbl

  /** One call, with the answers of the allocator during that call. */
  datatype Op =
    | InsertOp(k: Ptr, v: Ptr, entryOk: bool, tableOk: bool)
    | LookupOp(k: Ptr)
    | RemoveOp(k: Ptr)
    | ResizeOp(capacity: int, tableOk: bool)
    | ClearOp

  /** How keys compare, and how the table is to grow. */
  datatype Mode = Mode(eq: (Ptr, Ptr) -> bool, auto: bool, factor: real)

  /** What is in the table, and how large it is. */
  datatype State = State(pairs: Pairs, size: nat)

  function Step(m: Mode, s: State, op: Op): State {
    match op
    case InsertOp(k, v, entryOk, tableOk) =>
      if IndexOf(m.eq, s.pairs, k) >= 0 then s.(pairs := RecencyList.Insert(m.eq, s.pairs, k, v))
      else State(if entryOk then RecencyList.Insert(m.eq, s.pairs, k, v) else s.pairs,
                 AutoSize(m.auto, tableOk, |s.pairs|, s.size, m.factor))
    case LookupOp(_) => s
    case RemoveOp(k) => s.(pairs := Remove(m.eq, s.pairs, k))
    case ResizeOp(capacity, tableOk) => if tableOk then s.(size := Greater(NormalSize(capacity), s.size)) else s
    case ClearOp => s.(pairs := [])
  }

  /** What the call answers: a value, or 0 for success and 1 for failure. */
  function Answer(m: Mode, s: State, op: Op): int {
    match op
    case InsertOp(k, _, entryOk, _) => if IndexOf(m.eq, s.pairs, k) < 0 && !entryOk then 1 else 0
    case LookupOp(k) => Get(m.eq, s.pairs, k)
    case RemoveOp(k) => if IndexOf(m.eq, s.pairs, k) >= 0 then 0 else 1
    case ResizeOp(capacity, tableOk) => if !tableOk && NormalSize(capacity) > s.size then 1 else 0
    case ClearOp => 0
  }

  function Run(m: Mode, s: State, ops: seq<Op>): State {
    if ops == [] then s else Step(m, Run(m, s, ops[..|ops| - 1]), ops[|ops| - 1])
  }

  function Answers(m: Mode, s: State, ops: seq<Op>): (r: seq<int>)
    ensures |r| == |ops|
  {
    if ops == [] then [] else
      var before, op := ops[..|ops| - 1], ops[|ops| - 1];
      Answers(m, s, before) + [Answer(m, Run(m, s, before), op)]
  }

  ghost function ModeOf(h: Table): Mode { Mode(h.equalsFn, h.autoResize, h.maxLoadFactor) }

  ghost function StateOf(h: Table): State
    reads h
  {
    State(h.contents, h.table.Length)
  }

  method Call(h: Table, op: Op) returns (answer: int)
    requires h.Valid()
    modifies h.Repr()
    ensures h.Valid() && fresh(h.Repr() - old(h.Repr()))
    ensures StateOf(h) == Step(ModeOf(h), old(StateOf(h)), op) && answer == Answer(ModeOf(h), old(StateOf(h)), op)
  {
    hide ChainsOk, UniqueKeys, GoodCallbacks, Threshold, Holds, Distinct, IndexOf;
    answer := 0;
    match op {
      case InsertOp(k, v, entryOk, tableOk) => answer := h.Insert(k, v, entryOk, tableOk);
      case LookupOp(k) => answer := h.Lookup(k);
      case RemoveOp(k) => answer := h.RemoveKey(k);
      case ResizeOp(capacity, tableOk) => answer := h.Resize(capacity, tableOk);
      case ClearOp => h.Clear();
    }
  }

  /** Refinement over whole runs: under any calls and any allocation failures the table holds the pairs
      of the abstract map, has the size that those calls lead to, and gives the answers of the map. */
  method Execute(h: Table, ops: seq<Op>) returns (answers: seq<int>)
    requires h.Valid()
    modifies h.Repr()
    ensures h.Valid() && fresh(h.Repr() - old(h.Repr()))
    ensures StateOf(h) == Run(ModeOf(h), old(StateOf(h)), ops) && answers == Answers(ModeOf(h), old(StateOf(h)), ops)
  {
    hide ChainsOk, UniqueKeys, GoodCallbacks, Threshold, Holds, Step, Answer, Distinct;
    ghost var start := StateOf(h);
    answers := [];
    assert ops[..0] == [];
    for i := 0 to |ops|
      invariant h.Valid() && fresh(h.Repr() - old(h.Repr()))
      invariant StateOf(h) == Run(ModeOf(h), start, ops[..i]) && answers == Answers(ModeOf(h), start, ops[..i])
    {
      assert ops[..i + 1][..i] == ops[..i];
      var answer := Call(h, ops[i]);
      answers := answers + [answer];
    }
    assert ops[..|ops|] == ops;
  }

  // ---- what lookups answer ----

  /** The value that k was last given, by an insert of an equal key that succeeded, with no removal of an
      equal key and no clear since. */
  function Latest(m: Mode, ops: seq<Op>, k: Ptr): Option<Ptr> {
    if ops == [] then None else
      var before := Latest(m, ops[..|ops| - 1], k);
      match ops[|ops| - 1]
      case InsertOp(k', v, entryOk, _) => if m.eq(k', k) && (entryOk || before.Some?) then Some(v) else before
      case RemoveOp(k') => if m.eq(k', k) then None else before
      case ClearOp => None
      case _ => before
  }

  ghost predicate GoodMode(m: Mode) { exists hash :: GoodCallbacks(m.eq, hash) }

  /** In a table that started empty, exactly the keys with such a value are found, with that value. */
  lemma {:induction false} HoldsLatest(m: Mode, size: nat, ops: seq<Op>, k: Ptr)
    requires GoodMode(m)
    ensures var s := Run(m, State([], size), ops).pairs;
      && UniqueKeys(m.eq, s)
      && (Has(m.eq, s, k) <==> Latest(m, ops, k).Some?)
      && Get(m.eq, s, k) == if Latest(m, ops, k).Some? then Latest(m, ops, k).value else NULL
  {
    var start := State([], size);
    var hash :| GoodCallbacks(m.eq, hash);
    hide Step, Has, Get, UniqueKeys, GoodMode, GoodCallbacks;
    if ops == [] {
      NothingHeld(m.eq, k);
    } else {
      var before, op := ops[..|ops| - 1], ops[|ops| - 1];
      HoldsLatest(m, size, before, k);
      MapStep(m, Run(m, start, before), op, k);
      if op.InsertOp? && m.eq(op.k, k) {
        SameKey(m.eq, hash, Run(m, start, before).pairs, op.k, k);
      }
    }
  }

  /** One call, as a change of the map. */
  lemma MapStep(m: Mode, s: State, op: Op, k: Ptr)
    requires GoodMode(m) && UniqueKeys(m.eq, s.pairs)
    ensures var t := Step(m, s, op).pairs;
      && UniqueKeys(m.eq, t)
      && match op
         case InsertOp(k', v, entryOk, _) =>
           if m.eq(k', k) && (entryOk || Has(m.eq, s.pairs, k')) then Has(m.eq, t, k) && Get(m.eq, t, k) == v
           else Has(m.eq, t, k) == Has(m.eq, s.pairs, k) && Get(m.eq, t, k) == Get(m.eq, s.pairs, k)
         case RemoveOp(k') =>
           if m.eq(k', k) then !Has(m.eq, t, k) && Get(m.eq, t, k) == NULL
           else Has(m.eq, t, k) == Has(m.eq, s.pairs, k) && Get(m.eq, t, k) == Get(m.eq, s.pairs, k)
         case ClearOp => !Has(m.eq, t, k) && Get(m.eq, t, k) == NULL
         case _ => t == s.pairs
  {
    var hash :| GoodCallbacks(m.eq, hash);
    match op
    case InsertOp(k', v, entryOk, _) =>
      InsertIsMapUpdate(m.eq, hash, s.pairs, k', v, k);
      InsertKeepsUnique(m.eq, hash, s.pairs, k', v);
    case RemoveOp(k') =>
      RemoveIsMapRemove(m.eq, hash, s.pairs, k', k);
      RemoveKeepsUnique(m.eq, s.pairs, k');
    case _ =>
  }

  lemma {:induction false} AnswerAt(m: Mode, s: State, ops: seq<Op>, i: nat)
    requires i < |ops|
    ensures Answers(m, s, ops)[i] == Answer(m, Run(m, s, ops[..i]), ops[i])
  {
    hide Answer, Run;
    var n := |ops| - 1;
    if i < n {
      AnswerAt(m, s, ops[..n], i);
      assert ops[..n][..i] == ops[..i];
    }
  }

  /** A lookup anywhere in a run answers the value that its key was last given, or NULL. */
  lemma LookupInRun(m: Mode, size: nat, ops: seq<Op>, i: nat)
    requires GoodMode(m) && i < |ops| && ops[i].LookupOp?
    ensures Answers(m, State([], size), ops)[i]
         == match Latest(m, ops[..i], ops[i].k) case Some(v) => v case None => NULL
  {
    AnswerAt(m, State([], size), ops, i);
    HoldsLatest(m, size, ops[..i], ops[i].k);
  }

  // ---- how full the table gets ----

  /** Without automatic resizing only a resize changes the size. */
  lemma {:induction false} FixedSize(m: Mode, s: State, ops: seq<Op>)
    requires !m.auto && forall i :: 0 <= i < |ops| ==> !ops[i].ResizeOp?
    ensures Run(m, s, ops).size == s.size
  {
    if ops != [] {
      FixedSize(m, s, ops[..|ops| - 1]);
    }
  }

  /** Every table that an insert asks for is allocated. */
  predicate GrowthSucceeds(ops: seq<Op>) {
    forall i :: 0 <= i < |ops| && ops[i].InsertOp? ==> ops[i].tableOk
  }

  /** As long as the table can grow, it holds no more entries than its threshold. */
  predicate Bounded(s: State, f: real) {
    s.size < MAX_TABLE_SIZE ==> |s.pairs| <= Threshold(s.size, f)
  }

  ghost predicate LoadInv(count: nat, size: nat, f: real) {
    && IsPow2(size) && size <= MAX_TABLE_SIZE
    && (Kept(count, size, f, 0) || AtTop(count, size, f) || (count == 0 && Narrow(size, f)))
  }

  /** One doubling short of the greatest size the bound keeps itself. */
  predicate AtTop(count: nat, size: nat, f: real) { 2 * size == MAX_TABLE_SIZE && count <= Threshold(size, f) }

  lemma LoadStep(m: Mode, s: State, op: Op)
    requires m.auto && 0.0 <= m.factor && LoadInv(|s.pairs|, s.size, m.factor) && (op.InsertOp? ==> op.tableOk)
    ensures LoadInv(|Step(m, s, op).pairs|, Step(m, s, op).size, m.factor)
  {
    hide LoadInv, IndexOf, AutoSize, Remove, NormalSize;
    var n := |s.pairs|;
    InvSize(n, s.size, m.factor);
    match op
    case InsertOp(k, v, entryOk, _) =>
      InsertLength(m.eq, s.pairs, k, v, false);
      if IndexOf(m.eq, s.pairs, k) < 0 {
        LoadInsert(n, s.size, m.factor);
      }
    case LookupOp(_) =>
    case RemoveOp(k) =>
      RemoveShortens(m.eq, s.pairs, k);
      LoadOn(n, s.size, |Remove(m.eq, s.pairs, k)|, s.size, m.factor);
    case ResizeOp(capacity, tableOk) =>
      ResizedOk(capacity, tableOk, s.size);
      LoadOn(n, s.size, n, Step(m, s, op).size, m.factor);
    case ClearOp => LoadOn(n, s.size, 0, s.size, m.factor);
  }

  lemma InvSize(count: nat, size: nat, f: real)
    requires LoadInv(count, size, f)
    ensures IsPow2(size) && size <= MAX_TABLE_SIZE
  {}

  /** After the automatic resize there is room for a new entry, whether it comes or not. */
  lemma LoadInsert(count: nat, size: nat, f: real)
    requires LoadInv(count, size, f) && 0.0 <= f
    ensures var size' := AutoSize(true, true, count, size, f); LoadInv(count, size', f) && LoadInv(count + 1, size', f)
  {
    hide IsPow2;
    AutoSizeOk(true, true, count, size, f);
    var size' := AutoSize(true, true, count, size, f);
    if Kept(count, size, f, 0) {
      KeptGrown(count, size, f);
    } else if !AtTop(count, size, f) {
      NarrowDoubles(size, 2 * size, f);
    }
  }

  lemma LoadOn(count: nat, size: nat, count': nat, size': nat, f: real)
    requires LoadInv(count, size, f) && 0.0 <= f && count' <= count && IsPow2(size') && size <= size' <= MAX_TABLE_SIZE
    ensures LoadInv(count', size', f)
  {
    if size < size' {
      Pow2Gap(size, size');
    }
    if 2 * size < size' {
      DoubleIsPow2(size);
      Pow2Gap(2 * size, size');
    }
    hide IsPow2;
    if Kept(count, size, f, 0) {
      KeptOn(count, size, count', size', f, 0);
    } else if !AtTop(count, size, f) && size < size' {
      NarrowDoubles(size, size', f);
    }
  }

  lemma {:induction false} LoadRun(m: Mode, s: State, ops: seq<Op>)
    requires m.auto && 0.0 <= m.factor && LoadInv(|s.pairs|, s.size, m.factor) && GrowthSucceeds(ops)
    ensures LoadInv(|Run(m, s, ops).pairs|, Run(m, s, ops).size, m.factor)
  {
    hide LoadInv, Step;
    if ops != [] {
      var before := ops[..|ops| - 1];
      LoadRun(m, s, before);
      LoadStep(m, Run(m, s, before), ops[|ops| - 1]);
    }
  }

  lemma InvBounded(s: State, f: real)
    requires LoadInv(|s.pairs|, s.size, f) && 0.0 <= f
    ensures Bounded(s, f)
  {
    ThresholdMono(0, s.size, f);
  }

  /** The exact condition for the load bound over all runs: a table that starts empty with some size never
      holds more entries than its threshold, as long as it can grow and whatever is called, if and only if
      size times load factor is at least 3/4 or lies in [3/8, 1/2) ([1/4, 1/2) when two doublings give the
      greatest size, and anything from half of that on). */
  lemma BoundIff(m: Mode, size: nat, k: Ptr, k': Ptr)
    requires m.auto && 0.0 <= m.factor && IsPow2(size) && size <= MAX_TABLE_SIZE && !m.eq(k, k')
    ensures (forall ops :: GrowthSucceeds(ops) ==> Bounded(Run(m, State([], size), ops), m.factor))
       <==> PlainStart(size, m.factor)
  {
    var s, f := State([], size), m.factor;
    if PlainStart(size, f) {
      forall ops | GrowthSucceeds(ops) ensures Bounded(Run(m, s, ops), f) {
        EmptyInv(size, f);
        LoadRun(m, s, ops);
        InvBounded(Run(m, s, ops), f);
      }
    } else {
      QuarterFits(size);
      TwoInserts(m, size, k, k');
      var op, op' := InsertOp(k, 0, true, true), InsertOp(k', 0, true, true);
      assert GrowthSucceeds([op]) && GrowthSucceeds([op] + [op']);
    }
  }

  lemma QuarterFits(size: nat)
    requires IsPow2(size) && 2 * size < MAX_TABLE_SIZE
    ensures 4 * size <= MAX_TABLE_SIZE
  {
    MaxIsPow2();
    DoubleIsPow2(size);
    Pow2Gap(2 * size, MAX_TABLE_SIZE);
  }

  lemma EmptyInv(size: nat, f: real)
    requires IsPow2(size) && size <= MAX_TABLE_SIZE && 0.0 <= f && PlainStart(size, f)
    ensures LoadInv(0, size, f)
  {
    DoubleFits(size);
    hide IsPow2;
    ThresholdMono(0, size, f);
    if LargeEnough(size, f) {
      KeptEmpty(size, f, 0);
    }
  }

  lemma TwoInserts(m: Mode, size: nat, k: Ptr, k': Ptr)
    requires m.auto && 0.0 <= m.factor && 4 * size <= MAX_TABLE_SIZE && !m.eq(k, k') && !PlainStart(size, m.factor)
    ensures var op, op' := InsertOp(k, 0, true, true), InsertOp(k', 0, true, true);
      !Bounded(Run(m, State([], size), [op]), m.factor) || !Bounded(Run(m, State([], size), [op] + [op']), m.factor)
  {
    hide Threshold;
    var s, op, op' := State([], size), InsertOp(k, 0, true, true), InsertOp(k', 0, true, true);
    var size1 := AutoSize(true, true, 0, size, m.factor);
    var size2 := AutoSize(true, true, 1, size1, m.factor);
    TooMany(size, m.factor);
    assert size2 <= MAX_TABLE_SIZE;
    hide AutoSize;
    RunSnoc(m, s, [], op);
    RunSnoc(m, s, [op], op');
    assert [] + [op] == [op];
    assert [(k, 0)] + [] == [(k, 0)];
    assert Run(m, s, [op]) == State([(k, 0)], size1);
    assert IndexOf(m.eq, [(k, 0)], k') < 0;
    assert Run(m, s, [op] + [op']) == State([(k', 0)] + [(k, 0)], size2);
  }

  lemma RunSnoc(m: Mode, s: State, ops: seq<Op>, op: Op)
    ensures Run(m, s, ops + [op]) == Step(m, Run(m, s, ops), op)
  {
    hide Step;
    assert (ops + [op])[..|ops|] == ops;
  }

  /** The bound of every table that hashtbl_create makes and any calls change. */
  method CreateAndRun(capacity: int, loadFactor: real, hash: Ptr -> nat, equals: (Ptr, Ptr) -> bool, ops: seq<Op>)
      returns (h: Table, answers: seq<int>)
    requires GoodCallbacks(equals, hash)
    ensures var f := ClampLoadFactor(loadFactor);
      && h.Valid() && StateOf(h) == Run(Mode(equals, true, f), State([], NormalSize(capacity)), ops)
      && answers == Answers(Mode(equals, true, f), State([], NormalSize(capacity)), ops)
    ensures var f, size := ClampLoadFactor(loadFactor), NormalSize(capacity);
      GrowthSucceeds(ops) && PlainStart(size, f) && h.table.Length < MAX_TABLE_SIZE ==>
        h.nentries <= Threshold(h.table.Length, f)
    ensures ClampLoadFactor(loadFactor) >= 0.75 ==> PlainStart(NormalSize(capacity), ClampLoadFactor(loadFactor))
  {
    hide ChainsOk, UniqueKeys, GoodCallbacks, Threshold, Holds, IsNormalCapacity, ClampLoadFactor, Distinct, NormalSize;
    var t := Create(capacity, loadFactor, true, hash, equals, true, true);
    h := t;
    NormalSizeOk(capacity);
    ghost var f, size := h.maxLoadFactor, NormalSize(capacity);
    FullFactor(size, f);
    answers := Execute(h, ops);
    if GrowthSucceeds(ops) && PlainStart(size, f) {
      EmptyInv(size, f);
      LoadRun(ModeOf(h), State([], size), ops);
      InvBounded(StateOf(h), f);
    }
  }
}
