/** How full the linked hash table of c-hacks/src/linked-hashtbl.c gets over whole runs. */
module LinkedLoad {
  import opened Bits
  import opened RecencyList
  import opened Chains
  import opened Ring
  import opened Load
  import opened LinkedHashtbl
  import opened LinkedRuns

  /** Every table that an insert asks for is allocated. */
  predicate GrowthSucceeds(ops: seq<Op>) {
    forall i :: 0 <= i < |ops| && ops[i].InsertOp? ==> ops[i].tableOk
  }

  /** As long as the table can grow, it holds fewer entries than its threshold. */
  predicate Bounded(count: nat, size: nat, f: real) {
    size < MAX_TABLE_SIZE ==> count < Threshold(size, f)
  }

  ghost predicate LoadInv(count: nat, size: nat, f: real) {
    IsPow2(size) && size <= MAX_TABLE_SIZE && (Kept(count, size, f, 1) || (count == 0 && HalfWay(size, f)))
  }

  /** The sizes at which an empty table can start. */
  predicate LinkedStart(size: nat, f: real) {
    size == MAX_TABLE_SIZE || LargeEnough(size, f) || HalfWay(size, f)
  }

  lemma LoadStep(m: Mode, z: Sizing, s: Pairs, size: nat, op: Op)
    requires z.auto && 0.0 <= z.factor && LoadInv(|s|, size, z.factor) && (op.InsertOp? ==> op.tableOk)
    ensures LoadInv(|Step(m, s, op)|, SizeStep(m, z, s, size, op), z.factor)
  {
    hide LoadInv, IndexOf, AutoSize, Remove, NormalSize, InsertEvict, Touch;
    match op
    case InsertOp(k, v, entryOk, _, evict) =>
      InsertLength(m.eq, s, k, v, evict);
      if IndexOf(m.eq, s, k) < 0 && entryOk {
        LoadInsert(|s|, |Step(m, s, op)|, size, z.factor);
      }
    case LookupOp(k) => TouchLength(m.eq, m.accessOrder, s, k);
    case RemoveOp(k) =>
      RemoveShortens(m.eq, s, k);
      InvSize(|s|, size, z.factor);
      LoadOn(|s|, size, |Remove(m.eq, s, k)|, size, z.factor);
    case ResizeOp(capacity, tableOk) =>
      InvSize(|s|, size, z.factor);
      ResizedOk(capacity, tableOk, size);
      LoadOn(|s|, size, |s|, SizeStep(m, z, s, size, op), z.factor);
    case ClearOp =>
      InvSize(|s|, size, z.factor);
      LoadOn(|s|, size, 0, size, z.factor);
  }

  lemma InvSize(count: nat, size: nat, f: real)
    requires LoadInv(count, size, f)
    ensures IsPow2(size) && size <= MAX_TABLE_SIZE
  {}

  lemma LoadOn(count: nat, size: nat, count': nat, size': nat, f: real)
    requires LoadInv(count, size, f) && 0.0 <= f && count' <= count && IsPow2(size') && size <= size' <= MAX_TABLE_SIZE
    ensures LoadInv(count', size', f)
  {
    if Kept(count, size, f, 1) {
      KeptOn(count, size, count', size', f, 1);
    } else if size < size' {
      Pow2Gap(size, size');
    }
  }

  lemma LoadInsert(count: nat, count': nat, size: nat, f: real)
    requires LoadInv(count, size, f) && 0.0 <= f && count' <= count + 1
    ensures LoadInv(count', AutoSize(true, true, count', size, f), f)
  {
    hide IsPow2;
    AutoSizeOk(true, true, count', size, f);
    if count == 0 && LargeEnough(size, f) {
      KeptEmpty(size, f, 1);
    }
    if Kept(count, size, f, 1) {
      KeptOneMore(count, size, f);
      KeptOn(count + 1, size, count', size, f, 0);
      KeptGrown(count', size, f);
    } else {
      HalfThreshold(size, f);
    }
  }

  lemma KeptOneMore(count: nat, size: nat, f: real)
    requires Kept(count, size, f, 1)
    ensures Kept(count + 1, size, f, 0)
  {}

  lemma {:induction false} LoadRun(m: Mode, z: Sizing, size: nat, ops: seq<Op>)
    requires z.auto && 0.0 <= z.factor && LoadInv(0, size, z.factor) && GrowthSucceeds(ops)
    ensures LoadInv(|Run(m, [], ops)|, SizeRun(m, z, [], size, ops), z.factor)
  {
    hide LoadInv, Step, SizeStep;
    if ops != [] {
      var before := ops[..|ops| - 1];
      LoadRun(m, z, size, before);
      LoadStep(m, z, Run(m, [], before), SizeRun(m, z, [], size, before), ops[|ops| - 1]);
    }
  }

  lemma EmptyInv(size: nat, f: real)
    requires IsPow2(size) && size <= MAX_TABLE_SIZE && LinkedStart(size, f)
    ensures LoadInv(0, size, f)
  {
    hide IsPow2;
    if LargeEnough(size, f) {
      KeptEmpty(size, f, 1);
    }
  }

  lemma InvBounded(count: nat, size: nat, f: real)
    requires LoadInv(count, size, f) && 0.0 <= f
    ensures Bounded(count, size, f)
  {
    hide IsPow2;
    if !LargeEnough(size, f) {
      HalfThreshold(size, f);
    }
  }

  /** The exact condition for the load bound over all runs: a table that starts empty with some size always
      holds fewer entries than its threshold, as long as it can grow and whatever is called, if and only if
      size times load factor is at least 3/4 (1/2 when one doubling gives the greatest size, and anything at
      that size). */
  lemma BoundIff(m: Mode, z: Sizing, size: nat)
    requires z.auto && 0.0 <= z.factor && IsPow2(size) && size <= MAX_TABLE_SIZE
    ensures (forall ops :: GrowthSucceeds(ops) ==> Bounded(|Run(m, [], ops)|, SizeRun(m, z, [], size, ops), z.factor))
       <==> LinkedStart(size, z.factor)
  {
    DoubleFits(size);
    hide IsPow2;
    if LinkedStart(size, z.factor) {
      forall ops | GrowthSucceeds(ops) ensures Bounded(|Run(m, [], ops)|, SizeRun(m, z, [], size, ops), z.factor) {
        EmptyInv(size, z.factor);
        LoadRun(m, z, size, ops);
        InvBounded(|Run(m, [], ops)|, SizeRun(m, z, [], size, ops), z.factor);
      }
    } else if 2 * size < MAX_TABLE_SIZE {
      var ops := [InsertOp(0, 0, true, true, false)];
      OneInsert(m, z, size, ops[0]);
      assert GrowthSucceeds(ops);
      assert !Bounded(|Run(m, [], ops)|, SizeRun(m, z, [], size, ops), z.factor);
    } else {
      HalfThreshold(size, z.factor);
      assert GrowthSucceeds([]);
      assert !Bounded(|Run(m, [], [])|, SizeRun(m, z, [], size, []), z.factor);
    }
  }

  lemma OneInsert(m: Mode, z: Sizing, size: nat, op: Op)
    requires z.auto && 0.0 <= z.factor && 2 * size < MAX_TABLE_SIZE && !LargeEnough(size, z.factor)
    requires op.InsertOp? && op.entryOk && op.tableOk && !op.evict
    ensures !Bounded(|Run(m, [], [op])|, SizeRun(m, z, [], size, [op]), z.factor)
  {
    SmallThresholds(size, z.factor);
    hide Threshold;
    assert [op][..0] == [];
    assert Run(m, [], [op]) == Step(m, [], op) == [(op.k, op.v)];
    assert SizeRun(m, z, [], size, [op]) == SizeStep(m, z, [], size, op);
  }

  /** The bound of every table that l_hashtbl_create makes and any calls change. */
  method CreateAndRun(capacity: int, loadFactor: real, order: bool, hash: Ptr -> nat, equals: (Ptr, Ptr) -> bool,
                      ops: seq<Op>) returns (h: Table, answers: seq<int>)
    requires GoodCallbacks(equals, hash)
    ensures h.Valid() && h.contents == Run(Mode(equals, order), [], ops)
    ensures var m, z, size := Mode(equals, order), Sizing(true, ClampLoadFactor(loadFactor)), NormalSize(capacity);
      && h.table.Length == SizeRun(m, z, [], size, ops) && answers == Answers(m, z, [], size, ops)
      && (GrowthSucceeds(ops) && LinkedStart(size, z.factor) && h.table.Length < MAX_TABLE_SIZE ==>
            h.nentries < Threshold(h.table.Length, z.factor))
      && (z.factor >= 0.75 ==> LinkedStart(size, z.factor))
  {
    hide ChainsOk, RingOk, UniqueKeys, GoodCallbacks, Threshold, Holds, IsNormalCapacity, ClampLoadFactor, NormalSize;
    var t := Create(capacity, loadFactor, true, order, hash, equals, true, true);
    h := t;
    NormalSizeOk(capacity);
    ghost var m, z, size := Mode(equals, order), Sizing(true, h.maxLoadFactor), NormalSize(capacity);
    FullFactor(size, z.factor);
    answers := Execute(h, ops);
    if GrowthSucceeds(ops) && LinkedStart(size, z.factor) {
      EmptyInv(size, z.factor);
      LoadRun(m, z, size, ops);
      InvBounded(h.nentries, h.table.Length, z.factor);
    }
  }
}
