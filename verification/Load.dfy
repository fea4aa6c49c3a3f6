/** How full the two hash tables of c-hacks get: the arithmetic behind their automatic resizing
    (c-hacks/src/hashtbl.c and c-hacks/src/linked-hashtbl.c). */
module Load {
  import opened Bits
  import opened Chains

  /** From this size on, doubling the table raises its threshold (see DoublingRaisesThreshold). */
  predicate LargeEnough(size: nat, loadFactor: real) {
    size as real * loadFactor >= 0.75
  }

  /** The load is under control: the table has its greatest size, or is large enough and holds no more
      entries than its threshold, with `slack` to spare. */
  ghost predicate Kept(count: nat, size: nat, loadFactor: real, slack: nat) {
    size == MAX_TABLE_SIZE || (LargeEnough(size, loadFactor) && count + slack <= Threshold(size, loadFactor))
  }

  /** Fewer entries or more room keep it so. */
  lemma KeptOn(count: nat, size: nat, count': nat, size': nat, loadFactor: real, slack: nat)
    requires Kept(count, size, loadFactor, slack) && 0.0 <= loadFactor && size <= size' <= MAX_TABLE_SIZE && count' <= count
    ensures Kept(count', size', loadFactor, slack)
  {
    ThresholdMono(size, size', loadFactor);
  }

  lemma KeptEmpty(size: nat, loadFactor: real, slack: nat)
    requires LargeEnough(size, loadFactor) && slack <= 1
    ensures Kept(0, size, loadFactor, slack)
  {}

  /** The automatic resize makes room for one entry more. */
  lemma KeptGrown(count: nat, size: nat, loadFactor: real)
    requires IsPow2(size) && size <= MAX_TABLE_SIZE && 0.0 <= loadFactor && Kept(count, size, loadFactor, 0)
    ensures Kept(count, AutoSize(true, true, count, size, loadFactor), loadFactor, 1)
  {
    DoublingRaisesThreshold(size, loadFactor);
    ThresholdMono(size, 2 * size, loadFactor);
  }

  lemma AutoSizeOk(auto: bool, ok: bool, count: nat, size: nat, loadFactor: real)
    requires IsPow2(size) && size <= MAX_TABLE_SIZE
    ensures var size' := AutoSize(auto, ok, count, size, loadFactor); IsPow2(size') && size <= size' <= MAX_TABLE_SIZE
  {
    MaxIsPow2();
    DoubleIsPow2(size);
    if size < MAX_TABLE_SIZE {
      Pow2Gap(size, MAX_TABLE_SIZE);
    }
  }

  lemma ResizedOk(capacity: int, ok: bool, size: nat)
    requires IsPow2(size) && size <= MAX_TABLE_SIZE
    ensures var size' := if ok then Greater(NormalSize(capacity), size) else size; IsPow2(size') && size <= size' <= MAX_TABLE_SIZE
  {
    NormalSizeOk(capacity);
  }

  /** A table this small is full to its threshold with one entry, before and after it doubles. */
  lemma SmallThresholds(size: nat, f: real)
    requires 0.0 <= f && !LargeEnough(size, f)
    ensures Threshold(size, f) <= 1 && Threshold(2 * size, f) <= 1
  {
    assert (2 * size) as real * f == 2.0 * (size as real * f);
  }

  /** One doubling short of the greatest size, with room for an entry at least. */
  predicate HalfWay(size: nat, f: real) { 2 * size == MAX_TABLE_SIZE && size as real * f >= 0.5 }

  lemma HalfThreshold(size: nat, f: real)
    requires !LargeEnough(size, f) && 0.0 <= f
    ensures Threshold(size, f) == if size as real * f >= 0.5 then 1 else 0
  {}

  /** Sizes too small for a threshold of 1 of their own, but with enough room once doubled: for all that
      follows, or because only one doubling is then left. */
  predicate Narrow(size: nat, f: real) {
    0.375 <= size as real * f < 0.5 || (4 * size == MAX_TABLE_SIZE && 0.25 <= size as real * f < 0.5)
  }

  lemma NarrowDoubles(size: nat, size': nat, f: real)
    requires Narrow(size, f) && 0.0 <= f && 2 * size <= size'
    ensures Threshold(size, f) == 0 && 1 <= Threshold(size', f) && (LargeEnough(size', f) || 4 * size == MAX_TABLE_SIZE)
  {
    var x, y := size as real * f, size' as real * f;
    assert (2 * size) as real * f == 2.0 * x;
    ThresholdMono(2 * size, size', f);
    assert 2.0 * x <= y;
    if 0.375 <= x {
      assert y >= 0.75;
    }
    HalfThreshold(size, f);
    assert (2.0 * x + 0.5).Floor >= 1;
  }

  /** The sizes at which an empty plain table can start. */
  predicate PlainStart(size: nat, f: real) {
    2 * size >= MAX_TABLE_SIZE || LargeEnough(size, f) || Narrow(size, f)
  }

  /** At any other size, two entries are too many, wherever two automatic resizes lead; if that is the
      greatest size, one entry is already too many before. */
  lemma TooMany(size: nat, f: real)
    requires 0.0 <= f && !PlainStart(size, f) && (4 * size < MAX_TABLE_SIZE || 4 * size == MAX_TABLE_SIZE)
    ensures var size1 := AutoSize(true, true, 0, size, f);
      var size2 := AutoSize(true, true, 1, size1, f);
      && size1 < MAX_TABLE_SIZE && (size2 == MAX_TABLE_SIZE ==> Threshold(size1, f) < 1)
      && (size2 < MAX_TABLE_SIZE ==> Threshold(size2, f) < 2)
  {
    var x := size as real * f;
    assert (2 * size) as real * f == 2.0 * x && (4 * size) as real * f == 4.0 * x;
  }

  /** A load factor of at least 3/4 is enough for every size. */
  lemma FullFactor(size: nat, loadFactor: real)
    requires size >= 1
    ensures loadFactor >= 0.75 ==> LargeEnough(size, loadFactor)
  {
    if loadFactor >= 0.75 {
      assert (size - 1) as real * loadFactor >= 0.0;
      assert size as real * loadFactor == loadFactor + (size - 1) as real * loadFactor;
    }
  }
}
