/** Powers of two, bitwise AND on naturals, and the capacity arithmetic that both
    hash tables share (c-hacks/src/hashtbl.c and c-hacks/src/linked-hashtbl.c). */
module Bits {

  type Byte = b: nat | b < 256

  const MAX_TABLE_SIZE: nat := 0x4000_0000

  function Pow2(k: nat): (r: nat)
    ensures r >= 1
  {
    if k == 0 then 1 else 2 * Pow2(k - 1)
  }

  ghost predicate IsPow2(x: nat) {
    exists k: nat :: x == Pow2(k)
  }

  /** Bitwise AND, bit by bit from the low end. */
  function BitAnd(x: nat, y: nat): (r: nat)
    ensures r <= x && r <= y
  {
    if x == 0 || y == 0 then 0
    else (if x % 2 == 1 && y % 2 == 1 then 1 else 0) + 2 * BitAnd(x / 2, y / 2)
  }

  /** Masking with 2^k - 1 is the remainder modulo 2^k. */
  lemma {:induction false} MaskIsMod(h: nat, k: nat)
    ensures BitAnd(h, Pow2(k) - 1) == h % Pow2(k)
  {
    hide BitAnd;
    if h == 0 {
      MaskOfZero(Pow2(k));
    } else if k == 0 {
      MaskToZero(h);
    } else {
      MaskIsMod(h / 2, k - 1);
      MaskStep(h, Pow2(k - 1));
    }
  }

  lemma MaskOfZero(p: nat)
    requires p >= 1
    ensures BitAnd(0, p - 1) == 0 % p
  {
    ModUnique(0, p, 0, 0);
  }

  lemma MaskToZero(h: nat)
    ensures BitAnd(h, 1 - 1) == h % 1
  {}

  lemma MaskStep(h: nat, p: nat)
    requires p >= 1 && h >= 1 && BitAnd(h / 2, p - 1) == (h / 2) % p
    ensures BitAnd(h, 2 * p - 1) == h % (2 * p)
  {
    ModDouble(h, p);
    AndOdd(h, p);
  }

  /** The low bit of an odd mask passes the low bit of h. */
  lemma AndOdd(h: nat, p: nat)
    requires p >= 1 && h >= 1
    ensures BitAnd(h, 2 * p - 1) == h % 2 + 2 * BitAnd(h / 2, p - 1)
  {
    assert (2 * p - 1) / 2 == p - 1 && (2 * p - 1) % 2 == 1;
  }

  lemma ModDouble(h: nat, p: nat)
    requires p >= 1
    ensures h % (2 * p) == h % 2 + 2 * ((h / 2) % p)
  {
    var q, r := (h / 2) / p, (h / 2) % p;
    assert h == 2 * (h / 2) + h % 2;
    assert h / 2 == p * q + r;
    assert h == (2 * p) * q + (h % 2 + 2 * r) by {
      assert 2 * (p * q) == (2 * p) * q;
    }
    ModUnique(h, 2 * p, q, h % 2 + 2 * r);
  }

  lemma ModUnique(h: nat, m: nat, q: nat, r: nat)
    requires m >= 1 && r < m && h == m * q + r
    ensures h % m == r && h / m == q
  {
    assert h == m * (h / m) + h % m;
    QuotientUnique(m, q, r, h / m, h % m);
  }

  lemma QuotientUnique(m: nat, q: nat, r: nat, q': nat, r': nat)
    requires r < m && r' < m && m * q + r == m * q' + r'
    ensures q == q' && r == r'
  {
    if q < q' {
      MulGap(m, q, q');
      assert false;
    } else if q' < q {
      MulGap(m, q', q);
      assert false;
    }
  }

  lemma {:induction false} MulGap(m: nat, q: nat, q': nat)
    requires q < q'
    ensures m * q + m <= m * q'
    decreases q'
  {
    assert m * q' == m * (q' - 1) + m;
    if q + 1 < q' {
      MulGap(m, q, q' - 1);
    }
  }

  /** The C test `(x & (x - 1)) == 0` holds of a positive x exactly when x is a power of two. */
  lemma {:induction false} PowerOfTwoTest(x: nat)
    requires x >= 1
    ensures BitAnd(x, x - 1) == 0 <==> IsPow2(x)
  {
    hide BitAnd, IsPow2;
    if x % 2 == 0 {
      PowerOfTwoTest(x / 2);
      AndHalves(x);
      HalfIsPow2(x);
    } else if x > 1 {
      AndOfOdd(x);
      OddIsNotPow2(x);
    } else {
      OneIsPow2();
    }
  }

  lemma OneIsPow2()
    ensures IsPow2(1) && BitAnd(1, 0) == 0
  {
    assert Pow2(0) == 1;
  }

  lemma AndHalves(x: nat)
    requires x >= 2 && x % 2 == 0
    ensures BitAnd(x, x - 1) == 2 * BitAnd(x / 2, x / 2 - 1)
  {
    assert (x - 1) / 2 == x / 2 - 1;
  }

  lemma HalfIsPow2(x: nat)
    requires x >= 2 && x % 2 == 0
    ensures IsPow2(x) <==> IsPow2(x / 2)
  {
    if IsPow2(x / 2) {
      var k: nat :| x / 2 == Pow2(k);
      assert x == Pow2(k + 1);
    }
    if IsPow2(x) {
      var k: nat :| x == Pow2(k);
      assert x / 2 == Pow2(k - 1);
    }
  }

  lemma AndOfOdd(x: nat)
    requires x > 1 && x % 2 == 1
    ensures BitAnd(x, x - 1) == 2 * (x / 2)
  {
    assert (x - 1) / 2 == x / 2 && (x - 1) % 2 == 0;
    AndSelf(x / 2);
  }

  lemma OddIsNotPow2(x: nat)
    requires x > 1 && x % 2 == 1
    ensures !IsPow2(x)
  {
    forall k: nat ensures x != Pow2(k) {
      if k > 0 {
        assert Pow2(k) == 2 * Pow2(k - 1);
      }
    }
  }

  lemma {:induction false} AndSelf(x: nat)
    ensures BitAnd(x, x) == x
  {
    if x != 0 {
      AndSelf(x / 2);
    }
  }

  lemma {:induction false} Pow2Mono(i: nat, j: nat)
    requires i <= j
    ensures Pow2(i) <= Pow2(j)
  {
    if i < j {
      Pow2Mono(i, j - 1);
    }
  }

  lemma {:induction false} Pow2Gap(x: nat, y: nat)
    requires IsPow2(x) && IsPow2(y) && x < y
    ensures 2 * x <= y
  {
    var i: nat :| x == Pow2(i);
    var j: nat :| y == Pow2(j);
    if i >= j {
      Pow2Mono(j, i);
    } else {
      Pow2Mono(i + 1, j);
    }
  }

  /** A slot is always inside a power-of-two table, and equals hash mod size. */
  lemma SlotBound(hv: nat, size: nat)
    requires IsPow2(size)
    ensures size >= 1 && BitAnd(hv, size - 1) == hv % size < size
  {
    var k: nat :| size == Pow2(k);
    MaskIsMod(hv, k);
  }

  /** roundup_to_next_power_of_2: the least power of two that is not below x. */
  method RoundUp(x: int) returns (n: nat)
    requires x <= MAX_TABLE_SIZE
    ensures IsPow2(n) && x <= n <= MAX_TABLE_SIZE
    ensures forall m: nat :: IsPow2(m) && x <= m ==> n <= m
  {
    n := 1;
    assert IsPow2(1) by { assert 1 == Pow2(0); }
    assert IsPow2(MAX_TABLE_SIZE) by { MaxIsPow2(); }
    while n < x
      invariant IsPow2(n) && 1 <= n <= MAX_TABLE_SIZE
      invariant forall m: nat :: IsPow2(m) && x <= m ==> n <= m
      decreases x - n
    {
      DoubleIsPow2(n);
      forall m: nat | IsPow2(m) && x <= m ensures 2 * n <= m {
        Pow2Gap(n, m);
      }
      Pow2Gap(n, MAX_TABLE_SIZE);
      n := 2 * n;
    }
  }

  lemma DoubleIsPow2(n: nat)
    requires IsPow2(n)
    ensures IsPow2(2 * n)
  {
    var k: nat :| n == Pow2(k);
    assert 2 * n == Pow2(k + 1);
  }

  lemma MaxIsPow2()
    ensures IsPow2(MAX_TABLE_SIZE)
  {
    assert Pow2(10) == 1024;
    assert Pow2(20) == 1024 * 1024 by {
      assert Pow2(15) == 32 * Pow2(10);
      assert Pow2(20) == 32 * Pow2(15);
    }
    assert Pow2(25) == 32 * Pow2(20);
    assert Pow2(30) == 32 * Pow2(25);
    assert MAX_TABLE_SIZE == Pow2(30);
  }

  /** Short of the greatest size there is room to double. */
  lemma DoubleFits(size: nat)
    requires IsPow2(size) && size <= MAX_TABLE_SIZE
    ensures size < MAX_TABLE_SIZE ==> 2 * size <= MAX_TABLE_SIZE
  {
    MaxIsPow2();
    if size < MAX_TABLE_SIZE {
      Pow2Gap(size, MAX_TABLE_SIZE);
    }
  }

  /** The clamped and rounded capacity that both resize functions compute first. */
  ghost predicate IsNormalCapacity(request: int, cap: nat) {
    && IsPow2(cap)
    && 1 <= cap <= MAX_TABLE_SIZE
    && (request <= MAX_TABLE_SIZE ==> request <= cap)
    && (request > MAX_TABLE_SIZE ==> cap == MAX_TABLE_SIZE)
    && forall m: nat :: IsPow2(m) && m <= MAX_TABLE_SIZE && request <= m ==> cap <= m
  }

  method NormalCapacity(request: int) returns (cap: nat)
    ensures IsNormalCapacity(request, cap)
  {
    MaxIsPow2();
    if request < 1 {
      cap := 1;
      assert 1 == Pow2(0);
    } else if request >= MAX_TABLE_SIZE {
      cap := MAX_TABLE_SIZE;
    } else {
      PowerOfTwoTest(request);
      if BitAnd(request, request - 1) == 0 {
        cap := request;
      } else {
        cap := RoundUp(request);
      }
    }
    assert forall m: nat :: IsPow2(m) ==> m >= 1;
  }

  /** The same capacity as a function. */
  function NormalSize(request: int): nat {
    if request > MAX_TABLE_SIZE then MAX_TABLE_SIZE else LeastPow2(1, request)
  }

  function LeastPow2(n: nat, x: int): (r: nat)
    requires n >= 1
    ensures r >= n && r >= x
    decreases x - n
  {
    if n >= x then n else LeastPow2(2 * n, x)
  }

  lemma {:induction false} LeastPow2Is(n: nat, x: int)
    requires IsPow2(n) && 1 <= n <= MAX_TABLE_SIZE && x <= MAX_TABLE_SIZE
    ensures IsPow2(LeastPow2(n, x)) && LeastPow2(n, x) <= MAX_TABLE_SIZE
    ensures forall m: nat :: IsPow2(m) && n <= m && x <= m ==> LeastPow2(n, x) <= m
    decreases x - n
  {
    if n < x {
      DoubleIsPow2(n);
      MaxIsPow2();
      Pow2Gap(n, MAX_TABLE_SIZE);
      LeastPow2Is(2 * n, x);
      hide IsPow2;
      forall m: nat | IsPow2(m) && n <= m && x <= m ensures LeastPow2(n, x) <= m {
        Pow2Gap(n, m);
      }
    }
  }

  lemma NormalSizeIs(request: int, cap: nat)
    requires IsNormalCapacity(request, cap)
    ensures cap == NormalSize(request)
  {
    OneIsPow2();
    if request <= MAX_TABLE_SIZE {
      LeastPow2Is(1, request);
      assert cap >= 1;
    }
  }

  lemma NormalSizeOk(request: int)
    ensures IsPow2(NormalSize(request)) && 1 <= NormalSize(request) <= MAX_TABLE_SIZE
  {
    OneIsPow2();
    MaxIsPow2();
    if request <= MAX_TABLE_SIZE {
      LeastPow2Is(1, request);
    }
  }

  /** Against a table of a legal size, a request grows the table exactly when it asks for more
      and more is allowed; asking for double gives double. */
  lemma CapacityFacts(request: int, size: nat, cap: nat)
    requires IsNormalCapacity(request, cap) && IsPow2(size) && 1 <= size <= MAX_TABLE_SIZE
    ensures IsPow2(cap) && 1 <= cap <= MAX_TABLE_SIZE
    ensures request <= MAX_TABLE_SIZE ==> request <= cap
    ensures cap <= size <==> request <= size || size == MAX_TABLE_SIZE
    ensures request == 2 * size <= MAX_TABLE_SIZE ==> cap == request
  {
    DoubleIsPow2(size);
  }

  /** resize_threshold: capacity * max_load_factor rounded to the nearest integer. */
  function Threshold(capacity: nat, loadFactor: real): int {
    (capacity as real * loadFactor + 0.5).Floor
  }

  /** t is the product, rounded to the nearest integer, halves up. */
  predicate Nearest(t: int, capacity: nat, f: real) {
    t as real - 0.5 <= capacity as real * f < t as real + 0.5
  }

  /** The count is at least the product rounded to the nearest integer. */
  predicate Reaches(count: nat, capacity: nat, f: real) { count as real + 0.5 > capacity as real * f }

  lemma ThresholdRounds(capacity: nat, f: real)
    ensures Nearest(Threshold(capacity, f), capacity, f)
    ensures forall count: nat :: count >= Threshold(capacity, f) <==> Reaches(count, capacity, f)
  {}

  /** Doubling the capacity raises the threshold exactly when the old product is at
      least 3/4, or lies in [1/4, 1/2). */
  lemma DoublingRaisesThreshold(capacity: nat, f: real)
    requires f >= 0.0
    ensures Threshold(2 * capacity, f) > Threshold(capacity, f)
       <==> (capacity as real * f >= 0.75 || 0.25 <= capacity as real * f < 0.5)
  {
    var x := capacity as real * f;
    assert (2 * capacity) as real * f == 2.0 * x;
    var m := (x + 0.5).Floor;
    var d := (2.0 * x + 0.5).Floor;
    assert m as real <= x + 0.5 < m as real + 1.0;
    assert d as real <= 2.0 * x + 0.5 < d as real + 1.0;
    assert x >= 0.0;
    if m >= 2 {
      assert 2.0 * x + 0.5 >= (2 * m - 1) as real + 0.5;
      assert d >= 2 * m - 1;
    } else if m == 1 {
    } else {
      assert m == 0;
    }
  }

  lemma ThresholdMono(c: nat, d: nat, f: real)
    requires c <= d && f >= 0.0
    ensures Threshold(c, f) <= Threshold(d, f) && c as real * f <= d as real * f
  {
    assert (d - c) as real * f >= 0.0;
    assert d as real * f == c as real * f + (d - c) as real * f;
  }

  /** A load factor of 0.0 is taken at its word: no table of any size may hold an entry before it is
      to be resized. */
  lemma ZeroFactor(capacity: nat)
    ensures Threshold(capacity, 0.0) == 0
  {}
}
