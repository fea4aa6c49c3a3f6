/** LEB128 encoding of 64-bit integers, c-hacks/src/leb128.c, after section 7.6 and appendix C of
    the DWARF Debugging Information Format, Version 3. */
module Leb128 {
  import opened Bits

  const TWO63: int := 0x8000_0000_0000_0000
  const TWO64: int := 0x1_0000_0000_0000_0000

  // ---- bit operations ----

  /** Bitwise OR, bit by bit from the low end. */
  function BitOr(x: nat, y: nat): nat {
    if x == 0 then y else if y == 0 then x else
      (if x % 2 == 1 || y % 2 == 1 then 1 else 0) + 2 * BitOr(x / 2, y / 2)
  }

  /** OR with bits above all bits of x is addition. */
  lemma {:induction false} OrAbove(x: nat, y: nat, k: nat)
    requires x < Pow2(k)
    ensures BitOr(x, y * Pow2(k)) == x + y * Pow2(k)
  {
    if k == 0 {
    } else if x == 0 || y == 0 {
    } else {
      var p := Pow2(k - 1);
      Halve(y, p);
      assert y * Pow2(k) == 2 * (y * p);
      OrAbove(x / 2, y, k - 1);
    }
  }

  lemma Halve(y: nat, p: nat)
    ensures (y * (2 * p)) % 2 == 0 && (y * (2 * p)) / 2 == y * p
  {
    assert y * (2 * p) == 2 * (y * p);
  }

  /** 128^n, the weight of the n-th group of seven bits. */
  function Weight(n: nat): (w: nat)
    ensures w >= 1
  {
    if n == 0 then 1 else 128 * Weight(n - 1)
  }

  lemma {:induction false} WeightIsPow2(n: nat)
    ensures Weight(n) == Pow2(7 * n)
  {
    if n > 0 {
      WeightIsPow2(n - 1);
      assert Pow2(7 * n) == 128 * Pow2(7 * (n - 1)) by {
        assert 7 * n == 7 * (n - 1) + 7;
        Pow2Plus7(7 * (n - 1));
      }
    }
  }

  lemma Pow2Plus7(k: nat)
    ensures Pow2(k + 7) == 128 * Pow2(k)
  {
    assert Pow2(k + 7) == 2 * Pow2(k + 6);
    assert Pow2(k + 6) == 2 * Pow2(k + 5);
    assert Pow2(k + 5) == 2 * Pow2(k + 4);
    assert Pow2(k + 4) == 2 * Pow2(k + 3);
    assert Pow2(k + 3) == 2 * Pow2(k + 2);
    assert Pow2(k + 2) == 2 * Pow2(k + 1);
  }

  lemma {:induction false} WeightMono(i: nat, j: nat)
    requires i <= j
    ensures Weight(i) <= Weight(j)
  {
    if i < j {
      WeightMono(i, j - 1);
    }
  }

  lemma Weight9()
    ensures Weight(9) == TWO63
  {}

  // ---- the format ----

  /** The number whose seven-bit groups, lowest first, are the low parts of the bytes. */
  function Groups(bs: seq<Byte>): nat {
    if bs == [] then 0 else bs[0] % 128 + 128 * Groups(bs[1..])
  }

  /** A complete encoding: the continuation bit is set on every byte but the last. */
  ghost predicate Complete(bs: seq<Byte>) {
    && bs != []
    && (forall i :: 0 <= i < |bs| - 1 ==> bs[i] >= 128)
    && bs[|bs| - 1] < 128
  }

  /** The signed number of a complete encoding: bit 6 of the last byte is the sign. */
  function SignedGroups(bs: seq<Byte>): int {
    Groups(bs) - (if bs != [] && bs[|bs| - 1] % 128 >= 64 then Weight(|bs|) else 0)
  }

  function EncodeU(v: nat): seq<Byte> {
    if v < 128 then [v] else [v % 128 + 128] + EncodeU(v / 128)
  }

  predicate LastSigned(v: int) { -64 <= v < 64 }

  function EncodeS(v: int): seq<Byte>
    decreases if v < 0 then -v else v
  {
    if LastSigned(v) then [v % 128] else [v % 128 + 128] + EncodeS(v / 128)
  }

  lemma {:induction false} GroupsAppend(bs: seq<Byte>, b: Byte)
    ensures Groups(bs + [b]) == Groups(bs) + Weight(|bs|) * (b % 128)
  {
    if bs == [] {
      assert [] + [b] == [b];
    } else {
      assert (bs + [b])[1..] == bs[1..] + [b];
      GroupsAppend(bs[1..], b);
      var w := Weight(|bs| - 1);
      assert 128 * (w * (b % 128)) == (128 * w) * (b % 128);
    }
  }

  lemma {:induction false} GroupsBound(bs: seq<Byte>)
    ensures Groups(bs) < Weight(|bs|)
  {
    if bs != [] {
      GroupsBound(bs[1..]);
    }
  }

  // ---- encoders ----

  lemma LowSeven(v: nat)
    ensures BitAnd(v, 0x7f) == v % 128
  {
    assert Pow2(7) == 128;
    MaskIsMod(v, 7);
  }

  /** leb128_encode_ull. The buffer must be big enough, as the source assumes. */
  method EncodeUll(buf: array<Byte>, value: nat) returns (n: nat)
    requires value < TWO64 && buf.Length >= |EncodeU(value)|
    modifies buf
    ensures n == |EncodeU(value)| && buf[..n] == EncodeU(value)
    ensures buf[n..] == old(buf[n..])
  {
    hide BitAnd;
    var v := value;
    n := 0;
    var more := true;
    while more
      invariant n <= |EncodeU(value)| <= buf.Length
      invariant more ==> EncodeU(value) == buf[..n] + EncodeU(v)
      invariant !more ==> EncodeU(value) == buf[..n]
      invariant buf[n..] == old(buf[n..])
      decreases more, v
    {
      assert EncodeU(value)[n] == EncodeU(v)[0];
      LowSeven(v);
      var byte := BitAnd(v, 0x7f);
      v := v / 128;
      if v != 0 {
        byte := byte + 0x80;
      }
      buf[n] := byte;
      n := n + 1;
      more := v != 0;
      assert old(buf[n..]) == old(buf[n - 1..])[1..];
    }
  }

  lemma FirstByteS(v: int)
    ensures LastSigned(v) <==> (v / 128 == 0 && v % 128 < 64) || (v / 128 == -1 && v % 128 >= 64)
    ensures LastSigned(v) ==> EncodeS(v) == [v % 128]
    ensures !LastSigned(v) ==> EncodeS(v) == [v % 128 + 128] + EncodeS(v / 128)
  {}

  /** leb128_encode_ll: `&` and `>>` on a negative two's complement number are the Euclidean
      remainder and the floor of the quotient. */
  method EncodeLl(buf: array<Byte>, value: int) returns (n: nat)
    requires -TWO63 <= value < TWO63 && buf.Length >= |EncodeS(value)|
    modifies buf
    ensures n == |EncodeS(value)| && buf[..n] == EncodeS(value)
    ensures buf[n..] == old(buf[n..])
  {
    hide EncodeS;
    var v := value;
    var more := true;
    n := 0;
    assert [] + EncodeS(value) == EncodeS(value);
    while more
      invariant n <= |EncodeS(value)| <= buf.Length
      invariant more ==> EncodeS(value) == buf[..n] + EncodeS(v)
      invariant !more ==> EncodeS(value) == buf[..n]
      invariant buf[n..] == old(buf[n..])
      decreases more, if v < 0 then -v else v
    {
      FirstByteS(v);
      var byte := v % 128;
      v := v / 128;
      if (v == 0 && byte < 0x40) || (v == -1 && byte >= 0x40) {
        more := false;
      } else {
        byte := byte + 0x80;
      }
      buf[n] := byte;
      n := n + 1;
      assert old(buf[n..]) == old(buf[n - 1..])[1..];
    }
  }

  // ---- decoders ----

  /** The loop of both decoders: bytes are OR-ed in at their shift, in 64 bits. The caller supplies
      an encoding of at most ten bytes, since a shift of 64 or more is undefined in C. */
  method Accumulate(buf: array<Byte>, start: nat, ghost n: nat) returns (value: nat, p: nat, shift: nat, last: Byte)
    requires start + n <= buf.Length && n <= 10 && Complete(buf[start..start + n])
    ensures value == Groups(buf[start..start + n]) % TWO64 && p == start + n
    ensures shift == 7 * n && last == buf[start + n - 1]
  {
    ghost var bs := buf[start..start + n];
    value, p, shift, last := 0, start, 0, 0x80;
    while last >= 0x80
      invariant start <= p <= start + n && shift == 7 * (p - start)
      invariant value == Groups(bs[..p - start]) % TWO64
      invariant if p == start then last == 0x80 else last == bs[p - start - 1]
      invariant last >= 0x80 ==> p - start < n
      decreases start + n - p
    {
      last := buf[p];
      AccumulateStep(bs, p - start);
      value := BitOr(value, (last % 128 * Pow2(shift)) % TWO64);
      p := p + 1;
      shift := shift + 7;
    }
    assert p - start == n;
    assert bs[..n] == bs;
  }

  lemma AccumulateStep(bs: seq<Byte>, i: nat)
    requires i < |bs| <= 10
    ensures BitOr(Groups(bs[..i]) % TWO64, (bs[i] % 128 * Pow2(7 * i)) % TWO64) == Groups(bs[..i + 1]) % TWO64
  {
    hide Pow2, Groups, BitOr, Weight;
    var g, d := Groups(bs[..i]), bs[i] % 128;
    assert bs[..i + 1] == bs[..i] + [bs[i]];
    GroupsAppend(bs[..i], bs[i]);
    GroupsBound(bs[..i]);
    WeightIsPow2(i);
    Weight9();
    if i < 9 {
      WeightMono(i + 1, 9);
      WeightNext(i);
      LowerByte(g, d, 7 * i);
    } else {
      TenthByte(g, d);
      Weight9IsPow2();
      OrAbove(g, d % 2, 63);
    }
  }

  lemma Weight9IsPow2()
    ensures Pow2(63) == TWO63
  {
    Weight9();
    WeightIsPow2(9);
  }

  lemma LowerByte(g: nat, d: nat, k: nat)
    requires g < Pow2(k) && d < 128 && 128 * Pow2(k) <= TWO63
    ensures BitOr(g % TWO64, (d * Pow2(k)) % TWO64) == (g + Pow2(k) * d) % TWO64
  {
    hide Pow2, BitOr;
    OrAbove(g, d, k);
    SmallDigit(d, Pow2(k));
    var y := d * Pow2(k);
    Small(g);
    Small(y);
    Small(g + y);
  }

  lemma SmallDigit(d: nat, p: nat)
    requires d < 128
    ensures d * p == p * d && d * p <= 127 * p
  {}

  lemma WeightNext(i: nat)
    ensures Weight(i + 1) == 128 * Weight(i)
  {}

  lemma Small(x: nat)
    requires x < TWO64
    ensures x % TWO64 == x
  {}

  /** Only the lowest bit of the tenth byte stays within 64 bits. */
  lemma TenthByte(g: nat, d: nat)
    requires g < TWO63
    ensures g % TWO64 == g
    ensures (d * TWO63) % TWO64 == (d % 2) * TWO63
    ensures (g + TWO63 * d) % TWO64 == g + (d % 2) * TWO63
  {
    var q, r := d / 2, d % 2;
    assert d == 2 * q + r;
    ModUnique(d * TWO63, TWO64, q, r * TWO63);
    ModUnique(g + TWO63 * d, TWO64, q, g + r * TWO63);
  }

  /** leb128_decode_ull. */
  method DecodeUll(buf: array<Byte>, start: nat, ghost n: nat) returns (result: nat, p: nat)
    requires start + n <= buf.Length && n <= 10 && Complete(buf[start..start + n])
    ensures result == Groups(buf[start..start + n]) % TWO64 && p == start + n
  {
    var shift, last;
    result, p, shift, last := Accumulate(buf, start, n);
  }

  function ToSigned(u: nat): int { if u < TWO63 then u else u - TWO64 }

  /** leb128_decode_ll: sign extension happens only below 64 bits. */
  method DecodeLl(buf: array<Byte>, start: nat, ghost n: nat) returns (result: int, p: nat)
    requires start + n <= buf.Length && n <= 10 && Complete(buf[start..start + n])
    ensures result == ToSigned(SignedGroups(buf[start..start + n]) % TWO64) && p == start + n
  {
    ghost var bs := buf[start..start + n];
    var value, p', shift, last := Accumulate(buf, start, n);
    p := p';
    SignExtend(bs);
    if shift < 64 && last % 128 >= 0x40 {
      value := BitOr(value, TWO64 - Pow2(shift));
    }
    result := ToSigned(value);
  }

  predicate NeedsExtension(bs: seq<Byte>)
    requires bs != []
  {
    7 * |bs| < 64 && bs[|bs| - 1] % 128 >= 0x40
  }

  lemma SignExtend(bs: seq<Byte>)
    requires Complete(bs) && |bs| <= 10
    ensures NeedsExtension(bs) ==> Pow2(7 * |bs|) <= TWO63
    ensures NeedsExtension(bs) ==> BitOr(Groups(bs) % TWO64, TWO64 - Pow2(7 * |bs|)) == SignedGroups(bs) % TWO64
    ensures !NeedsExtension(bs) ==> Groups(bs) % TWO64 == SignedGroups(bs) % TWO64
  {
    hide Pow2, Groups, BitOr, Weight;
    var n := |bs|;
    GroupsBound(bs);
    WeightIsPow2(n);
    Weight9();
    if n < 10 {
      WeightMono(n, 9);
      ExtendOr(Groups(bs), n);
    } else {
      WeightNext(9);
      assert Weight(10) == 64 * TWO64;
    }
  }

  lemma ExtendOr(g: nat, n: nat)
    requires n <= 9 && g < Weight(n) <= TWO63 && Weight(n) == Pow2(7 * n)
    ensures g % TWO64 == g && BitOr(g, TWO64 - Pow2(7 * n)) == (g - Weight(n)) % TWO64
  {
    hide Pow2, BitOr, Weight;
    var w := Weight(n);
    var k := Quotient64(n);
    var y := (k - 1) * w;
    assert y == TWO64 - w;
    OrAbove(g, k - 1, 7 * n);
    assert (g - w) % TWO64 == g - w + TWO64;
  }

  /** 2^64 is a multiple of every weight below it. */
  lemma {:induction false} Quotient64(n: nat) returns (k: nat)
    requires n <= 9
    ensures k >= 2 && k * Weight(n) == TWO64
    decreases 9 - n
  {
    if n == 9 {
      Weight9();
      k := 2;
    } else {
      var j := Quotient64(n + 1);
      k := 128 * j;
      assert j * Weight(n + 1) == j * (128 * Weight(n)) == (128 * j) * Weight(n);
    }
  }

  // ---- main results ----

  predicate Is64U(v: int) { 0 <= v < TWO64 }

  predicate Is64S(v: int) { -TWO63 <= v < TWO63 }

  lemma {:induction false} EncodingU(v: nat)
    ensures Complete(EncodeU(v)) && Groups(EncodeU(v)) == v
  {
    if v >= 128 {
      EncodingU(v / 128);
      var e := EncodeU(v);
      assert e[1..] == EncodeU(v / 128);
      assert forall i :: 1 <= i < |e| ==> e[i] == e[1..][i - 1];
    }
  }

  lemma {:induction false} EncodingS(v: int)
    ensures Complete(EncodeS(v)) && SignedGroups(EncodeS(v)) == v
    decreases if v < 0 then -v else v
  {
    if LastSigned(v) {
      assert Weight(1) == 128;
      assert Groups([v % 128]) == v % 128;
    } else {
      EncodingS(v / 128);
      Prepend(v % 128, EncodeS(v / 128));
      assert v == v % 128 + 128 * (v / 128);
    }
  }

  lemma Prepend(d: nat, f: seq<Byte>)
    requires d < 128 && Complete(f)
    ensures Complete([d + 128] + f) && SignedGroups([d + 128] + f) == d + 128 * SignedGroups(f)
  {}

  // ---- byte by byte ----

  lemma DivDiv(v: int, w: nat)
    requires w >= 1
    ensures v / (128 * w) == v / 128 / w
  {
    var m, q, r, s := 128 * w, v / 128 / w, v / 128 % w, v % 128;
    assert v == 128 * (w * q + r) + s;
    assert 128 * (w * q) == m * q by { Halves(w, q); }
    Quotient(v, m, q, 128 * r + s);
  }

  lemma Halves(w: int, q: int)
    ensures 128 * (w * q) == (128 * w) * q
  {}

  lemma Quotient(v: int, m: nat, q: int, r: nat)
    requires r < m && v == m * q + r
    ensures v / m == q
  {
    var q', r' := v / m, v % m;
    assert v == m * q' + r' && 0 <= r' < m;
    assert m * (q - q') == r' - r by { Distribute(m, q, q'); }
    if q > q' {
      AtLeast(m, q - q');
      assert false;
    } else if q < q' {
      assert m * (q' - q) == r - r' by { Distribute(m, q', q); }
      AtLeast(m, q' - q);
      assert false;
    }
  }

  lemma Distribute(m: int, a: int, b: int)
    ensures m * (a - b) == m * a - m * b
  {}

  lemma AtLeast(m: nat, d: int)
    requires d >= 1
    ensures m * d >= m
  {}

  /** Byte k holds the k-th group of seven bits, from the low end, and the continuation bit if it is not
      the last one. */
  lemma {:induction false} ByteU(v: nat, k: nat)
    requires k < |EncodeU(v)|
    ensures EncodeU(v)[k] == v / Weight(k) % 128 + (if k + 1 < |EncodeU(v)| then 128 else 0)
  {
    if k > 0 {
      ByteU(v / 128, k - 1);
      DivDiv(v, Weight(k - 1));
    }
  }

  /** Likewise for negative values, in two's complement. */
  lemma {:induction false} ByteS(v: int, k: nat)
    requires k < |EncodeS(v)|
    ensures EncodeS(v)[k] == v / Weight(k) % 128 + (if k + 1 < |EncodeS(v)| then 128 else 0)
    decreases k
  {
    if k > 0 {
      ByteS(v / 128, k - 1);
      DivDiv(v, Weight(k - 1));
    }
  }

  /** The encoding has at most n bytes exactly when the value fits in n groups of seven bits. */
  lemma {:induction false} LengthU(v: nat, n: nat)
    requires n >= 1
    ensures |EncodeU(v)| <= n <==> v < Weight(n)
  {
    if n == 1 {
      assert Weight(1) == 128;
      if v >= 128 {
        EncodingU(v / 128);
      }
    } else if v >= 128 {
      LengthU(v / 128, n - 1);
    }
  }

  lemma {:induction false} LengthS(v: int, n: nat)
    requires n >= 1
    ensures |EncodeS(v)| <= n <==> -64 * Weight(n - 1) <= v < 64 * Weight(n - 1)
    decreases n
  {
    if n == 1 {
      if !LastSigned(v) {
        EncodingS(v / 128);
      }
    } else if !LastSigned(v) {
      LengthS(v / 128, n - 1);
    }
  }

  /** No 64-bit value needs more than ten bytes. */
  lemma AtMostTen(v: int)
    ensures Is64U(v) ==> |EncodeU(v)| <= 10
    ensures Is64S(v) ==> |EncodeS(v)| <= 10
  {
    Weight9();
    WeightNext(9);
    if Is64U(v) {
      LengthU(v, 10);
    }
    if Is64S(v) {
      LengthS(v, 10);
    }
  }

  /** Encoding a signed value and decoding it, whatever bytes follow, gives the value back and stops
      right after the encoding; in the ten-byte case no sign extension takes place. */
  method RoundTripLl(value: int, tail: seq<Byte>) returns (result: int, p: nat)
    requires Is64S(value)
    ensures result == value && p == |EncodeS(value)| <= 10
  {
    hide EncodeS, Groups, SignedGroups;
    AtMostTen(value);
    EncodingS(value);
    var buf := new Byte[10 + |tail|](_ => 0);
    var n := EncodeLl(buf, value);
    for i := 0 to |tail|
      invariant buf[..n] == EncodeS(value)
    {
      buf[n + i] := tail[i];
    }
    assert buf[0..0 + n] == EncodeS(value);
    result, p := DecodeLl(buf, 0, n);
    SignedIn64(value);
  }

  lemma SignedIn64(v: int)
    requires Is64S(v)
    ensures ToSigned(v % TWO64) == v
  {}

  method RoundTripUll(value: nat, tail: seq<Byte>) returns (result: nat, p: nat)
    requires Is64U(value)
    ensures result == value && p == |EncodeU(value)| <= 10
  {
    hide EncodeU, Groups;
    AtMostTen(value);
    EncodingU(value);
    var buf := new Byte[10 + |tail|](_ => 0);
    var n := EncodeUll(buf, value);
    for i := 0 to |tail|
      invariant buf[..n] == EncodeU(value)
    {
      buf[n + i] := tail[i];
    }
    assert buf[0..0 + n] == EncodeU(value);
    result, p := DecodeUll(buf, 0, n);
  }

  /** No shorter encoding decodes to the same unsigned value. */
  lemma ShortestU(bs: seq<Byte>)
    requires Complete(bs) && |bs| <= 10
    ensures |EncodeU(Groups(bs) % TWO64)| <= |bs|
  {
    GroupsBound(bs);
    if |bs| == 10 {
      AtMostTen(Groups(bs) % TWO64);
    } else {
      Weight9();
      WeightMono(|bs|, 9);
      Small(Groups(bs));
      LengthU(Groups(bs), |bs|);
    }
  }

  /** No shorter encoding decodes to the same signed value. */
  lemma ShortestS(bs: seq<Byte>)
    requires Complete(bs) && |bs| <= 10
    ensures |EncodeS(ToSigned(SignedGroups(bs) % TWO64))| <= |bs|
  {
    var n := |bs|;
    if n == 10 {
      AtMostTen(ToSigned(SignedGroups(bs) % TWO64));
    } else {
      hide EncodeS, ToSigned, SignedGroups;
      SignedRange(bs);
      WeightMono(n, 9);
      Weight9();
      WeightNext(n - 1);
      SignedIn64(SignedGroups(bs));
      LengthS(SignedGroups(bs), n);
    }
  }

  /** n groups of seven bits hold the numbers of 7n bits in two's complement. */
  lemma SignedRange(bs: seq<Byte>)
    requires Complete(bs) && |bs| <= 9
    ensures -64 * Weight(|bs| - 1) <= SignedGroups(bs) < 64 * Weight(|bs| - 1)
  {
    hide Groups, Weight;
    var n := |bs|;
    assert bs == bs[..n - 1] + [bs[n - 1]];
    GroupsAppend(bs[..n - 1], bs[n - 1]);
    GroupsBound(bs[..n - 1]);
    WeightNext(n - 1);
    TopGroup(Groups(bs[..n - 1]), Weight(n - 1), bs[n - 1]);
  }

  lemma TopGroup(g: nat, w: nat, d: nat)
    requires g < w && d < 128
    ensures -64 * w <= g + w * d - (if d >= 64 then 128 * w else 0) < 64 * w
  {
    MulGap(w, d, 128);
    if d >= 64 {
      MulGap(w, 63, d);
    } else {
      MulGap(w, d, 64);
    }
  }

  // ---- lists of values ----

  /** The length of the complete encoding at the front, or 0 when there is none. */
  function FirstLength(bs: seq<Byte>): (n: nat)
    ensures n <= |bs|
    ensures n > 0 ==> Complete(bs[..n])
  {
    if bs == [] then 0
    else if bs[0] < 128 then 1
    else
      var m := FirstLength(bs[1..]);
      assert m > 0 ==> forall i :: 0 <= i < m ==> bs[..m + 1][i + 1] == bs[1..][..m][i];
      if m == 0 then 0 else m + 1
  }

  lemma {:induction false} FirstIsComplete(e: seq<Byte>, rest: seq<Byte>)
    requires Complete(e)
    ensures FirstLength(e + rest) == |e|
  {
    if |e| > 1 {
      assert (e + rest)[1..] == e[1..] + rest;
      FirstIsComplete(e[1..], rest);
    }
  }

  /** A value that is written with the unsigned or with the signed encoder. */
  datatype Value = Unsigned(u: nat) | Signed(i: int)

  predicate Is64(v: Value) { if v.Unsigned? then Is64U(v.u) else Is64S(v.i) }

  function Encode(v: Value): seq<Byte> { if v.Unsigned? then EncodeU(v.u) else EncodeS(v.i) }

  function EncodeAll(vs: seq<Value>): seq<Byte> {
    if vs == [] then [] else Encode(vs[0]) + EncodeAll(vs[1..])
  }

  /** What the signed or the unsigned decoder makes of a complete encoding. */
  function Decoded(e: seq<Byte>, signed: bool): Value
    requires Complete(e)
  {
    if signed then Signed(ToSigned(SignedGroups(e) % TWO64)) else Unsigned(Groups(e) % TWO64)
  }

  /** One value after another, as the reader expects them signed or unsigned, and the bytes behind. */
  function DecodeAll(bs: seq<Byte>, signed: seq<bool>): (seq<Value>, seq<Byte>)
    decreases |signed|
  {
    var n := FirstLength(bs);
    if signed == [] || n == 0 then ([], bs)
    else
      var r := DecodeAll(bs[n..], signed[1..]);
      ([Decoded(bs[..n], signed[0])] + r.0, r.1)
  }

  /** Encodings delimit themselves: from a concatenation of them, whatever follows it, the original list
      is read back and exactly the rest is left. */
  lemma {:induction false} ListRoundTrip(vs: seq<Value>, signed: seq<bool>, tail: seq<Byte>)
    requires |signed| == |vs| && forall i :: 0 <= i < |vs| ==> Is64(vs[i]) && signed[i] == vs[i].Signed?
    ensures DecodeAll(EncodeAll(vs) + tail, signed) == (vs, tail)
  {
    hide DecodeAll, Encode, Is64, Decoded, Complete;
    if vs == [] {
      DecodeNone(tail, signed);
      assert EncodeAll(vs) + tail == tail;
    } else {
      var e, more := Encode(vs[0]), EncodeAll(vs[1..]);
      assert (e + more) + tail == e + (more + tail);
      OneDecoded(vs[0]);
      DecodeFirst(e, more + tail, signed);
      ListRoundTrip(vs[1..], signed[1..], tail);
      assert vs == [vs[0]] + vs[1..];
    }
  }

  lemma DecodeNone(bs: seq<Byte>, signed: seq<bool>)
    requires signed == []
    ensures DecodeAll(bs, signed) == ([], bs)
  {}

  lemma DecodeFirst(e: seq<Byte>, rest: seq<Byte>, signed: seq<bool>)
    requires Complete(e) && signed != []
    ensures var r := DecodeAll(rest, signed[1..]);
      DecodeAll(e + rest, signed) == ([Decoded(e, signed[0])] + r.0, r.1)
  {
    assert |e| > 0;
    FirstIsComplete(e, rest);
    hide FirstLength, Decoded, Complete;
    assert (e + rest)[..|e|] == e && (e + rest)[|e|..] == rest;
  }

  lemma OneDecoded(v: Value)
    requires Is64(v)
    ensures Complete(Encode(v)) && Decoded(Encode(v), v.Signed?) == v
  {
    if v.Signed? {
      EncodingS(v.i);
      SignedIn64(v.i);
    } else {
      EncodingU(v.u);
    }
  }
}
