/** The bit-width calculators of the coordinate decompressor (`sizeofint`,
    `sizeofints` and `calc_sizeint` in src/reader.rs). A coordinate triple is
    packed as one mixed-radix number with digits below `sizeint[0..3]`;
    these work out how many bits that number needs. */
module Sizes {
  import opened Bits
  import opened Errors

  /** The three sizes, the per-axis bit widths and the combined bit width
      that `calc_sizeint` fills in. */
  datatype Widths = Widths(sizeint: seq<U32>, bitsizeint: seq<U32>, bitsize: nat)

  /** `(maxint - minint) as u32 + 1` for one axis: the `i32` subtraction and
      the `u32` increment both panic on overflow, `as u32` wraps. */
  function SizeInt(lo: I32, hi: I32): (r: Result<U32>)
    ensures r.Ok? <==> -0x8000_0000 <= hi - lo < 0x8000_0000 && hi - lo != -1
    ensures r.Ok? ==> 1 <= r.value && (r.value - (hi - lo + 1)) % U32_LIMIT == 0
    ensures r.Ok? && lo <= hi ==> r.value == hi - lo + 1
  {
    var d := hi - lo;
    if d < -0x8000_0000 || 0x8000_0000 <= d then Err(Panic("attempt to subtract with overflow"))
    else
      var w: U32 := d % U32_LIMIT;
      if w == U32_LIMIT - 1 then Err(Panic("attempt to add with overflow")) else Ok(w + 1)
  }

  /** `calc_sizeint`. When some size does not fit in 24 bits the sizes are
      not multiplied: each axis gets its own bit width and the result is 0.
      Otherwise the per-axis widths stay 0 and the result is the bit length
      of the product of the sizes. */
  method CalcSizeInt(minint: seq<I32>, maxint: seq<I32>) returns (r: Result<Widths>)
    requires |minint| == 3 && |maxint| == 3
    ensures r.Ok? <==> forall i :: 0 <= i < 3 ==> SizeInt(minint[i], maxint[i]).Ok?
    ensures r.Ok? ==> (forall i :: 0 <= i < 3 ==> SizeInt(minint[i], maxint[i]).Ok?) && SizedBy(minint, maxint, r.value)
    ensures r.Err? ==> r.error.Panic?
  {
    var x :- SizeInt(minint[0], maxint[0]);
    var y :- SizeInt(minint[1], maxint[1]);
    var z :- SizeInt(minint[2], maxint[2]);
    var sizeint := [x, y, z];
    if Or(Or(x, y), z) > 0xff_ffff {
      var wx := SizeOfInt(x);
      var wy := SizeOfInt(y);
      var wz := SizeOfInt(z);
      if x <= 0xff_ffff && y <= 0xff_ffff && z <= 0xff_ffff {
        Pow2Values();
        Pow2Add(16, 8);
        OrBound(x, y, 24);
        OrBound(Or(x, y), z, 24);
        assert false;
      }
      return Ok(Widths(sizeint, [wx, wy, wz], 0));
    }
    OrAtLeast(x, y);
    OrAtLeast(Or(x, y), z);
    var bitsize := SizeOfInts(sizeint);
    Positive(x, y, z);
    ProductOfThree(sizeint);
    BitLengthLeast(Product(sizeint), 0);
    return Ok(Widths(sizeint, [0, 0, 0], bitsize));
  }

  /** The widths `calc_sizeint` leaves for the three axis ranges: the sizes
      themselves and, when one of them needs more than 24 bits, a bit width
      per axis, else the bit width of the product of the three. */
  predicate SizedBy(minint: seq<I32>, maxint: seq<I32>, w: Widths)
    requires |minint| == 3 && |maxint| == 3
    requires forall i :: 0 <= i < 3 ==> SizeInt(minint[i], maxint[i]).Ok?
  {
    && |w.sizeint| == 3 && |w.bitsizeint| == 3
    && (forall i :: 0 <= i < 3 ==> w.sizeint[i] == SizeInt(minint[i], maxint[i]).value)
    && (w.bitsize == 0 <==> exists i :: 0 <= i < 3 && w.sizeint[i] > 0xff_ffff)
    && (w.bitsize == 0 ==> forall i :: 0 <= i < 3 ==> w.bitsizeint[i] == BitLength(w.sizeint[i]))
    && (w.bitsize != 0 ==>
        && w.bitsizeint == [0, 0, 0]
        && w.bitsize == BitLength(Product(w.sizeint)))
  }

  /** The widths `SizedBy` allows, written out: there is exactly one. */
  function WidthsOf(minint: seq<I32>, maxint: seq<I32>): Widths
    requires |minint| == 3 && |maxint| == 3
    requires forall i :: 0 <= i < 3 ==> SizeInt(minint[i], maxint[i]).Ok?
  {
    var sizeint := [SizeInt(minint[0], maxint[0]).value, SizeInt(minint[1], maxint[1]).value,
                    SizeInt(minint[2], maxint[2]).value];
    if sizeint[0] > 0xff_ffff || sizeint[1] > 0xff_ffff || sizeint[2] > 0xff_ffff then
      Widths(sizeint, [Width32(sizeint[0]), Width32(sizeint[1]), Width32(sizeint[2])], 0)
    else
      Widths(sizeint, [0, 0, 0], BitLength(Product(sizeint)))
  }

  /** The bit length of a `u32`, which fits a `u32`. */
  function Width32(x: U32): (n: U32)
    ensures n == BitLength(x)
  {
    Pow2Values();
    BitLengthLeast(x, 32);
    BitLength(x)
  }

  lemma WidthsOfSized(minint: seq<I32>, maxint: seq<I32>)
    requires |minint| == 3 && |maxint| == 3
    requires forall i :: 0 <= i < 3 ==> SizeInt(minint[i], maxint[i]).Ok?
    ensures SizedBy(minint, maxint, WidthsOf(minint, maxint))
  {
    var w := WidthsOf(minint, maxint);
    var x, y, z := w.sizeint[0], w.sizeint[1], w.sizeint[2];
    if w.sizeint[0] <= 0xff_ffff && w.sizeint[1] <= 0xff_ffff && w.sizeint[2] <= 0xff_ffff {
      Positive(x, y, z);
      ProductOfThree(w.sizeint);
      BitLengthLeast(Product(w.sizeint), 0);
    }
  }

  /** `SizedBy` fixes the widths. */
  lemma SizedByUnique(minint: seq<I32>, maxint: seq<I32>, w: Widths)
    requires |minint| == 3 && |maxint| == 3
    requires forall i :: 0 <= i < 3 ==> SizeInt(minint[i], maxint[i]).Ok?
    requires SizedBy(minint, maxint, w)
    ensures w == WidthsOf(minint, maxint)
  {
    var v := WidthsOf(minint, maxint);
    assert w.sizeint == v.sizeint;
    if w.bitsize == 0 {
      assert w.bitsizeint == v.bitsizeint;
    }
  }

  /** `sizeofint`: double `n` from 1 until it exceeds `size`, at most 32
      times. `n <<= 1` on a `u32` drops the top bit. */
  method SizeOfInt(size: U32) returns (nbits: nat)
    ensures nbits == BitLength(size)
    ensures size < Pow2(nbits) && (nbits == 0 || Pow2(nbits - 1) <= size)
    ensures nbits <= 32
  {
    var n: U32 := 1;
    nbits := 0;
    Pow2Values();
    while size >= n && nbits < 32
      invariant nbits <= 32
      decreases 32 - nbits
      invariant nbits < 32 ==> n == Pow2(nbits)
      invariant nbits == 32 ==> n == 0
      invariant nbits == 0 || Pow2(nbits - 1) <= size
    {
      assert Shl(n, 1) == 2 * n;
      if nbits + 1 < 32 {
        Pow2Mono(nbits + 1, 31);
        assert Pow2(32) == 2 * Pow2(31);
      }
      nbits := nbits + 1;
      n := Wrap32(Shl(n, 1));
    }
    BitLengthLeast(size, nbits);
    if nbits > 0 {
      BitLengthLeast(size, nbits - 1);
    }
  }

  /** The weight of byte `k` of a little-endian number, `2^(8 k)`. */
  function Place(k: nat): (p: nat)
    ensures p >= 1
  {
    if k == 0 then 1 else 0x100 * Place(k - 1)
  }

  lemma {:induction false} PlacePow2(k: nat)
    ensures Place(k) == Pow2(8 * k)
  {
    if k > 0 {
      PlacePow2(k - 1);
      Pow2Add(8 * (k - 1), 8);
      Pow2Values();
    }
  }

  lemma {:induction false} PlaceMono(a: nat, b: nat)
    requires a <= b
    ensures Place(a) <= Place(b)
  {
    if a < b {
      PlaceMono(a, b - 1);
    }
  }

  /** `x << (8 k)`: `x` moved up `k` bytes. */
  function Shifted(x: nat, k: nat): nat
  {
    if k == 0 then x else 0x100 * Shifted(x, k - 1)
  }

  lemma {:induction false} ShiftedPlace(x: nat, k: nat)
    ensures Shifted(x, k) == x * Place(k)
  {
    if k > 0 {
      ShiftedPlace(x, k - 1);
    }
  }

  lemma {:induction false} ShiftedAdd(a: nat, b: nat, k: nat)
    ensures Shifted(a + b, k) == Shifted(a, k) + Shifted(b, k)
  {
    if k > 0 {
      ShiftedAdd(a, b, k - 1);
    }
  }

  lemma {:induction false} ShiftedNext(x: nat, k: nat)
    ensures Shifted(x, k + 1) == Shifted(0x100 * x, k)
  {
    if k > 0 {
      ShiftedNext(x, k - 1);
    }
  }

  /** `a * b`, spelled out as repeated addition so that the proofs about
      the byte-wise multiply stay linear. */
  function Times(a: nat, b: nat): nat
  {
    if b == 0 then 0 else Times(a, b - 1) + a
  }

  lemma {:induction false} TimesValue(a: nat, b: nat)
    ensures Times(a, b) == a * b
  {
    if b > 0 {
      TimesValue(a, b - 1);
    }
  }

  lemma {:induction false} TimesAtLeast(a: nat, b: nat)
    requires Times(a, b) > 0
    ensures a <= Times(a, b)
  {
    if b > 1 {
      TimesAtLeast(a, b - 1);
    }
  }

  lemma {:induction false} TimesAdd(a: nat, b: nat, c: nat)
    ensures Times(a + b, c) == Times(a, c) + Times(b, c)
  {
    if c > 0 {
      TimesAdd(a, b, c - 1);
    }
  }

  lemma {:induction false} TimesByte(a: nat, c: nat)
    ensures Times(0x100 * a, c) == 0x100 * Times(a, c)
  {
    if c > 0 {
      TimesByte(a, c - 1);
    }
  }

  lemma {:induction false} ShiftedTimes(x: nat, y: nat, k: nat)
    ensures Times(Shifted(x, k), y) == Shifted(Times(x, y), k)
  {
    if k > 0 {
      ShiftedTimes(x, y, k - 1);
      TimesByte(Shifted(x, k - 1), y);
    }
  }

  /** The number written by the bytes `s`, least significant first. */
  function LittleEndian(s: seq<Byte>): nat
  {
    if s == [] then 0 else LittleEndian(s[..|s| - 1]) + Shifted(s[|s| - 1], |s| - 1)
  }

  lemma {:induction false} LittleEndianBound(s: seq<Byte>)
    ensures LittleEndian(s) < Place(|s|)
  {
    if s != [] {
      var k := |s| - 1;
      LittleEndianBound(s[..k]);
      ShiftedPlace(s[k], k);
      MulMono(Place(k), s[k], 0xff);
    }
  }

  /** With a nonzero top byte, `s` is written with exactly its length. */
  lemma TopByte(s: seq<Byte>)
    requires s != []
    ensures s[|s| - 1] == 0 ==> LittleEndian(s) < Place(|s| - 1)
    ensures s[|s| - 1] != 0 ==> Place(|s| - 1) <= LittleEndian(s)
  {
    var k := |s| - 1;
    LittleEndianBound(s[..k]);
    ShiftedPlace(s[k], k);
    if s[k] != 0 {
      MulMono(Place(k), 1, s[k]);
    }
  }

  /** The bits of a little-endian number: all bytes below the top one, and
      the significant bits of the top one. */
  lemma TopByteBits(s: seq<Byte>)
    requires s != [] && s[|s| - 1] != 0
    ensures BitLength(LittleEndian(s)) == 8 * (|s| - 1) + BitLength(s[|s| - 1])
  {
    var k: nat, top: nat := |s| - 1, s[|s| - 1];
    var m, b := 8 * k, BitLength(top);
    var v := LittleEndian(s);
    BitLengthBounds(top);
    LittleEndianBound(s[..k]);
    PlacePow2(k);
    ShiftedPlace(top, k);
    assert v == LittleEndian(s[..k]) + top * Pow2(m);
    TopBound(LittleEndian(s[..k]), top, m, b, v);
    BitLengthExact(v, m + b);
  }

  /** A number at least `2^(n-1)` and below `2^n` has exactly `n` bits. */
  lemma BitLengthExact(v: nat, n: nat)
    requires 1 <= n && Pow2(n - 1) <= v < Pow2(n)
    ensures BitLength(v) == n
  {
    BitLengthLeast(v, n);
    BitLengthLeast(v, n - 1);
  }

  /** A top digit of `b` bits above `m` lower bits makes `m + b` bits. */
  lemma TopBound(lo: nat, top: nat, m: nat, b: nat, v: nat)
    requires lo < Pow2(m) && 1 <= b && Pow2(b - 1) <= top < Pow2(b)
    requires v == lo + top * Pow2(m)
    ensures 1 <= m + b && Pow2(m + b - 1) <= v < Pow2(m + b)
  {
    Pow2Add(m, b - 1);
    Pow2Add(m, b);
    Between(lo, top, Pow2(m), Pow2(b - 1), Pow2(b));
  }

  /** A top digit between `pl` and `ph` puts the number between `pl * w`
      and `ph * w`. */
  lemma Between(lo: int, top: int, w: int, pl: int, ph: int)
    requires 0 <= lo < w && 0 <= pl <= top < ph
    ensures pl * w <= lo + top * w < ph * w
  {
    MulMono(w, pl, top);
    MulMono(w, top + 1, ph);
  }

  /** One step of the byte-wise multiply: `bytes[k] = tmp & 0xff` and
      `tmp >>= 8` keep value and carry together. */
  lemma CarryStep(tmp: nat, k: nat)
    ensures Shifted(tmp % 0x100, k) + Shifted(tmp / 0x100, k + 1) == Shifted(tmp, k)
  {
    ShiftedNext(tmp / 0x100, k);
    ShiftedAdd(tmp % 0x100, 0x100 * (tmp / 0x100), k);
  }

  /** The product of `s`. */
  function Product(s: seq<U32>): nat
  {
    if s == [] then 1 else Product(s[..|s| - 1]) * (s[|s| - 1] as nat)
  }

  lemma ProductOfThree(s: seq<U32>)
    requires |s| == 3
    ensures Product(s) == (s[0] as nat) * (s[1] as nat) * (s[2] as nat)
  {
    assert s[..2][..1] == s[..1] && s[..1][..0] == [] && s[..3] == s;
    assert Product(s[..1]) == s[0];
    assert Product(s[..2]) == (s[0] as nat) * (s[1] as nat);
  }

  lemma {:induction false} PlaceAdd(a: nat, b: nat)
    ensures Place(a + b) == Place(a) * Place(b)
  {
    if b > 0 {
      PlaceAdd(a, b - 1);
    }
  }

  /** Each factor below `2^24`: the product of `n > 0` of them is below
      `2^(24 n)`, that is, fits in `3 n` bytes. */
  lemma {:induction false} ProductBound(s: seq<U32>)
    requires forall j :: 0 <= j < |s| ==> s[j] <= 0xff_ffff
    ensures Product(s) <= Place(3 * |s|)
    ensures s != [] ==> Product(s) < Place(3 * |s|)
  {
    if s != [] {
      var k := |s| - 1;
      var p, x := Product(s[..k]), s[k] as nat;
      ProductBound(s[..k]);
      PlaceAdd(3 * k, 3);
      assert Place(3) == 0x100_0000;
      MulMono(x, p, Place(3 * k));
      if x > 0 {
        MulMono(Place(3 * k), x, Place(3) - 1);
        assert Place(3 * k) * (Place(3) - 1) < Place(3 * k) * Place(3);
      }
    }
  }

  lemma Positive(a: int, b: int, c: int)
    requires a > 0 && b > 0 && c > 0
    ensures a * b * c > 0
  {
    MulMono(a, 1, b);
    MulMono(a * b, 1, c);
  }

  /** `bytes[..nbytes] *= size`, for one `size` of `sizeofints`: the first
      loop multiplies the bytes there, the second writes out the carry. */
  method MultiplyBytes(bytes: array<Byte>, nbytes: nat, size: U32) returns (count: nat)
    requires bytes.Length == 32 && 1 <= nbytes <= 32 && size <= 0xff_ffff
    requires LittleEndian(bytes[..nbytes]) * size < Place(9)
    requires LittleEndian(bytes[..nbytes]) > 0 ==> bytes[nbytes - 1] != 0
    modifies bytes
    ensures nbytes <= count <= 32
    ensures LittleEndian(bytes[..count]) == old(LittleEndian(bytes[..nbytes])) * size
    ensures LittleEndian(bytes[..count]) > 0 ==> bytes[count - 1] != 0
  {
    ghost var s0 := bytes[..nbytes];
    var tmp := MultiplyLow(bytes, nbytes, size);
    TimesValue(LittleEndian(s0), size);
    count := CarryOut(bytes, nbytes, tmp, Times(LittleEndian(s0), size));
    KeepsTop(s0, bytes[..count], size);
  }

  /** A product written over at least as many bytes as its first factor
      keeps a nonzero top byte. */
  lemma KeepsTop(s0: seq<Byte>, s1: seq<Byte>, size: nat)
    requires s0 != [] && |s0| <= |s1|
    requires LittleEndian(s0) > 0 ==> s0[|s0| - 1] != 0
    requires LittleEndian(s1) == Times(LittleEndian(s0), size)
    requires |s1| > |s0| ==> s1[|s1| - 1] != 0
    ensures LittleEndian(s1) > 0 ==> s1[|s1| - 1] != 0
  {
    if |s1| == |s0| && LittleEndian(s1) > 0 {
      TimesAtLeast(LittleEndian(s0), size);
      TopByte(s0);
      TopByte(s1);
    }
  }

  /** The first loop of `sizeofints` for one `size`: multiply the bytes
      already there, keeping a carry `tmp`. Every `tmp` stays below `2^32`
      because `size < 2^24`. */
  method MultiplyLow(bytes: array<Byte>, nbytes: nat, size: U32) returns (tmp: nat)
    requires bytes.Length == 32 && nbytes <= 32 && size <= 0xff_ffff
    modifies bytes
    ensures LittleEndian(bytes[..nbytes]) + Shifted(tmp, nbytes) == Times(old(LittleEndian(bytes[..nbytes])), size)
  {
    ghost var b0 := bytes[..];
    tmp := 0;
    var bytecount: nat := 0;
    TimesValue(LittleEndian(b0[..0]), size);
    while bytecount < nbytes
      invariant 0 <= bytecount <= nbytes
      invariant forall j :: bytecount <= j < 32 ==> bytes[j] == b0[j]
      invariant LittleEndian(bytes[..bytecount]) + Shifted(tmp, bytecount) == Times(LittleEndian(b0[..bytecount]), size)
      invariant tmp == 0 || tmp < size
    {
      tmp := MultiplyDigit(bytes, bytecount, tmp, size, b0);
      bytecount := bytecount + 1;
    }
    assert b0[..bytecount] == b0[..nbytes];
  }

  /** The body of the first loop: `tmp += bytes[i] as u32 * size`, then the
      low byte of `tmp` goes to `bytes[i]` and `tmp >>= 8`. */
  method MultiplyDigit(bytes: array<Byte>, i: nat, tmp0: nat, size: U32, ghost b0: seq<Byte>) returns (tmp: nat)
    requires bytes.Length == 32 && i < 32 && |b0| == 32 && size <= 0xff_ffff
    requires bytes[i] == b0[i] && (tmp0 == 0 || tmp0 < size)
    requires LittleEndian(bytes[..i]) + Shifted(tmp0, i) == Times(LittleEndian(b0[..i]), size)
    modifies bytes
    ensures forall j :: 0 <= j < 32 && j != i ==> bytes[j] == old(bytes[j])
    ensures tmp == 0 || tmp < size
    ensures LittleEndian(bytes[..i + 1]) + Shifted(tmp, i + 1) == Times(LittleEndian(b0[..i + 1]), size)
  {
    ghost var pre := bytes[..i];
    assert b0[..i + 1][..i] == b0[..i];
    CarryBound(tmp0, bytes[i], size);
    MulByte(pre, b0[..i + 1], tmp0, size);
    TimesValue(bytes[i], size);
    ghost var t := tmp0 + Times(b0[i], size);
    ghost var lo := pre + [t % 0x100];
    assert LittleEndian(lo) + Shifted(t / 0x100, i + 1) == Times(LittleEndian(b0[..i + 1]), size);
    tmp := tmp0 + bytes[i] * size;
    assert tmp == t;
    bytes[i] := tmp % 0x100;
    assert bytes[..i + 1] == lo;
    tmp := tmp / 0x100;
  }

  /** One turn of the first loop: `tmp += bytes[i] as u32 * size`, store its
      low byte, keep the rest as the carry. */
  lemma MulByte(pre: seq<Byte>, b: seq<Byte>, tmp: nat, size: nat)
    requires |b| == |pre| + 1
    requires LittleEndian(pre) + Shifted(tmp, |pre|) == Times(LittleEndian(b[..|pre|]), size)
    ensures LittleEndian(pre + [(tmp + Times(b[|pre|], size)) % 0x100])
              + Shifted((tmp + Times(b[|pre|], size)) / 0x100, |pre| + 1)
              == Times(LittleEndian(b), size)
  {
    var k, d := |pre|, b[|pre|];
    MulStep(pre, b, tmp, size);
    var t := tmp + Times(d, size);
    assert LittleEndian(pre) + Shifted(t, k) == Times(LittleEndian(b), size);
    CarryStep(t, k);
    var lo: Byte := t % 0x100;
    assert Shifted(lo, k) + Shifted(t / 0x100, k + 1) == Shifted(t, k);
    AppendByte(pre, lo);
    assert LittleEndian(pre + [lo]) == LittleEndian(pre) + Shifted(lo, k);
  }

  /** `tmp += bytes[i] as u32 * size` cannot overflow, and the carry stays
      below `size`. */
  lemma CarryBound(tmp: nat, d: nat, size: nat)
    requires d < 0x100 && (tmp == 0 || tmp < size) && size <= 0xff_ffff
    ensures tmp + Times(d, size) < U32_LIMIT
    ensures (tmp + Times(d, size)) / 0x100 == 0 || (tmp + Times(d, size)) / 0x100 < size
  {
    TimesValue(d, size);
    MulMono(size, d, 0xff);
    if size > 0 {
      assert tmp + d * size < 0x100 * size;
    }
  }

  lemma AppendByte(pre: seq<Byte>, x: Byte)
    ensures LittleEndian(pre + [x]) == LittleEndian(pre) + Shifted(x, |pre|)
  {
    assert (pre + [x])[..|pre|] == pre;
  }

  /** The first loop's step, before the byte is stored. */
  lemma MulStep(lo: seq<Byte>, b: seq<Byte>, tmp: nat, size: nat)
    requires |b| == |lo| + 1
    requires LittleEndian(lo) + Shifted(tmp, |lo|) == Times(LittleEndian(b[..|lo|]), size)
    ensures LittleEndian(lo) + Shifted(tmp + Times(b[|lo|], size), |lo|) == Times(LittleEndian(b), size)
  {
    var k := |lo|;
    assert b[..|b| - 1] == b[..k];
    var hi, d := LittleEndian(b[..k]), b[k];
    assert LittleEndian(b) == hi + Shifted(d, k);
    ShiftedAdd(tmp, Times(d, size), k);
    ShiftedTimes(d, size, k);
    TimesAdd(hi, Shifted(d, k), size);
  }

  /** A carry left over means the product has not been written out yet:
      there is room for another byte below the ninth. */
  lemma CarryRoom(lo: nat, tmp: nat, count: nat)
    requires tmp > 0 && lo + Shifted(tmp, count) < Place(9)
    ensures count < 9
  {
    ShiftedPlace(tmp, count);
    MulMono(Place(count), 1, tmp);
    PlaceMono(9, if count < 9 then 9 else count);
  }

  /** The second loop of `sizeofints`: `while tmp != 0`, append
      `tmp & 0xff` and shift it out. */
  method CarryOut(bytes: array<Byte>, count0: nat, tmp0: nat, ghost total: nat) returns (count: nat)
    requires bytes.Length == 32 && count0 <= 32 && total < Place(9)
    requires LittleEndian(bytes[..count0]) + Shifted(tmp0, count0) == total
    modifies bytes
    ensures count0 <= count <= 32
    ensures LittleEndian(bytes[..count]) == total
    ensures count > count0 ==> bytes[count - 1] != 0
    ensures bytes[..count0] == old(bytes[..count0])
  {
    var tmp: nat := tmp0;
    count := count0;
    while tmp != 0
      invariant count0 <= count <= 32
      invariant LittleEndian(bytes[..count]) + Shifted(tmp, count) == total
      invariant count > count0 ==> bytes[count - 1] != 0 || tmp != 0
      invariant forall j :: 0 <= j < count0 ==> bytes[j] == old(bytes[j])
      decreases tmp
    {
      tmp := CarryDigit(bytes, count, tmp, total);
      count := count + 1;
    }
    ShiftedPlace(0, count);
  }

  /** The body of the second loop: the low byte of the carry goes to
      `bytes[i]` and `tmp >>= 8`. The index stays inside the scratch array
      because the whole product is below `2^72`. */
  method CarryDigit(bytes: array<Byte>, i: nat, tmp0: nat, ghost total: nat) returns (tmp: nat)
    requires bytes.Length == 32 && tmp0 > 0 && total < Place(9)
    requires i <= 32 && LittleEndian(bytes[..i]) + Shifted(tmp0, i) == total
    modifies bytes
    ensures i < 9 && tmp < tmp0
    ensures forall j :: 0 <= j < 32 && j != i ==> bytes[j] == old(bytes[j])
    ensures LittleEndian(bytes[..i + 1]) + Shifted(tmp, i + 1) == total
    ensures tmp == 0 ==> bytes[i] != 0
  {
    ghost var pre := bytes[..i];
    CarryRoom(LittleEndian(pre), tmp0, i);
    CarryStep(tmp0, i);
    AppendByte(pre, tmp0 % 0x100);
    bytes[i] := tmp0 % 0x100;
    assert bytes[..i + 1] == pre + [tmp0 % 0x100];
    tmp := tmp0 / 0x100;
  }

  /** `sizeofints`: the bits of `sizes[0] * sizes[1] * sizes[2]`, multiplied
      out byte by byte in a 32-byte scratch array, then eight bits for each
      byte below the top one and the significant bits of the top one. The
      caller, `CalcSizeInt`, only calls it with sizes below `2^24`. A zero
      size would leave zero bytes on top (the count then is not the bit
      length of 0), but the sizes of `CalcSizeInt` are never zero. */
  method SizeOfInts(sizes: seq<U32>) returns (r: nat)
    requires |sizes| == 3
    requires forall i :: 0 <= i < 3 ==> sizes[i] <= 0xff_ffff
    ensures sizes[0] > 0 && sizes[1] > 0 && sizes[2] > 0 ==> r == BitLength((sizes[0] as nat) * (sizes[1] as nat) * (sizes[2] as nat))
  {
    var bytes := new Byte[32](_ => 0);
    bytes[0] := 1;
    var nbytes: nat := 1;
    assert LittleEndian(bytes[..1]) == 1 by {
      assert bytes[..1][..0] == [];
    }
    for i := 0 to 3
      invariant 1 <= nbytes <= 32
      invariant LittleEndian(bytes[..nbytes]) == Product(sizes[..i])
      invariant Product(sizes[..i]) > 0 ==> bytes[nbytes - 1] != 0
    {
      NextFactor(sizes, i);
      nbytes := MultiplyBytes(bytes, nbytes, sizes[i]);
    }
    assert sizes[..3] == sizes;
    ghost var top := bytes[..nbytes];
    nbytes := nbytes - 1;
    var nbits := TopBits(bytes[nbytes]);
    r := nbytes * 8 + nbits;
    ProductBits(sizes, top);
  }

  /** One more factor: the running product stays below `2^72`. */
  lemma NextFactor(sizes: seq<U32>, i: nat)
    requires i < |sizes| <= 3
    requires forall j :: 0 <= j < |sizes| ==> sizes[j] <= 0xff_ffff
    ensures Product(sizes[..i + 1]) == Product(sizes[..i]) * (sizes[i] as nat)
    ensures Product(sizes[..i + 1]) < Place(9)
  {
    assert sizes[..i + 1][..i] == sizes[..i];
    ProductBound(sizes[..i + 1]);
    PlaceMono(3 * (i + 1), 9);
  }

  /** The bit count read off the top byte is the bit length of the product. */
  lemma ProductBits(sizes: seq<U32>, top: seq<Byte>)
    requires |sizes| == 3 && top != []
    requires LittleEndian(top) == Product(sizes)
    requires LittleEndian(top) > 0 ==> top[|top| - 1] != 0
    ensures sizes[0] > 0 && sizes[1] > 0 && sizes[2] > 0 ==>
      (|top| - 1) * 8 + BitLength(top[|top| - 1]) == BitLength((sizes[0] as nat) * (sizes[1] as nat) * (sizes[2] as nat))
  {
    if sizes[0] > 0 && sizes[1] > 0 && sizes[2] > 0 {
      ProductOfThree(sizes);
      Positive(sizes[0], sizes[1], sizes[2]);
      TopByteBits(top);
    }
  }

  /** The last loop of `sizeofints`: the number of bits of the top byte. */
  method TopBits(x: Byte) returns (nbits: nat)
    ensures nbits == BitLength(x)
  {
    var num: nat := 1;
    nbits := 0;
    while x >= num
      invariant num == Pow2(nbits) && nbits <= 8
      invariant nbits == 0 || Pow2(nbits - 1) <= x
    {
      if nbits == 8 {
        Pow2Values();
        assert false;
      }
      nbits := nbits + 1;
      num := num * 2;
    }
    BitLengthLeast(x, nbits);
    if nbits > 0 {
      BitLengthLeast(x, nbits - 1);
    }
  }
}
