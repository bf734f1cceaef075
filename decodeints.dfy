/** `decodeints` in src/reader.rs: the three integers of a coordinate that
    were packed into one `nbits`-bit number. Up to 32 and up to 64 bits the
    word unpackers of module Unpack do the work; a longer number is gathered
    into a 32-byte little-endian buffer and split by long division, one
    size at a time, from the top byte down. */
module DecodeInts {
  import opened Bits
  import opened Errors
  import opened Xdr
  import opened BitStream
  import opened Sizes
  import opened Unpack

  // ---------------------------------------------------------------------
  // Little-endian byte strings

  lemma {:induction false} LittleEndianCons(b: Byte, s: seq<Byte>)
    ensures LittleEndian([b] + s) == b + 0x100 * LittleEndian(s)
    decreases |s|
  {
    if s != [] {
      var k := |s| - 1;
      assert ([b] + s)[..k + 1] == [b] + s[..k];
      LittleEndianCons(b, s[..k]);
      ShiftedNext(s[k], k);
    } else {
      assert ([b] + s)[..0] == [];
    }
  }

  lemma {:induction false} ShiftedShifted(x: nat, a: nat, b: nat)
    ensures Shifted(Shifted(x, a), b) == Shifted(x, a + b)
    decreases b
  {
    if b > 0 {
      ShiftedShifted(x, a, b - 1);
    }
  }

  /** The bytes below `m` and the bytes from `m` on. */
  lemma {:induction false} LittleEndianSplit(s: seq<Byte>, m: nat)
    requires m <= |s|
    ensures LittleEndian(s) == LittleEndian(s[..m]) + Shifted(LittleEndian(s[m..]), m)
    decreases |s|
  {
    if m == |s| {
      assert s[..m] == s && s[m..] == [];
      ShiftedPlace(0, m);
    } else {
      var k := |s| - 1;
      assert s[..k][..m] == s[..m];
      assert s[m..] == s[m..k] + [s[k]];
      LittleEndianSplit(s[..k], m);
      assert s[..k][m..] == s[m..k];
      AppendByte(s[m..k], s[k]);
      ShiftedAdd(LittleEndian(s[m..k]), Shifted(s[k], k - m), m);
      ShiftedShifted(s[k], k - m, m);
    }
  }

  /** The first `m` bytes hold the number modulo `2^(8 m)`. */
  lemma LittleEndianLow(s: seq<Byte>, m: nat)
    requires m <= |s|
    ensures LittleEndian(s[..m]) == LittleEndian(s) % Place(m)
  {
    LittleEndianSplit(s, m);
    LittleEndianBound(s[..m]);
    ShiftedPlace(LittleEndian(s[m..]), m);
    LowDigits(LittleEndian(s), Place(m), LittleEndian(s[m..]), LittleEndian(s[..m]));
  }

  lemma LowDigits(x: nat, pl: nat, hi: nat, lo: nat)
    requires 0 <= lo < pl && x == lo + hi * pl
    ensures lo == x % pl
  {
    DivModUnique(x, pl, hi, lo);
  }

  /** `i32::from_le_bytes`: four bytes, lowest first, read as two's
      complement. */
  function FromLeBytes(s: seq<Byte>): (i: int)
    requires |s| == 4
    ensures -0x8000_0000 <= i < 0x8000_0000
  {
    LittleEndianBound(s);
    PlacePow2(4);
    Pow2Values();
    AsI32(LittleEndian(s))
  }

  /** The four low bytes of a longer number give its low 32 bits. */
  lemma FromLeBytesLow(s: seq<Byte>)
    requires 4 <= |s|
    ensures FromLeBytes(s[..4]) == ToI32(LittleEndian(s))
  {
    LittleEndianLow(s, 4);
    PlacePow2(4);
    Pow2Values();
  }

  // ---------------------------------------------------------------------
  // Gathering the bytes

  /** The first loops of the long path: `bytes[nbytes] = decodebits(.., 8)`
      while eight bits are wanted, then one byte of the rest. A number of
      more than 256 bits indexes past the 32 bytes. */
  method CollectBytes(buf: seq<Byte>, st: DecodeState, nbits: nat, bytes: array<Byte>)
      returns (r: Result<(nat, DecodeState)>)
    requires Valid(buf, st) && bytes.Length == 32
    modifies bytes
    ensures r.Ok? <==> CanRead(buf, st, nbits) && nbits <= 256
    ensures r.Ok? ==> r.value.0 == (nbits + 7) / 8 && Valid(buf, r.value.1) && Pos(r.value.1) == Pos(st) + nbits
    ensures r.Ok? ==> (CanRead(buf, st, nbits) && r.value.0 <= 32
                       && LittleEndian(bytes[..r.value.0]) == LittleValue(buf, Pos(st), nbits))
  {
    ghost var p0 := Pos(st);
    var cur := st;
    var nbytes: nat := 0;
    var n := nbits;
    while n >= 8
      invariant Valid(buf, cur) && nbytes <= 32 && 8 * nbytes + n == nbits
      invariant Gathering(buf, p0, nbits, Pos(cur), LittleEndian(bytes[..nbytes]), nbytes, n)
    {
      var res := CollectByte(buf, p0, nbits, cur, bytes, nbytes, n, 8);
      if res.Err? {
        assert !(CanRead(buf, st, nbits) && nbits <= 256);
        return Err(res.error);
      }
      cur := res.value;
      nbytes := nbytes + 1;
      n := n - 8;
    }
    if n > 0 {
      r := CollectTail(buf, st, nbits, cur, bytes, nbytes, n);
      return;
    }
    BytesDone(buf, p0, nbits, Pos(cur), LittleEndian(bytes[..nbytes]), nbytes);
    return Ok((nbytes, cur));
  }

  /** `if nbits > 0 { bytes[nbytes] = decodebits(.., nbits); nbytes += 1 }`. */
  method CollectTail(buf: seq<Byte>, st: DecodeState, nbits: nat, cur: DecodeState, bytes: array<Byte>, nbytes: nat, n: nat)
      returns (r: Result<(nat, DecodeState)>)
    requires Valid(buf, st) && Valid(buf, cur) && bytes.Length == 32 && nbytes <= 32
    requires 0 < n < 8 && 8 * nbytes + n == nbits
    requires Gathering(buf, Pos(st), nbits, Pos(cur), LittleEndian(bytes[..nbytes]), nbytes, n)
    modifies bytes
    ensures r.Ok? <==> CanRead(buf, st, nbits) && nbits <= 256
    ensures r.Ok? ==> r.value.0 == (nbits + 7) / 8 && Valid(buf, r.value.1) && Pos(r.value.1) == Pos(st) + nbits
    ensures r.Ok? ==> (CanRead(buf, st, nbits) && r.value.0 <= 32
                       && LittleEndian(bytes[..r.value.0]) == LittleValue(buf, Pos(st), nbits))
  {
    ghost var p0 := Pos(st);
    var res := CollectByte(buf, p0, nbits, cur, bytes, nbytes, n, n);
    if res.Err? {
      assert !(CanRead(buf, st, nbits) && nbits <= 256);
      return Err(res.error);
    }
    BytesDone(buf, p0, nbits, Pos(res.value), LittleEndian(bytes[..nbytes + 1]), nbytes + 1);
    return Ok((nbytes + 1, res.value));
  }

  /** `bytes[nbytes] = decodebits(buf, state, m)`: the bits are decoded
      before the index is checked. */
  method CollectByte(buf: seq<Byte>, ghost p0: nat, ghost nbits: nat, cur: DecodeState,
                     bytes: array<Byte>, nbytes: nat, n: nat, m: nat)
      returns (r: Result<DecodeState>)
    requires Valid(buf, cur) && bytes.Length == 32 && nbytes <= 32
    requires Gathering(buf, p0, nbits, Pos(cur), LittleEndian(bytes[..nbytes]), nbytes, n)
    requires 0 < n && m == Min(n, 8)
    modifies bytes
    ensures r.Ok? <==> CanRead(buf, cur, m) && nbytes < 32
    ensures r.Err? ==> p0 + nbits > 8 * |buf| || nbytes == 32
    ensures r.Ok? ==> Valid(buf, r.value) && Pos(r.value) == Pos(cur) + m
    ensures r.Ok? ==> nbytes < 32 && Gathering(buf, p0, nbits, Pos(cur) + m, LittleEndian(bytes[..nbytes + 1]), nbytes + 1, n - m)
  {
    var res := TryDecodeBits(buf, cur, m);
    if res.Err? {
      GatherShort(buf, p0, nbits, Pos(cur), LittleEndian(bytes[..nbytes]), nbytes, n, m);
      return Err(res.error);
    }
    var (b, next) := res.value;
    if nbytes == 32 {
      return Err(Panic("index out of bounds"));
    }
    ByteBelow(m, b);
    ghost var pre := bytes[..nbytes];
    StoreByte(bytes, nbytes, b as Byte);
    CollectNext(buf, p0, nbits, Pos(cur), pre, bytes[..nbytes + 1], nbytes, n, m, b);
    return Ok(next);
  }

  /** The next `m` bits missing means the whole number is missing. */
  lemma GatherShort(buf: seq<Byte>, p0: nat, nbits: nat, p: nat, v: nat, k: nat, n: nat, m: nat)
    requires Gathering(buf, p0, nbits, p, v, k, n) && m <= n && p + m > 8 * |buf|
    ensures p0 + nbits > 8 * |buf|
  {
  }

  /** `bytes[k] = b`: the first `k + 1` bytes are the first `k` and `b`. */
  method StoreByte(bytes: array<Byte>, k: nat, b: Byte)
    requires k < bytes.Length
    modifies bytes
    ensures bytes[..k + 1] == old(bytes[..k]) + [b]
  {
    bytes[k] := b;
    assert bytes[..k + 1] == old(bytes[..k]) + [b];
  }

  /** A value of at most eight bits fits a byte. */
  lemma ByteBelow(m: nat, b: nat)
    requires m <= 8 && b < Pow2(m)
    ensures b < 0x100
  {
    Pow2Mono(m, 8);
    Pow2Values();
  }

  /** The gathered bytes grow by the next byte of the stream. */
  lemma CollectNext(buf: seq<Byte>, p0: nat, nbits: nat, p: nat, pre: seq<Byte>, ext: seq<Byte>,
                    k: nat, n: nat, m: nat, b: nat)
    requires Gathering(buf, p0, nbits, p, LittleEndian(pre), k, n)
    requires 0 < n && m == Min(n, 8)
    requires p + m <= 8 * |buf| && b == StreamValue(buf, p, m)
    requires k == |pre| && b < 0x100 && ext == pre + [b as Byte]
    ensures b < 0x100
    ensures Gathering(buf, p0, nbits, p + m, LittleEndian(ext), k + 1, n - m)
  {
    GatherNext(buf, p0, nbits, p, LittleEndian(pre), |pre|, n, m, b);
    AppendByte(pre, b as Byte);
  }

  // ---------------------------------------------------------------------
  // Long division

  /** `x / d` is below `q` when `x` is below `d * q`. */
  lemma DivBelow(x: nat, d: nat, q: nat)
    requires d > 0 && x < d * q
    ensures x / d < q
  {
    var t := if x / d >= q then q else x / d;
    MulMono(d, t, x / d);
  }

  /** One byte of the division: `num = (num << 8) | byte` on a `u32`, then
      `p = num / size`. While the remainder is below `size <= 2^24` nothing
      is shifted out, the quotient byte fits a `u8`, and the new remainder
      is again below `size`. */
  lemma DivideStep(num: nat, d: nat, size: nat, x: nat, p: nat, num': int)
    requires 0 < size <= 0x100_0000 && num < size && d < 0x100
    requires x == Or(Wrap32(Shl(num, 8)), d) && p == x / size && num' == x - p * size
    ensures x == 0x100 * num + d && p < 0x100 && 0 <= num' < size
    ensures d + 0x100 * num == p * size + num'
  {
    ShiftIn(num, d);
    MulMono(0x100, num + 1, size);
    DivBelow(x, size, 0x100);
    SubMul(x, size);
  }

  /** `(num << 8) | d` on a `u32` with `num < 2^24` loses no bits. */
  lemma ShiftIn(num: nat, d: nat)
    requires num < 0x100_0000 && d < 0x100
    ensures Or(Wrap32(Shl(num, 8)), d) == 0x100 * num + d
  {
    Pow2Values();
    ShlMul(num, 8);
    var y := 0x100 * num;
    assert y < U32_LIMIT;
    assert Wrap32(y) == y;
    OrDisjoint(num, d, 8);
  }

  /** One digit of long division: the byte `d` below the remainder `num`
      is `q` times `size` plus the new remainder `num'`. */
  predicate DigitHolds(d: nat, num: nat, size: nat, q: nat, num': nat)
  {
    d + 0x100 * num == q * size + num'
  }

  /** The value the processed bytes keep through one division step: the
      byte `d` above `rest` (quotient `q`, remainder `num`) becomes the byte
      `p` above `q`, remainder `num'`. */
  lemma DivideInvariant(rest: nat, q: nat, num: nat, d: nat, size: nat, p: nat, num': nat, above: nat, quot: nat)
    requires rest == q * size + num && DigitHolds(d, num, size, p, num')
    requires above == d + 0x100 * rest && quot == p + 0x100 * q
    ensures above == quot * size + num'
  {
    assert (p + 0x100 * q) * size == p * size + 0x100 * (q * size);
  }

  /** One more byte from the top: `[d] + rest` over `size` is `[p] + q`
      with the new remainder. */
  lemma DivideCons(d: Byte, rest: seq<Byte>, p: Byte, q: seq<Byte>, num: nat, size: nat, num': nat)
    requires LittleEndian(rest) == LittleEndian(q) * size + num
    requires DigitHolds(d, num, size, p, num')
    ensures LittleEndian([d] + rest) == LittleEndian([p] + q) * size + num'
  {
    LittleEndianCons(d, rest);
    LittleEndianCons(p, q);
    DivideInvariant(LittleEndian(rest), LittleEndian(q), num, d, size, p, num',
                    LittleEndian([d] + rest), LittleEndian([p] + q));
  }

  /** The arithmetic of one trip through the division loop. */
  lemma DigitFacts(num: nat, d: nat, size: nat, x: nat, p: nat, num': int)
    requires 0 < size && d < 0x100
    requires x == Or(Wrap32(Shl(num, 8)), d) && p == x / size && num' == x - p * size
    ensures 0 <= num'
    ensures size <= 0x100_0000 && num < size ==> num' < size && DigitHolds(d, num, size, p % 0x100, num')
  {
    SubMul(x, size);
    if size <= 0x100_0000 && num < size {
      DivideStep(num, d, size, x, p, num');
    }
  }

  /** One trip through the division loop, at byte `k = nbytes - 1 - j`:
      `num = (num << 8) | bytes[k] as u32; p = num / size;
      bytes[k] = p as u8; num -= p * size`. */
  method DivideDigit(bytes: array<Byte>, k: nat, num: nat, size: nat) returns (r: Result<nat>)
    requires bytes.Length == 32 && k < 32
    modifies bytes
    ensures r.Ok? <==> size > 0
    ensures forall j :: 0 <= j < 32 && j != k ==> bytes[j] == old(bytes[j])
    ensures r.Ok? && size <= 0x100_0000 && num < size ==>
      r.value < size && DigitHolds(old(bytes[k]), num, size, bytes[k], r.value)
  {
    var x := Or(Wrap32(Shl(num, 8)), bytes[k]);
    if size == 0 {
      return Err(Panic("attempt to divide by zero"));
    }
    var p := x / size;
    var num' := x - p * size;
    DigitFacts(num, bytes[k], size, x, p, num');
    bytes[k] := (p % 0x100) as Byte;
    return Ok(num');
  }

  /** The inner loop of the long path, for one `size`:
      `for j in 0..nbytes`, from the top byte down, each byte replaced by
      its quotient byte and the remainder carried down. It returns the last
      remainder: the low digit, and the bytes then hold the quotient. */
  method DivideBytes(bytes: array<Byte>, nbytes: nat, size: nat) returns (r: Result<nat>)
    requires bytes.Length == 32 && 0 < nbytes <= 32
    modifies bytes
    ensures r.Ok? <==> size > 0
    ensures r.Ok? && size <= 0x100_0000 ==>
      && r.value < size
      && LittleEndian(old(bytes[..nbytes])) == LittleEndian(bytes[..nbytes]) * size + r.value
  {
    ghost var orig := bytes[..nbytes];
    var num: nat := 0;
    for j := 0 to nbytes
      invariant forall i :: 0 <= i < nbytes - j ==> bytes[i] == orig[i]
      invariant size > 0 || j == 0
      invariant size > 0 && size <= 0x100_0000 ==>
        num < size && LittleEndian(orig[nbytes - j..]) == LittleEndian(bytes[nbytes - j..nbytes]) * size + num
    {
      var k := nbytes - 1 - j;
      ghost var q := bytes[k + 1..nbytes];
      assert orig[k..] == [orig[k]] + orig[k + 1..];
      var res := DivideDigit(bytes, k, num, size);
      if res.Err? {
        return Err(res.error);
      }
      assert bytes[k + 1..nbytes] == q;
      assert bytes[k..nbytes] == [bytes[k]] + q;
      if size <= 0x100_0000 {
        DivideCons(orig[k], orig[k + 1..], bytes[k], q, num, size, res.value);
      }
      num := res.value;
    }
    assert orig[0..] == orig && bytes[0..nbytes] == bytes[..nbytes];
    return Ok(num);
  }

  // ---------------------------------------------------------------------
  // The digits

  /** `v` divided by `sizes[hi - 1]`, then by `sizes[hi - 2]`, and so on
      down to `sizes[i]`. */
  function Quotient(v: nat, sizes: seq<U32>, i: nat, hi: nat): nat
    requires i <= hi <= |sizes| && forall j :: i <= j < hi ==> sizes[j] > 0
    decreases hi - i
  {
    if i == hi then v else Quotient(v, sizes, i + 1, hi) / sizes[i] as nat
  }

  /** No size in `sizes[i..hi]` is above `2^24`. */
  predicate Small(sizes: seq<U32>, i: nat, hi: nat)
    requires i <= hi <= |sizes|
  {
    forall j :: i <= j < hi ==> sizes[j] <= 0x100_0000
  }

  /** The state of the outer division loop once the sizes `i..hi` are
      done: the bytes hold `cur`, the quotient by all of them, and each of
      those digits holds its remainder. */
  ghost predicate Divided(v: nat, sizes: seq<U32>, nums: seq<int>, i: nat, hi: nat, cur: nat, out: seq<int>)
    requires |sizes| == 3 && |nums| == 3
  {
    && |out| == 3 && i <= hi <= 3
    && (forall j :: i <= j < hi ==> sizes[j] > 0)
    && (forall j :: 0 <= j < 3 && !(i <= j < hi) ==> out[j] == nums[j])
    && (Small(sizes, i, hi) ==>
          && cur == Quotient(v, sizes, i, hi)
          && forall j :: i <= j < hi ==> out[j] == ToI32(Quotient(v, sizes, j + 1, hi) % sizes[j] as nat))
  }

  /** Dividing by one more size keeps `Divided`. */
  lemma DividedNext(v: nat, sizes: seq<U32>, nums: seq<int>, i: nat, hi: nat, cur: nat, out: seq<int>, cur': nat, rem: nat)
    requires |sizes| == 3 && |nums| == 3 && i < hi
    requires Divided(v, sizes, nums, i + 1, hi, cur, out)
    requires sizes[i] > 0
    requires sizes[i] <= 0x100_0000 ==> rem < sizes[i] as nat && cur == cur' * sizes[i] as nat + rem
    ensures Divided(v, sizes, nums, i, hi, cur', out[i := ToI32(rem)])
  {
    if Small(sizes, i, hi) {
      assert Small(sizes, i + 1, hi);
      DivModUnique(cur, sizes[i] as nat, cur', rem);
    }
  }

  /** `for i in (lo..hi).rev() { ..; nums[i] = num as i32 }`: the number in
      `bytes[..nbytes]` is divided by `sizes[i]` from `i = hi - 1` down to
      `lo`, each remainder stored in its digit, and the bytes end up
      holding the last quotient. The digits outside `lo..hi` are kept. */
  method DivideOut(bytes: array<Byte>, nbytes: nat, sizes: seq<U32>, nums: seq<int>, lo: nat, hi: nat)
      returns (r: Result<seq<int>>)
    requires bytes.Length == 32 && 0 < nbytes <= 32
    requires |sizes| == 3 && |nums| == 3 && lo <= hi <= 3
    modifies bytes
    ensures r.Ok? <==> forall j :: lo <= j < hi ==> sizes[j] > 0
    ensures r.Ok? ==> Divided(LittleEndian(old(bytes[..nbytes])), sizes, nums, lo, hi, LittleEndian(bytes[..nbytes]), r.value)
  {
    ghost var v := LittleEndian(bytes[..nbytes]);
    var out := nums;
    for t := 0 to hi - lo
      invariant Divided(v, sizes, nums, hi - t, hi, LittleEndian(bytes[..nbytes]), out)
    {
      var i := hi - 1 - t;
      ghost var cur := LittleEndian(bytes[..nbytes]);
      var res := DivideBytes(bytes, nbytes, sizes[i]);
      if res.Err? {
        return Err(res.error);
      }
      DividedNext(v, sizes, nums, i, hi, cur, out, LittleEndian(bytes[..nbytes]), res.value);
      out := out[i := ToI32(res.value)];
    }
    return Ok(out);
  }

  /** The long path as it is meant to work (and as the C library it is
      taken from does): the digits for `sizes[2]` and `sizes[1]` are the
      remainders and the rest is the first number. */
  method DecodeLarge(buf: seq<Byte>, st: DecodeState, nbits: nat, sizes: seq<U32>, nums: seq<int>)
      returns (r: Result<(seq<int>, DecodeState)>)
    requires Valid(buf, st) && |sizes| == 3 && |nums| == 3 && 64 < nbits
    ensures r.Ok? <==> CanRead(buf, st, nbits) && nbits <= 256 && sizes[1] > 0 && sizes[2] > 0
    ensures r.Ok? ==> Valid(buf, r.value.1) && Pos(r.value.1) == Pos(st) + nbits
    ensures r.Ok? && sizes[1] <= 0x100_0000 && sizes[2] <= 0x100_0000 ==>
      && CanRead(buf, st, nbits) && sizes[1] > 0 && sizes[2] > 0
      && r.value.0 == Nums(Split(LittleValue(buf, Pos(st), nbits), sizes[1] as nat, sizes[2] as nat))
  {
    var bytes := new Byte[32](_ => 0);
    var c :- CollectBytes(buf, st, nbits, bytes);
    var nbytes := c.0;
    ghost var v := LittleEndian(bytes[..nbytes]);
    var out :- DivideOut(bytes, nbytes, sizes, nums, 1, 3);
    var first := FromLeBytes(bytes[..4]);
    assert bytes[..nbytes][..4] == bytes[..4];
    FromLeBytesLow(bytes[..nbytes]);
    return Ok((out[0 := first], c.1));
  }

  /** The digits the long path of the source produces from `v`: its loop
      `for i in (0..2).rev()` divides by `sizes[1]`, then by `sizes[0]`,
      and the first number is then overwritten by the quotient; the third
      digit keeps whatever the caller's array held. */
  function AsWrittenNums(v: nat, sizes: seq<nat>, old2: int): (nums: seq<int>)
    requires |sizes| == 3 && sizes[0] > 0 && sizes[1] > 0
    ensures |nums| == 3 && nums[2] == old2
  {
    var q: nat := v / sizes[1];
    var first: nat := q / sizes[0];
    [ToI32(first), ToI32(v % sizes[1]), old2]
  }

  /** The long path as written in src/reader.rs. */
  method DecodeLargeAsWritten(buf: seq<Byte>, st: DecodeState, nbits: nat, sizes: seq<U32>, nums: seq<int>)
      returns (r: Result<(seq<int>, DecodeState)>)
    requires Valid(buf, st) && |sizes| == 3 && |nums| == 3 && 64 < nbits
    ensures r.Ok? <==> CanRead(buf, st, nbits) && nbits <= 256 && sizes[0] > 0 && sizes[1] > 0
    ensures r.Ok? ==> Valid(buf, r.value.1) && Pos(r.value.1) == Pos(st) + nbits
    ensures r.Ok? && sizes[0] <= 0x100_0000 && sizes[1] <= 0x100_0000 ==>
      && CanRead(buf, st, nbits) && sizes[0] > 0 && sizes[1] > 0
      && r.value.0 == AsWrittenNums(LittleValue(buf, Pos(st), nbits), sizes, nums[2])
  {
    var bytes := new Byte[32](_ => 0);
    var c :- CollectBytes(buf, st, nbits, bytes);
    var nbytes := c.0;
    ghost var v := LittleEndian(bytes[..nbytes]);
    var out :- DivideOut(bytes, nbytes, sizes, nums, 0, 2);
    var first := FromLeBytes(bytes[..4]);
    assert bytes[..nbytes][..4] == bytes[..4];
    FromLeBytesLow(bytes[..nbytes]);
    return Ok((out[0 := first], c.1));
  }

  /** With three sizes of `2^22` (the run-length size for `smallidx = 66`,
      which makes the source take the long path with 66 bits) and the
      value 1, the source gives the digits `[0, 1, old2]` where `[0, 0, 1]`
      is meant: the last digit is lost and the middle one is wrong. */
  lemma AsWrittenLosesLastDigit(old2: int)
    ensures var sizes: seq<U32> := [0x40_0000, 0x40_0000, 0x40_0000];
      && AsWrittenNums(1, sizes, old2) == [0, 1, old2]
      && Nums(Split(1, sizes[1] as nat, sizes[2] as nat)) == [0, 0, 1]
  {
  }

  // ---------------------------------------------------------------------
  // decodeints

  /** The digits `decodeints` leaves in `nums` for a value `v` of `nbits`
      bits: its mixed-radix digits on the word paths, and on the long path
      the digits the source's loop produces, whose third one is `old2`,
      what the caller's array held. */
  function DecodedNums(v: nat, nbits: nat, sizes: seq<nat>, old2: int): (nums: seq<int>)
    requires |sizes| == 3 && sizes[0] > 0 && sizes[1] > 0 && sizes[2] > 0
    ensures |nums| == 3
  {
    if nbits <= 64 then Nums(Split(v, sizes[1], sizes[2])) else AsWrittenNums(v, sizes, old2)
  }

  /** Up to 64 bits the last two digits lie below their sizes, and digits
      that fit an `i32` pack back to `v`; on the long path the third one is
      what the caller's array held. */
  lemma DecodedNumsDigits(v: nat, nbits: nat, sizes: seq<nat>, old2: int)
    requires |sizes| == 3 && sizes[0] > 0 && sizes[1] > 0 && sizes[2] > 0
    ensures var nums := DecodedNums(v, nbits, sizes, old2);
      && (nbits <= 64 && sizes[1] <= 0x8000_0000 && sizes[2] <= 0x8000_0000 ==>
           0 <= nums[1] < sizes[1] && 0 <= nums[2] < sizes[2])
      && (nbits <= 64 && sizes[1] <= 0x8000_0000 && sizes[2] <= 0x8000_0000 && v / sizes[2] / sizes[1] < 0x8000_0000 ==>
           0 <= nums[0] && 0 <= nums[1] && 0 <= nums[2] && Pack(nums[0], nums[1], nums[2], sizes[1], sizes[2]) == v)
      && (nbits > 64 ==> nums[2] == old2)
  {
  }

  /** `decodeints`: up to 32 bits through a `u32`, up to 64 through a
      `u64`, longer numbers through the byte buffer, whose loop as written
      divides by `sizes[1]` and `sizes[0]` only. `nums` is what the
      caller's array holds before the call. */
  method DecodeInts(buf: seq<Byte>, st: DecodeState, nbits: nat, sizes: seq<U32>, nums: seq<int>)
      returns (r: Result<(seq<int>, DecodeState)>)
    requires Valid(buf, st) && |sizes| == 3 && |nums| == 3
    ensures r.Ok? <==>
      && CanRead(buf, st, nbits)
      && (if nbits <= 32 then 0 < (sizes[1] as nat) * (sizes[2] as nat) < U32_LIMIT
          else if nbits <= 64 then 0 < (sizes[1] as nat) * (sizes[2] as nat) < 0x1_0000_0000_0000_0000
          else nbits <= 256 && sizes[0] > 0 && sizes[1] > 0)
    ensures r.Ok? ==> Valid(buf, r.value.1) && Pos(r.value.1) == Pos(st) + nbits
    ensures r.Ok? && nbits <= 64 ==>
      && CanRead(buf, st, nbits) && sizes[1] > 0 && sizes[2] > 0
      && r.value.0 == Nums(Split(LittleValue(buf, Pos(st), nbits), sizes[1] as nat, sizes[2] as nat))
    ensures r.Ok? && 64 < nbits && sizes[0] <= 0x100_0000 && sizes[1] <= 0x100_0000 ==>
      && CanRead(buf, st, nbits) && sizes[0] > 0 && sizes[1] > 0
      && r.value.0 == AsWrittenNums(LittleValue(buf, Pos(st), nbits), sizes, nums[2])
  {
    if nbits <= 32 {
      r := UnpackFromInt(buf, st, nbits, sizes, 32);
    } else if nbits <= 64 {
      r := UnpackFromInt(buf, st, nbits, sizes, 64);
    } else {
      r := DecodeLargeAsWritten(buf, st, nbits, sizes, nums);
    }
  }
}
