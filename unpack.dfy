/** The mixed-radix unpacker of the coordinate decompressor
    (`unpack_from_int_into_u32`, `unpack_from_int_into_u64` and `decodeints`
    in src/reader.rs). Three integers `x, y, z` with `y < sizes[1]` and
    `z < sizes[2]` travel as the one number `(x * sizes[1] + y) * sizes[2] + z`
    of `nbits` bits, whose bytes are read from the bit stream eight bits at a
    time, the lowest byte first. */
module Unpack {
  import opened Bits
  import opened Errors
  import opened Xdr
  import opened BitStream
  import opened Sizes

  // ---------------------------------------------------------------------
  // The number on the stream

  /** The `nbits`-bit number at stream position `p`, read as the unpackers
      read it: a byte of eight bits while at least eight are wanted, then
      one byte made of the rest, the first byte lowest. */
  function LittleValue(buf: seq<Byte>, p: nat, nbits: nat): nat
    requires p + nbits <= 8 * |buf|
    decreases nbits
  {
    if nbits == 0 then 0
    else if nbits < 8 then StreamValue(buf, p, nbits)
    else StreamValue(buf, p, 8) + 0x100 * LittleValue(buf, p + 8, nbits - 8)
  }

  /** The number has no more bits than were read. */
  lemma {:induction false} LittleValueBound(buf: seq<Byte>, p: nat, nbits: nat)
    requires p + nbits <= 8 * |buf|
    ensures LittleValue(buf, p, nbits) < Pow2(nbits)
    decreases nbits
  {
    if 0 < nbits < 8 {
      StreamValueBound(buf, p, nbits);
    } else if 8 <= nbits {
      StreamValueBound(buf, p, 8);
      LittleValueBound(buf, p + 8, nbits - 8);
      Pow2Add(8, nbits - 8);
      Pow2Values();
    }
  }

  /** The first byte of the number, and the number made of the bits after
      it. */
  lemma LittleValueHead(buf: seq<Byte>, p: nat, n: nat)
    requires 0 < n && p + n <= 8 * |buf|
    ensures StreamValue(buf, p, Min(n, 8)) < 0x100
    ensures LittleValue(buf, p, n)
         == StreamValue(buf, p, Min(n, 8)) + 0x100 * LittleValue(buf, p + Min(n, 8), n - Min(n, 8))
  {
    StreamValueBound(buf, p, Min(n, 8));
    Pow2Mono(Min(n, 8), 8);
    Pow2Values();
  }

  /** `v |= byte << (8 * nbytes)` on a `v` below `2^(8 * nbytes)`: the byte
      lands above the bits already there. */
  lemma OrShifted(v: nat, b: nat, k: nat)
    requires v < Pow2(8 * k)
    ensures Or(v, Shl(b, 8 * k)) == v + Shifted(b, k)
  {
    ShlMul(b, 8 * k);
    OrDisjoint(b, v, 8 * k);
    OrComm(v, b * Pow2(8 * k));
    ShiftedPlace(b, k);
    PlacePow2(k);
  }

  /** A byte added above `k` bytes' worth of value leaves it below `k + 1`
      bytes' worth. */
  lemma ByteAbove(v: nat, b: nat, k: nat)
    requires v < Pow2(8 * k) && b < 0x100
    ensures v + Shifted(b, k) < Pow2(8 * (k + 1))
  {
    ShiftedPlace(b, k);
    PlacePow2(k);
    PlacePow2(k + 1);
    MulMono(Place(k), b, 0xff);
  }

  /** A number `b + 0x100 * rest`, moved up `k` bytes. */
  lemma ShiftedSplit(x: nat, b: nat, rest: nat, k: nat)
    requires x == b + 0x100 * rest
    ensures Shifted(x, k) == Shifted(b, k) + Shifted(rest, k + 1)
  {
    ShiftedAdd(b, 0x100 * rest, k);
    ShiftedNext(rest, k);
  }

  /** The byte loops' state: `k` bytes of value `v` gathered from stream
      position `p0`, and `n` of the `nbits` bits still to read at `p`; the
      bytes still to come, moved up `k` bytes, complete the number. */
  ghost predicate Gathering(buf: seq<Byte>, p0: nat, nbits: nat, p: nat, v: nat, k: nat, n: nat)
  {
    && p + n == p0 + nbits
    && v < Pow2(8 * k)
    && (p0 + nbits <= 8 * |buf| ==> v + Shifted(LittleValue(buf, p, n), k) == LittleValue(buf, p0, nbits))
  }

  /** One more byte, of `m` bits, added above the others. */
  lemma GatherNext(buf: seq<Byte>, p0: nat, nbits: nat, p: nat, v: nat, k: nat, n: nat, m: nat, b: nat)
    requires Gathering(buf, p0, nbits, p, v, k, n)
    requires 0 < n && m == Min(n, 8)
    requires p + m <= 8 * |buf| && b == StreamValue(buf, p, m)
    ensures b < 0x100
    ensures Gathering(buf, p0, nbits, p + m, v + Shifted(b, k), k + 1, n - m)
  {
    StreamValueBound(buf, p, m);
    Pow2Mono(m, 8);
    Pow2Values();
    ByteAbove(v, b, k);
    if p0 + nbits <= 8 * |buf| {
      LittleValueHead(buf, p, n);
      ShiftedSplit(LittleValue(buf, p, n), b, LittleValue(buf, p + m, n - m), k);
    }
  }

  /** The same step, written as the unpackers write it:
      `v |= byte << (8 * nbytes)`. */
  lemma GatherStep(buf: seq<Byte>, p0: nat, nbits: nat, p: nat, v: nat, k: nat, n: nat, m: nat, b: nat)
    requires Gathering(buf, p0, nbits, p, v, k, n)
    requires 0 < n && m == Min(n, 8)
    requires p + m <= 8 * |buf| && b == StreamValue(buf, p, m)
    ensures b < 0x100
    ensures Gathering(buf, p0, nbits, p + m, Or(v, Shl(b, 8 * k)), k + 1, n - m)
  {
    GatherNext(buf, p0, nbits, p, v, k, n, m, b);
    OrShifted(v, b, k);
  }

  /** At the end of a byte loop the value is the whole number. */
  lemma BytesDone(buf: seq<Byte>, p0: nat, nbits: nat, p: nat, v: nat, k: nat)
    requires Gathering(buf, p0, nbits, p, v, k, 0) && p <= 8 * |buf|
    ensures p0 + nbits <= 8 * |buf| && v == LittleValue(buf, p0, nbits) && v < Pow2(nbits)
  {
    ShiftedPlace(0, k);
    LittleValueBound(buf, p0, nbits);
  }

  /** The byte loop shared by `unpack_from_int_into_u32` and
      `unpack_from_int_into_u64`: decode eight bits at a time and or each byte
      in above the ones before, then the remaining bits. The shifts stay below
      the word width, so no bit is lost. */
  method GatherLittle(buf: seq<Byte>, st: DecodeState, nbits: nat) returns (r: Result<(nat, DecodeState)>)
    requires Valid(buf, st)
    ensures r.Ok? <==> CanRead(buf, st, nbits)
    ensures r.Ok? ==> Valid(buf, r.value.1) && Pos(r.value.1) == Pos(st) + nbits
    ensures r.Ok? ==> CanRead(buf, st, nbits) && r.value.0 == LittleValue(buf, Pos(st), nbits) && r.value.0 < Pow2(nbits)
  {
    ghost var p0 := Pos(st);
    var cur := st;
    var v: nat := 0;
    var nbytes: nat := 0;
    var n := nbits;
    while n >= 8
      invariant Valid(buf, cur) && Gathering(buf, p0, nbits, Pos(cur), v, nbytes, n)
    {
      var res := WordByte(buf, p0, nbits, cur, v, nbytes, n, 8);
      if res.Err? {
        assert !CanRead(buf, st, nbits);
        return Err(res.error);
      }
      v, cur := res.value.0, res.value.1;
      nbytes := nbytes + 1;
      n := n - 8;
    }
    if n > 0 {
      r := WordTail(buf, st, nbits, cur, v, nbytes, n);
      return;
    }
    BytesDone(buf, p0, nbits, Pos(cur), v, nbytes);
    return Ok((v, cur));
  }

  /** After the byte loop: the fewer than eight bits left. */
  method WordTail(buf: seq<Byte>, st: DecodeState, nbits: nat, cur: DecodeState, v: nat, nbytes: nat, n: nat)
    returns (r: Result<(nat, DecodeState)>)
    requires Valid(buf, st) && Valid(buf, cur) && 0 < n < 8
    requires Gathering(buf, Pos(st), nbits, Pos(cur), v, nbytes, n)
    ensures r.Ok? <==> CanRead(buf, st, nbits)
    ensures r.Ok? ==> Valid(buf, r.value.1) && Pos(r.value.1) == Pos(st) + nbits
    ensures r.Ok? ==> CanRead(buf, st, nbits) && r.value.0 == LittleValue(buf, Pos(st), nbits) && r.value.0 < Pow2(nbits)
  {
    ghost var p0 := Pos(st);
    var res := WordByte(buf, p0, nbits, cur, v, nbytes, n, n);
    if res.Err? {
      assert !CanRead(buf, st, nbits);
      return Err(res.error);
    }
    BytesDone(buf, p0, nbits, Pos(res.value.1), res.value.0, nbytes + 1);
    return Ok(res.value);
  }

  /** One trip through the byte loop: decode `m` bits and or them in as
      byte number `nbytes`. */
  method WordByte(buf: seq<Byte>, ghost p0: nat, ghost nbits: nat, cur: DecodeState, v: nat, nbytes: nat, n: nat, m: nat)
    returns (r: Result<(nat, DecodeState)>)
    requires Valid(buf, cur) && Gathering(buf, p0, nbits, Pos(cur), v, nbytes, n)
    requires 0 < n && m == Min(n, 8)
    ensures r.Ok? <==> CanRead(buf, cur, m)
    ensures r.Err? ==> p0 + nbits > 8 * |buf|
    ensures r.Ok? ==> Valid(buf, r.value.1) && Pos(r.value.1) == Pos(cur) + m
    ensures r.Ok? ==> Gathering(buf, p0, nbits, Pos(cur) + m, r.value.0, nbytes + 1, n - m)
  {
    var res := TryDecodeBits(buf, cur, m);
    if res.Err? {
      return Err(res.error);
    }
    var (b, next) := res.value;
    GatherStep(buf, p0, nbits, Pos(cur), v, nbytes, n, m, b);
    return Ok((Or(v, Shl(b, 8 * nbytes)), next));
  }

  // ---------------------------------------------------------------------
  // Mixed radix

  /** The number three digits make, `(x * sy + y) * sz + z`. */
  function Pack(x: nat, y: nat, z: nat, sy: nat, sz: nat): nat
  {
    (x * sy + y) * sz + z
  }

  /** The three digits of `v`: `z` below `sz`, `y` below `sy`, and `x` the
      rest. */
  function Split(v: nat, sy: nat, sz: nat): (t: (nat, nat, nat))
    requires sy > 0 && sz > 0
    ensures t.1 < sy && t.2 < sz
    ensures Pack(t.0, t.1, t.2, sy, sz) == v
  {
    (v / sz / sy, (v / sz) % sy, v % sz)
  }

  /** Splitting undoes packing. */
  lemma SplitPack(x: nat, y: nat, z: nat, sy: nat, sz: nat)
    requires y < sy && z < sz
    ensures Split(Pack(x, y, z, sy, sz), sy, sz) == (x, y, z)
  {
    var v := Pack(x, y, z, sy, sz);
    DivModUnique(v, sz, x * sy + y, z);
    DivModUnique(x * sy + y, sy, x, y);
  }

  /** What the `u32` and `u64` unpackers compute, written as they do:
      `x1 = v / (sz * sy)`, `q1 = v - x1 * szy`, `y1 = q1 / sz`,
      `z1 = q1 - y1 * sz`. */
  lemma SplitSteps(v: nat, sy: nat, sz: nat)
    requires sy > 0 && sz > 0
    ensures v / (sz * sy) == Split(v, sy, sz).0
    ensures (v - v / (sz * sy) * (sz * sy)) / sz == Split(v, sy, sz).1
    ensures (v - v / (sz * sy) * (sz * sy)) - (v - v / (sz * sy) * (sz * sy)) / sz * sz == Split(v, sy, sz).2
  {
    var d := sz * sy;
    DivDiv(v, sz, sy);
    SubMul(v, d);
    var q1 := v % d;
    DivModUnique(q1, sz, (v / sz) % sy, v % sz);
    SubMul(q1, sz);
  }

  /** `v - v / d * d` is the remainder. */
  lemma SubMul(v: nat, d: nat)
    requires d > 0
    ensures v - v / d * d == v % d
  {
  }

  /** `as i32` on an unsigned word: the low 32 bits, read as two's complement. */
  function ToI32(x: nat): (i: int)
    ensures -0x8000_0000 <= i < 0x8000_0000
    ensures x < 0x8000_0000 ==> i == x
  {
    AsI32(x % U32_LIMIT)
  }

  /** `[x1, y1, z1].map(|v| v as i32)` */
  function Nums(t: (nat, nat, nat)): (nums: seq<int>)
    ensures |nums| == 3
  {
    [ToI32(t.0), ToI32(t.1), ToI32(t.2)]
  }

  /** Digits that fit an `i32` come back unchanged. */
  lemma UnpackPack(x: nat, y: nat, z: nat, sy: nat, sz: nat)
    requires y < sy && z < sz && x < 0x8000_0000 && sy <= 0x8000_0000 && sz <= 0x8000_0000
    ensures Nums(Split(Pack(x, y, z, sy, sz), sy, sz)) == [x, y, z]
  {
    SplitPack(x, y, z, sy, sz);
  }

  /** The number of values a `u32` or a `u64` can hold. */
  function WordLimit(width: nat): nat
  {
    if width == 32 then U32_LIMIT else 0x1_0000_0000_0000_0000
  }

  lemma WordLimitPow2(width: nat)
    requires width == 32 || width == 64
    ensures WordLimit(width) == Pow2(width)
  {
    Pow2Values();
    Pow2Add(32, 32);
  }

  /** `unpack_from_int_into_u32` (`width` 32) and `unpack_from_int_into_u64`
      (`width` 64): gather the number, then split it with one division by
      `sz * sy` and one by `sz`. `sz * sy` panics when it overflows the word,
      and a zero size divides by zero. */
  method UnpackFromInt(buf: seq<Byte>, st: DecodeState, nbits: nat, sizes: seq<U32>, width: nat)
      returns (r: Result<(seq<int>, DecodeState)>)
    requires Valid(buf, st) && |sizes| == 3
    requires (width == 32 || width == 64) && nbits <= width
    ensures r.Ok? <==> CanRead(buf, st, nbits) && 0 < (sizes[1] as nat) * (sizes[2] as nat) < WordLimit(width)
    ensures r.Ok? ==> Valid(buf, r.value.1) && Pos(r.value.1) == Pos(st) + nbits
    ensures r.Ok? ==> (CanRead(buf, st, nbits) && sizes[1] > 0 && sizes[2] > 0
                       && r.value.0 == Nums(Split(LittleValue(buf, Pos(st), nbits), sizes[1] as nat, sizes[2] as nat)))
  {
    var g := GatherLittle(buf, st, nbits);
    if g.Err? {
      return Err(g.error);
    }
    var (v, st') := g.value;
    var sz: nat := sizes[2];
    var sy: nat := sizes[1];
    if sz * sy >= WordLimit(width) {
      return Err(Panic("attempt to multiply with overflow"));
    }
    var szy := sz * sy;
    if szy == 0 {
      return Err(Panic("attempt to divide by zero"));
    }
    SplitSteps(v, sy, sz);
    var x1 := v / szy;
    var q1 := v - x1 * szy;
    var y1 := q1 / sz;
    var z1 := q1 - y1 * sz;
    return Ok((Nums((x1, y1, z1)), st'));
  }
}
