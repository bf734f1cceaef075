/** The bit cursor of the XTC coordinate decompressor (`DecodeState` and
    `decodebits` in src/reader.rs). The compressed block is read as one stream
    of bits, the most significant bit of each byte first; `decodebits` takes
    the next `nbits` of them as an unsigned number. */
module BitStream {
  import opened Bits
  import opened Errors

  /** Bit `p` of the stream: byte `p / 8`, counted from its top bit. */
  function StreamBit(buf: seq<Byte>, p: nat): nat
    requires p < 8 * |buf|
  {
    Bit(buf[p / 8], 7 - p % 8)
  }

  /** The number written by stream bits `p .. p + n - 1`, first bit highest. */
  function StreamValue(buf: seq<Byte>, p: nat, n: nat): nat
    requires p + n <= 8 * |buf|
  {
    if n == 0 then 0 else 2 * StreamValue(buf, p, n - 1) + StreamBit(buf, p + n - 1)
  }

  lemma {:induction false} StreamValueBound(buf: seq<Byte>, p: nat, n: nat)
    requires p + n <= 8 * |buf|
    ensures StreamValue(buf, p, n) < Pow2(n)
  {
    if n > 0 {
      StreamValueBound(buf, p, n - 1);
    }
  }

  lemma {:induction false} StreamValueBit(buf: seq<Byte>, p: nat, n: nat, i: nat)
    requires p + n <= 8 * |buf|
    ensures Bit(StreamValue(buf, p, n), i) == if i < n then StreamBit(buf, p + n - 1 - i) else 0
  {
    if n == 0 {
      BitZero(i);
    } else {
      BitDouble(StreamValue(buf, p, n - 1), StreamBit(buf, p + n - 1), i);
      if i > 0 {
        StreamValueBit(buf, p, n - 1, i - 1);
      }
    }
  }

  /** Reading `a` bits and then `b` more reads the same bits as reading
      `a + b` at once: the first part is the high part. */
  lemma {:induction false} StreamValueSplit(buf: seq<Byte>, p: nat, a: nat, b: nat)
    requires p + a + b <= 8 * |buf|
    ensures StreamValue(buf, p, a + b) == StreamValue(buf, p, a) * Pow2(b) + StreamValue(buf, p + a, b)
  {
    if b > 0 {
      StreamValueSplit(buf, p, a, b - 1);
      var hi, lo := StreamValue(buf, p, a), StreamValue(buf, p + a, b - 1);
      var c := StreamBit(buf, p + a + b - 1);
      calc {
        StreamValue(buf, p, a + b);
        2 * StreamValue(buf, p, a + b - 1) + c;
        2 * (hi * Pow2(b - 1) + lo) + c;
        { MulDouble(hi, b); }
        hi * Pow2(b) + (2 * lo + c);
      }
    }
  }

  /** The cursor: `count` bytes have been fetched, of which the last
      `lastbits` bits are not yet used; `lastbyte` is the last fetched byte. */
  datatype DecodeState = DecodeState(count: nat, lastbits: nat, lastbyte: nat)

  /** The starting state, `DecodeState { count: 0, lastbits: 0, lastbyte: 0 }`. */
  const Start := DecodeState(0, 0, 0)

  /** The number of stream bits used so far, `8 * count - lastbits`. */
  function Consumed(st: DecodeState): int
  {
    8 * st.count - st.lastbits
  }

  /** A state a sequence of `decodebits` calls can reach on `buf`: before
      the first fetch nothing is left over and `lastbyte` is zero (written
      as a bound so that a state at the start does not become a literal),
      afterwards `lastbyte` is the byte before the cursor. */
  predicate Valid(buf: seq<Byte>, st: DecodeState)
  {
    && st.lastbits < 8
    && st.count <= |buf|
    && (st.count == 0 ==> st.lastbits == 0 && st.lastbyte < 1)
    && (st.count > 0 ==> st.lastbyte == buf[st.count - 1])
  }

  /** There are `nbits` stream bits left after the cursor. */
  predicate CanRead(buf: seq<Byte>, st: DecodeState, nbits: nat)
  {
    Consumed(st) + nbits <= 8 * |buf|
  }

  function Min(a: nat, b: nat): nat
  {
    if a <= b then a else b
  }

  /** The bits a `u32` holding the bytes from `s0` up to `count` keeps. */
  function Width(count: nat, s0: nat): (w: nat)
    ensures w <= 32 && w <= 8 * count
    ensures s0 < count ==> 8 <= w
    ensures s0 + 2 <= count ==> 16 <= w
  {
    if count <= s0 then 0 else Min(32, 8 * (count - s0))
  }

  /** `x` holds the last `w` stream bits before bit `8 * count` (bit 0 of `x`
      being the latest) and is zero above them. */
  ghost predicate Window(buf: seq<Byte>, x: nat, count: nat, w: nat)
  {
    && w <= 8 * count <= 8 * |buf|
    && forall k: nat {:trigger Bit(x, k)} ::
         Bit(x, k) == if k < w then StreamBit(buf, 8 * count - 1 - k) else 0
  }

  /** The bits `n <= i < n0` of `num` are the stream bits `p0 .. p0 + n0 - n - 1`
      in place, and its bits below `n` are still zero. */
  ghost predicate Gathered(buf: seq<Byte>, num: nat, p0: nat, n0: nat, n: nat)
  {
    && p0 + n0 <= 8 * |buf|
    && forall i: nat {:trigger Bit(num, i)} :: 0 <= i < n0 ==>
         Bit(num, i) == if n <= i then StreamBit(buf, p0 + n0 - 1 - i) else 0
  }

  /** The last `w` stream bits before bit `8 * count`, as a number: what the
      `u32` `lastbyte` holds. */
  ghost function LastBits(buf: seq<Byte>, count: nat, w: nat): nat
    requires w <= 8 * count <= 8 * |buf|
  {
    Ending(buf, 8 * count, w)
  }

  /** The `w` stream bits before bit `e`, as a number, built from the latest. */
  ghost function Ending(buf: seq<Byte>, e: nat, w: nat): nat
    requires w <= e <= 8 * |buf|
  {
    if w == 0 then 0 else 2 * Ending(buf, e - 1, w - 1) + StreamBit(buf, e - 1)
  }

  lemma {:induction false} EndingValue(buf: seq<Byte>, e: nat, w: nat)
    requires w <= e <= 8 * |buf|
    ensures Ending(buf, e, w) == StreamValue(buf, e - w, w)
  {
    if w > 0 {
      EndingValue(buf, e - 1, w - 1);
    }
  }

  lemma LastBitsWindow(buf: seq<Byte>, count: nat, w: nat)
    requires w <= 8 * count <= 8 * |buf|
    ensures Window(buf, LastBits(buf, count, w), count, w)
  {
    var x := LastBits(buf, count, w);
    EndingValue(buf, 8 * count, w);
    forall k: nat
      ensures Bit(x, k) == if k < w then StreamBit(buf, 8 * count - 1 - k) else 0
    {
      StreamValueBit(buf, 8 * count - w, w, k);
    }
  }

  /** A window determines its value. */
  lemma WindowUnique(buf: seq<Byte>, x: nat, y: nat, count: nat, w: nat)
    requires Window(buf, x, count, w) && Window(buf, y, count, w)
    ensures x == y
  {
    var n := BitLength(x) + BitLength(y);
    BitLengthBounds(x);
    BitLengthBounds(y);
    Pow2Mono(BitLength(x), n);
    Pow2Mono(BitLength(y), n);
    forall i | 0 <= i < n
      ensures Bit(x, i) == Bit(y, i)
    {
      assert Bit(x, i) == if i < w then StreamBit(buf, 8 * count - 1 - i) else 0;
      assert Bit(y, i) == if i < w then StreamBit(buf, 8 * count - 1 - i) else 0;
    }
    BitsEqual(x, y, n);
  }

  lemma ByteWindow(buf: seq<Byte>, count: nat)
    requires 0 < count <= |buf|
    ensures Window(buf, buf[count - 1], count, 8)
  {
    Pow2Values();
    var b := buf[count - 1];
    forall k: nat
      ensures Bit(b, k) == if k < 8 then StreamBit(buf, 8 * count - 1 - k) else 0
    {
      if k >= 8 {
        BitBelow(b, 8, k);
      } else {
        var p := 8 * count - 1 - k;
        DivModUnique(p, 8, count - 1, 7 - k);
      }
    }
  }

  /** A freshly fetched byte is the window of its last eight bits. */
  lemma ByteLastBits(buf: seq<Byte>, count: nat)
    requires 0 < count <= |buf|
    ensures LastBits(buf, count, 8) == buf[count - 1]
  {
    ByteWindow(buf, count);
    LastBitsWindow(buf, count, 8);
    WindowUnique(buf, LastBits(buf, count, 8), buf[count - 1], count, 8);
  }

  /** With `need` more bits wanted than the `lastbits` left over, another
      byte is there to fetch. */
  lemma ByteLeft(count: nat, lastbits: nat, len: nat, need: nat)
    requires lastbits < need && 8 * count - lastbits + need <= 8 * len
    ensures count < len
  {
  }

  lemma WidthStep(count: nat, s0: nat)
    requires s0 <= count
    ensures Width(count + 1, s0) == Min(32, Width(count, s0) + 8)
  {
  }

  /** `lastbyte = (lastbyte << 8) | buf[count]` on a `u32` moves the window
      on by one byte, keeping at most 32 bits. */
  lemma ShiftIn(buf: seq<Byte>, count: nat, w: nat)
    requires w <= 32 && w <= 8 * count && count < |buf|
    ensures Or(Wrap32(Shl(LastBits(buf, count, w), 8)), buf[count]) == LastBits(buf, count + 1, Min(32, w + 8))
  {
    var x := LastBits(buf, count, w);
    LastBitsWindow(buf, count, w);
    ShiftWindow(buf, x, count, w);
    LastBitsWindow(buf, count + 1, Min(32, w + 8));
    WindowUnique(buf, Or(Wrap32(Shl(x, 8)), buf[count]), LastBits(buf, count + 1, Min(32, w + 8)), count + 1, Min(32, w + 8));
  }

  lemma ShiftWindow(buf: seq<Byte>, x: nat, count: nat, w: nat)
    requires Window(buf, x, count, w) && w <= 32 && count < |buf|
    ensures Window(buf, Or(Wrap32(Shl(x, 8)), buf[count]), count + 1, Min(32, w + 8))
  {
    var z := Or(Wrap32(Shl(x, 8)), buf[count]);
    forall k: nat
      ensures Bit(z, k) == if k < Min(32, w + 8) then StreamBit(buf, 8 * (count + 1) - 1 - k) else 0
    {
      ShiftWindowBit(buf, x, count, w, k);
    }
  }

  lemma ShiftWindowBit(buf: seq<Byte>, x: nat, count: nat, w: nat, k: nat)
    requires Window(buf, x, count, w) && w <= 32 && count < |buf|
    ensures Bit(Or(Wrap32(Shl(x, 8)), buf[count]), k) ==
      if k < Min(32, w + 8) then StreamBit(buf, 8 * (count + 1) - 1 - k) else 0
  {
    var y := Wrap32(Shl(x, 8));
    BitOr(y, buf[count], k);
    ShiftedBit(x, k);
    if k < 8 {
      ByteBit(buf, count, k);
    } else {
      Pow2Values();
      BitBelow(buf[count], 8, k);
      if k < 32 {
        assert Bit(x, k - 8) == if k - 8 < w then StreamBit(buf, 8 * count - 1 - (k - 8)) else 0;
      }
    }
  }

  /** Bit `k` of a 32-bit word shifted left by a byte. */
  lemma ShiftedBit(x: nat, k: nat)
    ensures Bit(Wrap32(Shl(x, 8)), k) == if k < 8 || 32 <= k then 0 else Bit(x, k - 8)
  {
    Pow2Values();
    ShlMul(x, 8);
    assert Wrap32(Shl(x, 8)) == (x * Pow2(8)) % Pow2(32);
    BitMod(x * Pow2(8), 32, k);
    BitMul(x, 8, k);
  }

  /** Bit `k` of byte `count` is the stream bit `8 * count + 7 - k`. */
  lemma ByteBit(buf: seq<Byte>, count: nat, k: nat)
    requires count < |buf| && k < 8
    ensures StreamBit(buf, 8 * (count + 1) - 1 - k) == Bit(buf[count], k)
  {
    var p := 8 * (count + 1) - 1 - k;
    DivModUnique(p, 8, count, 7 - k);
  }

  /** The bits of `(x >> sh) << s` on a `u32`, for `x` a window. */
  lemma Piece(buf: seq<Byte>, x: nat, count: nat, w: nat, sh: nat, s: nat, i: nat)
    requires Window(buf, x, count, w)
    ensures Bit(Wrap32(Shl(Shr(x, sh), s)), i) ==
      if s <= i < 32 && i - s + sh < w then StreamBit(buf, 8 * count - 1 - (i - s + sh)) else 0
  {
    ShiftedBits(x, sh, s, i);
    if s <= i < 32 {
      var k := i - s + sh;
      assert Bit(x, k) == if k < w then StreamBit(buf, 8 * count - 1 - k) else 0;
    }
  }

  /** Bit `i` of `(x >> sh) << s` on a `u32`. */
  lemma ShiftedBits(x: nat, sh: nat, s: nat, i: nat)
    ensures Bit(Wrap32(Shl(Shr(x, sh), s)), i) == if s <= i < 32 then Bit(x, i - s + sh) else 0
  {
    Pow2Values();
    var q := Shr(x, sh);
    ShlMul(q, s);
    BitMod(q * Pow2(s), 32, i);
    BitMul(q, s, i);
    if s <= i {
      BitShr(x, sh, i - s);
    }
  }

  /** `num` holds, below bit `n0`, the stream bits `p0 .. p0 + n0 - n - 1`
      shifted up by `n`: the bits gathered so far, in place. */
  ghost predicate Holds(buf: seq<Byte>, num: nat, p0: nat, n0: nat, n: nat)
  {
    && p0 + n0 <= 8 * |buf| && n <= n0
    && Low(num, n0) == Shl(Ending(buf, p0 + n0 - n, n0 - n), n)
  }

  lemma HoldsGathered(buf: seq<Byte>, num: nat, p0: nat, n0: nat, n: nat)
    requires Holds(buf, num, p0, n0, n)
    ensures Gathered(buf, num, p0, n0, n)
  {
    EndingValue(buf, p0 + n0 - n, n0 - n);
    var v := StreamValue(buf, p0, n0 - n);
    LowMod(num, n0);
    ShlMul(v, n);
    forall i: nat | 0 <= i < n0
      ensures Bit(num, i) == if n <= i then StreamBit(buf, p0 + n0 - 1 - i) else 0
    {
      BitMod(num, n0, i);
      BitMul(v, n, i);
      if n <= i {
        StreamValueBit(buf, p0, n0 - n, i - n);
      }
    }
  }

  lemma GatheredHolds(buf: seq<Byte>, num: nat, p0: nat, n0: nat, n: nat)
    requires Gathered(buf, num, p0, n0, n) && n <= n0
    ensures Holds(buf, num, p0, n0, n)
  {
    EndingValue(buf, p0 + n0 - n, n0 - n);
    var v := StreamValue(buf, p0, n0 - n);
    var lo, hi := num % Pow2(n0), v * Pow2(n);
    forall i: nat | 0 <= i < n0
      ensures Bit(lo, i) == Bit(hi, i)
    {
      GatheredBit(buf, num, p0, n0, n, i);
    }
    StreamValueBound(buf, p0, n0 - n);
    ShiftedBound(v, n0 - n, n);
    BitsEqual(lo, hi, n0);
    LowMod(num, n0);
    ShlMul(v, n);
  }

  lemma GatheredBit(buf: seq<Byte>, num: nat, p0: nat, n0: nat, n: nat, i: nat)
    requires Gathered(buf, num, p0, n0, n) && n <= n0 && i < n0
    ensures Bit(num % Pow2(n0), i) == Bit(StreamValue(buf, p0, n0 - n) * Pow2(n), i)
  {
    BitMod(num, n0, i);
    BitMul(StreamValue(buf, p0, n0 - n), n, i);
    if n <= i {
      StreamValueBit(buf, p0, n0 - n, i - n);
    }
  }

  /** Nothing is gathered yet. */
  lemma HoldsStart(buf: seq<Byte>, p0: nat, n0: nat)
    requires p0 + n0 <= 8 * |buf|
    ensures Holds(buf, 0, p0, n0, n0)
  {
    LowMod(0, n0);
    ShlMul(0, n0);
  }

  /** One turn of the byte loop: `num |= (lastbyte >> lastbits) << (nbits - 8)`. */
  lemma GatherByte(buf: seq<Byte>, num: nat, x: nat, count: nat, w: nat, lb: nat, p0: nat, n0: nat, n: nat)
    requires w <= 8 * count <= 8 * |buf| && x == LastBits(buf, count, w)
    requires Holds(buf, num, p0, n0, n)
    requires 8 <= n <= n0 && 8 * count - lb == p0 + n0 - n + 8 && 8 + lb <= w && n0 <= 32
    requires num < U32_LIMIT
    ensures Holds(buf, Or(num, Wrap32(Shl(Shr(x, lb), n - 8))), p0, n0, n - 8)
    ensures Or(num, Wrap32(Shl(Shr(x, lb), n - 8))) < U32_LIMIT
  {
    HoldsGathered(buf, num, p0, n0, n);
    GatherByteBits(buf, num, x, count, w, lb, p0, n0, n);
    GatheredHolds(buf, Or(num, Wrap32(Shl(Shr(x, lb), n - 8))), p0, n0, n - 8);
  }

  /** The tail: `num |= (lastbyte >> lastbits) & mask`, ending the gathering. */
  lemma GatherTail(buf: seq<Byte>, num: nat, x: nat, count: nat, w: nat, lb: nat, p0: nat, n0: nat, n: nat)
    requires w <= 8 * count <= 8 * |buf| && x == LastBits(buf, count, w)
    requires Holds(buf, num, p0, n0, n)
    requires 0 < n < 8 && n <= n0 < 32 && 8 * count - lb == p0 + n0 && n + lb <= w
    ensures Holds(buf, Or(num, And(Shr(x, lb), Pow2(n0) - 1)), p0, n0, 0)
  {
    HoldsGathered(buf, num, p0, n0, n);
    GatherTailBits(buf, num, x, count, w, lb, p0, n0, n);
    GatheredHolds(buf, Or(num, And(Shr(x, lb), Pow2(n0) - 1)), p0, n0, 0);
  }

  /** `GatherByte`, stated bit by bit. */
  lemma GatherByteBits(buf: seq<Byte>, num: nat, x: nat, count: nat, w: nat, lb: nat, p0: nat, n0: nat, n: nat)
    requires w <= 8 * count <= 8 * |buf| && x == LastBits(buf, count, w)
    requires Gathered(buf, num, p0, n0, n)
    requires 8 <= n <= n0 && 8 * count - lb == p0 + n0 - n + 8 && 8 + lb <= w && n0 <= 32
    requires num < U32_LIMIT
    ensures Gathered(buf, Or(num, Wrap32(Shl(Shr(x, lb), n - 8))), p0, n0, n - 8)
    ensures Or(num, Wrap32(Shl(Shr(x, lb), n - 8))) < U32_LIMIT
  {
    LastBitsWindow(buf, count, w);
    var y := Wrap32(Shl(Shr(x, lb), n - 8));
    forall i: nat | 0 <= i < n0
      ensures Bit(Or(num, y), i) == if n - 8 <= i then StreamBit(buf, p0 + n0 - 1 - i) else 0
    {
      BitOr(num, y, i);
      Piece(buf, x, count, w, lb, n - 8, i);
    }
    Pow2Values();
    OrBound(num, y, 32);
  }

  /** `GatherTail`, stated bit by bit. */
  lemma GatherTailBits(buf: seq<Byte>, num: nat, x: nat, count: nat, w: nat, lb: nat, p0: nat, n0: nat, n: nat)
    requires w <= 8 * count <= 8 * |buf| && x == LastBits(buf, count, w)
    requires Gathered(buf, num, p0, n0, n)
    requires 0 < n < 8 && n <= n0 < 32 && 8 * count - lb == p0 + n0 && n + lb <= w
    ensures Gathered(buf, Or(num, And(Shr(x, lb), Pow2(n0) - 1)), p0, n0, 0)
  {
    LastBitsWindow(buf, count, w);
    var y := Or(num, And(Shr(x, lb), Pow2(n0) - 1));
    forall i: nat | 0 <= i < n0
      ensures Bit(y, i) == StreamBit(buf, p0 + n0 - 1 - i)
    {
      GatherTailAt(buf, num, x, count, w, lb, p0, n0, n, i);
    }
  }

  lemma GatherTailAt(buf: seq<Byte>, num: nat, x: nat, count: nat, w: nat, lb: nat, p0: nat, n0: nat, n: nat, i: nat)
    requires Gathered(buf, num, p0, n0, n) && Window(buf, x, count, w)
    requires 0 < n < 8 && n <= n0 < 32 && 8 * count - lb == p0 + n0 && n + lb <= w
    requires i < n0
    ensures Bit(Or(num, And(Shr(x, lb), Pow2(n0) - 1)), i) == StreamBit(buf, p0 + n0 - 1 - i)
  {
    var k := i + lb;
    var v := StreamBit(buf, p0 + n0 - 1 - i);
    assert Bit(x, k) == if k < w then StreamBit(buf, 8 * count - 1 - k) else 0;
    assert Bit(num, i) == if n <= i then v else 0;
    TailBit(num, x, lb, n0, i, v);
  }

  /** One bit of the tail: each side has the stream bit or nothing there. */
  lemma TailBit(num: nat, x: nat, lb: nat, n0: nat, i: nat, v: nat)
    requires i < n0 && v < 2
    requires Bit(x, i + lb) == v || Bit(x, i + lb) == 0
    requires Bit(num, i) == v || Bit(num, i) == 0
    requires Bit(x, i + lb) == v || Bit(num, i) == v
    ensures Bit(Or(num, And(Shr(x, lb), Pow2(n0) - 1)), i) == v
  {
    var q := Shr(x, lb);
    var y := And(q, Pow2(n0) - 1);
    AndMask(q, n0);
    BitOr(num, y, i);
    BitMod(q, n0, i);
    BitShr(x, lb, i);
  }

  /** The final `num &= mask` leaves exactly the gathered value. */
  lemma GatherDone(buf: seq<Byte>, num: nat, p0: nat, n0: nat)
    requires Holds(buf, num, p0, n0, 0)
    ensures And(num, Pow2(n0) - 1) == StreamValue(buf, p0, n0)
  {
    AndMask(num, n0);
    LowMod(num, n0);
    EndingValue(buf, p0 + n0, n0);
  }

  /** The stored `lastbyte & 0xff` is the last byte fetched, if any. */
  lemma LastByte(buf: seq<Byte>, x: nat, count: nat, w: nat)
    requires w <= 8 * count <= 8 * |buf| && x == LastBits(buf, count, w)
    requires count > 0 ==> 8 <= w
    ensures count > 0 ==> And(x, 0xff) == buf[count - 1]
    ensures count == 0 ==> And(x, 0xff) == 0
  {
    LastBitsWindow(buf, count, w);
    Pow2Values();
    AndMask(x, 8);
    if count > 0 {
      ByteWindow(buf, count);
      forall i: nat | 0 <= i < 8
        ensures Bit(x % Pow2(8), i) == Bit(buf[count - 1], i)
      {
        BitMod(x, 8, i);
      }
      BitsEqual(x % Pow2(8), buf[count - 1], 8);
    }
  }

  /** The first byte the `u32` `lastbyte` of a call holds: the one before
      the cursor's, or the start of the buffer. */
  function Base(st: DecodeState): nat
  {
    if st.count > 0 then st.count - 1 else 0
  }

  /** The stream position a call starts reading at. */
  function Pos(st: DecodeState): nat
    requires st.lastbits <= 8 * st.count
  {
    8 * st.count - st.lastbits
  }

  /** The state of `decodebits` reading `nbits` from `st` during its byte
      loop, with `n` bits still wanted. */
  ghost predicate Fetching(buf: seq<Byte>, st: DecodeState, nbits: nat,
                           count: nat, lastbits: nat, lastbyte: nat, num: nat, n: nat)
  {
    && Valid(buf, st) && nbits < 32 && CanRead(buf, st, nbits)
    && n <= nbits && st.count <= count <= |buf| && nbits - n == 8 * (count - st.count)
    && lastbits == st.lastbits
    && lastbyte == LastBits(buf, count, Width(count, Base(st)))
    && Holds(buf, num, Pos(st), nbits, n)
    && num < U32_LIMIT
  }

  /** In the tail, after any last fetch and before `lastbits -= nbits`. */
  ghost predicate Tailing(buf: seq<Byte>, st: DecodeState, nbits: nat,
                          count: nat, lastbits: nat, lastbyte: nat, num: nat, n: nat)
  {
    && Valid(buf, st) && nbits < 32 && CanRead(buf, st, nbits)
    && 0 < n < 8 && n <= nbits && n <= lastbits
    && Base(st) <= count <= |buf| && 8 * count - lastbits == Pos(st) + nbits - n
    && lastbits <= Width(count, Base(st))
    && lastbits < 8 + n
    && lastbyte == LastBits(buf, count, Width(count, Base(st)))
    && Holds(buf, num, Pos(st), nbits, n)
  }

  /** All `nbits` gathered, before the final `num &= mask`. */
  ghost predicate Finished(buf: seq<Byte>, st: DecodeState, nbits: nat,
                           count: nat, lastbits: nat, lastbyte: nat, num: nat)
  {
    && Valid(buf, st) && nbits < 32 && CanRead(buf, st, nbits)
    && count <= |buf| && lastbits < 8 && 8 * count - lastbits == Pos(st) + nbits
    && (count > 0 ==> Base(st) < count)
    && (count == 0 ==> lastbits == 0)
    && lastbyte == LastBits(buf, count, Width(count, Base(st)))
    && Holds(buf, num, Pos(st), nbits, 0)
  }

  lemma FetchStart(buf: seq<Byte>, st: DecodeState, nbits: nat)
    requires Valid(buf, st) && nbits < 32 && CanRead(buf, st, nbits)
    ensures Fetching(buf, st, nbits, st.count, st.lastbits, st.lastbyte, 0, nbits)
  {
    HoldsStart(buf, Pos(st), nbits);
    if st.count > 0 {
      ByteLastBits(buf, st.count);
      assert Width(st.count, Base(st)) == 8;
    }
  }

  /** One turn of the byte loop. */
  lemma FetchByte(buf: seq<Byte>, st: DecodeState, nbits: nat,
                  count: nat, lastbits: nat, lastbyte: nat, num: nat, n: nat)
    requires Fetching(buf, st, nbits, count, lastbits, lastbyte, num, n) && n >= 8
    ensures count < |buf|
    ensures Fetching(buf, st, nbits, count + 1, lastbits, Or(Wrap32(Shl(lastbyte, 8)), buf[count]),
                     Or(num, Wrap32(Shl(Shr(Or(Wrap32(Shl(lastbyte, 8)), buf[count]), lastbits), n - 8))),
                     n - 8)
  {
    var s0 := Base(st);
    ByteLeft(count, lastbits, |buf|, n);
    WidthStep(count, s0);
    ShiftIn(buf, count, Width(count, s0));
    var x := Or(Wrap32(Shl(lastbyte, 8)), buf[count]);
    GatherByte(buf, num, x, count + 1, Width(count + 1, s0), lastbits, Pos(st), nbits, n);
  }

  /** The tail when the leftover bits do not suffice: one more byte. */
  lemma FetchLast(buf: seq<Byte>, st: DecodeState, nbits: nat,
                  count: nat, lastbits: nat, lastbyte: nat, num: nat, n: nat)
    requires Fetching(buf, st, nbits, count, lastbits, lastbyte, num, n) && 0 < n < 8 && lastbits < n
    ensures count < |buf|
    ensures Tailing(buf, st, nbits, count + 1, lastbits + 8, Or(Wrap32(Shl(lastbyte, 8)), buf[count]), num, n)
  {
    var s0 := Base(st);
    ByteLeft(count, lastbits, |buf|, n);
    WidthStep(count, s0);
    ShiftIn(buf, count, Width(count, s0));
    assert 8 * (count + 1) - (lastbits + 8) == Pos(st) + nbits - n;
    assert lastbits + 8 <= Width(count + 1, s0) by {
      if st.count > 0 {
        assert s0 + 2 <= count + 1;
      }
    }
  }

  /** The tail when the leftover bits suffice. */
  lemma FetchNone(buf: seq<Byte>, st: DecodeState, nbits: nat,
                  count: nat, lastbits: nat, lastbyte: nat, num: nat, n: nat)
    requires Fetching(buf, st, nbits, count, lastbits, lastbyte, num, n) && 0 < n < 8 && n <= lastbits
    ensures Tailing(buf, st, nbits, count, lastbits, lastbyte, num, n)
  {
  }

  /** `lastbits -= nbits; num |= (lastbyte >> lastbits) & mask`. */
  lemma TailDone(buf: seq<Byte>, st: DecodeState, nbits: nat,
                 count: nat, lastbits: nat, lastbyte: nat, num: nat, n: nat)
    requires Tailing(buf, st, nbits, count, lastbits, lastbyte, num, n)
    ensures n <= lastbits
    ensures Finished(buf, st, nbits, count, lastbits - n, lastbyte,
                     Or(num, And(Shr(lastbyte, lastbits - n), Pow2(nbits) - 1)))
  {
    GatherTail(buf, num, lastbyte, count, Width(count, Base(st)), lastbits - n, Pos(st), nbits, n);
  }

  /** A byte loop that used up all `nbits`, with no tail. */
  lemma FetchDone(buf: seq<Byte>, st: DecodeState, nbits: nat,
                  count: nat, lastbits: nat, lastbyte: nat, num: nat)
    requires Fetching(buf, st, nbits, count, lastbits, lastbyte, num, 0)
    ensures Finished(buf, st, nbits, count, lastbits, lastbyte, num)
  {
  }

  /** The final `num &= mask` and the stored state. */
  lemma Finish(buf: seq<Byte>, st: DecodeState, nbits: nat,
               count: nat, lastbits: nat, lastbyte: nat, num: nat)
    requires Finished(buf, st, nbits, count, lastbits, lastbyte, num)
    ensures Valid(buf, DecodeState(count, lastbits, And(lastbyte, 0xff)))
    ensures Consumed(DecodeState(count, lastbits, And(lastbyte, 0xff))) == Consumed(st) + nbits
    ensures And(num, Pow2(nbits) - 1) == StreamValue(buf, Consumed(st), nbits)
    ensures And(num, Pow2(nbits) - 1) < Pow2(nbits)
  {
    GatherDone(buf, num, Pos(st), nbits);
    StreamValueBound(buf, Pos(st), nbits);
    LastByte(buf, lastbyte, count, Width(count, Base(st)));
  }

  /** `decodebits`: the next `nbits` stream bits, as an unsigned number.
      `1 << nbits` would overflow at 32, and the buffer is indexed without a
      check, so the caller must ensure `nbits < 32` and that enough bits are
      left. */
  method DecodeBits(buf: seq<Byte>, st: DecodeState, nbits: nat) returns (num: nat, st': DecodeState)
    requires Valid(buf, st) && nbits < 32 && CanRead(buf, st, nbits)
    ensures Valid(buf, st')
    ensures Consumed(st') == Consumed(st) + nbits
    ensures num == StreamValue(buf, Consumed(st), nbits)
    ensures num < Pow2(nbits)
  {
    var mask := Pow2(nbits) - 1;
    var lastbits: nat := st.lastbits;
    var count: nat, lastbyte: nat, n: nat;
    count, lastbyte, num, n := FetchBytes(buf, st, nbits);
    if n > 0 {
      count, lastbits, lastbyte, num := DecodeTail(buf, st, nbits, count, lastbyte, num, n, mask);
    } else {
      FetchDone(buf, st, nbits, count, lastbits, lastbyte, num);
    }
    num, st' := Complete(buf, st, nbits, count, lastbits, lastbyte, num);
  }

  /** A call of `decodebits` on data read from a file. It panics when
      `1 << nbits` overflows its `u32` (from 32 bits on) and when it indexes
      `buf` past its end, which it does exactly when fewer than `nbits` bits
      are left: every byte it fetches lies below the new `count`, and
      `8 * count - lastbits` lands `nbits` past the old position with
      `lastbits < 8`. */
  method TryDecodeBits(buf: seq<Byte>, st: DecodeState, nbits: nat) returns (r: Result<(nat, DecodeState)>)
    requires Valid(buf, st)
    ensures r.Ok? <==> nbits < 32 && CanRead(buf, st, nbits)
    ensures r.Ok? ==> Valid(buf, r.value.1) && Consumed(r.value.1) == Consumed(st) + nbits
    ensures r.Ok? ==> r.value.0 == StreamValue(buf, Consumed(st), nbits) && r.value.0 < Pow2(nbits)
  {
    if 32 <= nbits {
      return Err(Panic("attempt to shift left with overflow"));
    }
    if !CanRead(buf, st, nbits) {
      return Err(Panic("index out of bounds"));
    }
    var num, st' := DecodeBits(buf, st, nbits);
    return Ok((num, st'));
  }

  /** The end of `decodebits`: `num &= mask`, and the new state keeps the
      low byte of `lastbyte`. */
  method Complete(buf: seq<Byte>, st: DecodeState, nbits: nat, count: nat, lastbits: nat, lastbyte: nat, num0: nat)
      returns (num: nat, st': DecodeState)
    requires Finished(buf, st, nbits, count, lastbits, lastbyte, num0)
    ensures Valid(buf, st')
    ensures Consumed(st') == Consumed(st) + nbits
    ensures num == StreamValue(buf, Consumed(st), nbits)
    ensures num < Pow2(nbits)
  {
    Finish(buf, st, nbits, count, lastbits, lastbyte, num0);
    num := And(num0, Pow2(nbits) - 1);
    st' := DecodeState(count, lastbits, And(lastbyte, 0xff));
  }

  /** The byte loop of `decodebits`: while `nbits >= 8`, fetch a byte and
      move eight more bits into place in `num`. */
  method FetchBytes(buf: seq<Byte>, st: DecodeState, nbits: nat) returns (count: nat, lastbyte: nat, num: nat, n: nat)
    requires Valid(buf, st) && nbits < 32 && CanRead(buf, st, nbits)
    ensures n < 8 && Fetching(buf, st, nbits, count, st.lastbits, lastbyte, num, n)
  {
    count, lastbyte, num, n := st.count, st.lastbyte, 0, nbits;
    var lastbits := st.lastbits;
    FetchStart(buf, st, nbits);
    while n >= 8
      invariant Fetching(buf, st, nbits, count, lastbits, lastbyte, num, n)
    {
      FetchByte(buf, st, nbits, count, lastbits, lastbyte, num, n);
      lastbyte := Or(Wrap32(Shl(lastbyte, 8)), buf[count]);
      count := count + 1;
      num := Or(num, Wrap32(Shl(Shr(lastbyte, lastbits), n - 8)));
      n := n - 8;
    }
  }

  /** The tail of `decodebits`: the last `nbits % 8` bits, fetching one more
      byte if the leftover bits of the last one do not suffice. */
  method DecodeTail(buf: seq<Byte>, st: DecodeState, nbits: nat, count0: nat, lastbyte0: nat, num0: nat, n: nat, mask: nat)
      returns (count: nat, lastbits: nat, lastbyte: nat, num: nat)
    requires Fetching(buf, st, nbits, count0, st.lastbits, lastbyte0, num0, n) && 0 < n < 8 && mask == Pow2(nbits) - 1
    ensures Finished(buf, st, nbits, count, lastbits, lastbyte, num)
  {
    count, lastbits, lastbyte := TailFetch(buf, st, nbits, count0, lastbyte0, num0, n);
    num := num0;
    TailDone(buf, st, nbits, count, lastbits, lastbyte, num, n);
    lastbits := lastbits - n;
    num := Or(num, And(Shr(lastbyte, lastbits), mask));
  }

  /** `if lastbits < nbits { lastbits += 8; lastbyte = (lastbyte << 8) | buf[cnt]; cnt += 1 }`. */
  method TailFetch(buf: seq<Byte>, st: DecodeState, nbits: nat, count0: nat, lastbyte0: nat, num: nat, n: nat)
      returns (count: nat, lastbits: nat, lastbyte: nat)
    requires Fetching(buf, st, nbits, count0, st.lastbits, lastbyte0, num, n) && 0 < n < 8
    ensures Tailing(buf, st, nbits, count, lastbits, lastbyte, num, n)
  {
    count, lastbits, lastbyte := count0, st.lastbits, lastbyte0;
    if lastbits < n {
      FetchLast(buf, st, nbits, count, lastbits, lastbyte, num, n);
      lastbits := lastbits + 8;
      lastbyte := Or(Wrap32(Shl(lastbyte, 8)), buf[count]);
      count := count + 1;
    } else {
      FetchNone(buf, st, nbits, count, lastbits, lastbyte, num, n);
    }
  }
}
