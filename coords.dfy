/** `read_compressed_positions` in src/reader.rs: the integer part of the
    xdr3dfcoord decompressor of GROMACS. After a header (the bounding box
    `minint`/`maxint` and the starting `smallidx`) and the opaque block of
    compressed bits, each step of the loop decodes one large atom relative
    to `minint` and, when a run follows, a series of small atoms, each one
    relative to the atom before it, with the first small atom swapped in
    front of the large one. `smallidx` picks the size of the small digits
    and adapts by one step at a time. Coordinates are kept as integers: the
    scaling by `1 / precision` into `f32` is left out. */
module Coords {
  import opened Bits
  import opened Errors
  import opened Xdr
  import opened BitStream
  import opened Sizes
  import opened Unpack
  import opened DecodeInts

  // ---------------------------------------------------------------------
  // MAGICINTS

  /** The length of `MAGICINTS`. */
  const MagicCount: nat := 73

  /** `FIRSTIDX`: the first nonzero entry of `MAGICINTS`. */
  const FirstIdx: nat := 9

  /** `MAGICINTS[i]` for `i < MagicCount`: the digit sizes of small atoms,
      about `2^(i / 3)`; the first nine entries are zero. */
  function MagicInt(i: nat): nat
  {
    match i
    case 9 => 8  case 10 => 10  case 11 => 12  case 12 => 16  case 13 => 20
    case 14 => 25  case 15 => 32  case 16 => 40  case 17 => 50  case 18 => 64
    case 19 => 80  case 20 => 101  case 21 => 128  case 22 => 161  case 23 => 203
    case 24 => 256  case 25 => 322  case 26 => 406  case 27 => 512  case 28 => 645
    case 29 => 812  case 30 => 1024  case 31 => 1290  case 32 => 1625  case 33 => 2048
    case 34 => 2580  case 35 => 3250  case 36 => 4096  case 37 => 5060  case 38 => 6501
    case 39 => 8192  case 40 => 10321  case 41 => 13003  case 42 => 16384  case 43 => 20642
    case 44 => 26007  case 45 => 32768  case 46 => 41285  case 47 => 52015  case 48 => 65536
    case 49 => 82570  case 50 => 104031  case 51 => 131072  case 52 => 165140  case 53 => 208063
    case 54 => 262144  case 55 => 330280  case 56 => 416127  case 57 => 524287  case 58 => 660561
    case 59 => 832255  case 60 => 1048576  case 61 => 1321122  case 62 => 1664510  case 63 => 2097152
    case 64 => 2642245  case 65 => 3329021  case 66 => 4194304  case 67 => 5284491  case 68 => 6658042
    case 69 => 8388607  case 70 => 10568983  case 71 => 13316085  case 72 => 16777216
    case _ => 0
  }

  /** The entries below `FirstIdx` are zero, the others positive, growing
      and at most `2^24`. */
  lemma MagicIntsRange(i: nat)
    requires i < MagicCount
    ensures MagicInt(i) == 0 <==> i < FirstIdx
    ensures MagicInt(i) <= 0x100_0000
    ensures FirstIdx <= i < MagicCount - 1 ==> MagicInt(i) < MagicInt(i + 1)
  {
  }

  /** The product of two small sizes fits a `u32` while `i <= 32` and
      always fits a `u64`, so the run loop's `decodeints` never divides by
      zero or overflows. */
  lemma MagicIntsFit(i: nat)
    requires FirstIdx <= i < MagicCount
    ensures i <= 32 ==> MagicInt(i) * MagicInt(i) < U32_LIMIT
    ensures MagicInt(i) * MagicInt(i) < 0x1_0000_0000_0000_0000
  {
  }

  // ---------------------------------------------------------------------
  // The adaptive small size

  /** `smallidx`, `smaller`, `smallnum` and `sizesmall`: the index of the
      small size, the halves of the sizes at and below it, and the size
      itself (all three entries of `sizesmall` hold it). */
  datatype Small = Small(idx: nat, smaller: nat, smallnum: nat, size: nat)

  /** `smallnum` is half the current size and, above `FirstIdx`,
      `smaller` is half the size one below. */
  predicate SmallValid(s: Small)
  {
    && 0 < s.idx < MagicCount
    && s.size == MagicInt(s.idx)
    && s.smallnum == s.size / 2
    && (s.idx > FirstIdx ==> s.smaller == MagicInt(s.idx - 1) / 2)
  }

  /** The set-up before the loop: `assert!(smallidx < MAGICINTS.len())`,
      then `tmpidx = smallidx - 1` (which overflows at 0), raised to
      `FIRSTIDX`, and the two halves. */
  function InitSmall(idx: nat): (r: Result<Small>)
    ensures r.Ok? <==> 0 < idx < MagicCount
    ensures r.Ok? ==> r.value.idx == idx && SmallValid(r.value)
  {
    if idx >= MagicCount then Err(Panic("assertion failed: smallidx < MAGICINTS.len()"))
    else if idx == 0 then Err(Panic("attempt to subtract with overflow"))
    else
      var tmpidx := if FirstIdx > idx - 1 then FirstIdx else idx - 1;
      Ok(Small(idx, MagicInt(tmpidx) / 2, MagicInt(idx) / 2, MagicInt(idx)))
  }

  function Sign(x: int): int
  {
    if x < 0 then -1 else if x > 0 then 1 else 0
  }

  /** The end of each step: `smallidx` goes down or up by one as
      `is_smaller` is negative or positive, the halves follow, and a size
      of zero (or an index past the table) panics. */
  function Adapt(s: Small, isSmaller: int): (r: Result<Small>)
    requires 0 < s.idx < MagicCount
    ensures r.Ok? <==> FirstIdx <= s.idx + Sign(isSmaller) < MagicCount
    ensures r.Ok? ==> r.value.idx == s.idx + Sign(isSmaller) && FirstIdx <= r.value.idx < MagicCount
    ensures r.Ok? && SmallValid(s) ==> SmallValid(r.value) && SmallSize(r.value)
  {
    if isSmaller < 0 then ShrinkSmall(s)
    else if isSmaller > 0 then GrowSmall(s)
    else KeepSmall(s)
  }

  /** No change of size: only the check for a zero size. */
  function KeepSmall(s: Small): (r: Result<Small>)
    requires 0 < s.idx < MagicCount
    ensures r.Ok? <==> FirstIdx <= s.idx
    ensures r.Ok? ==> r.value == s
    ensures r.Ok? && SmallValid(s) ==> SmallValid(r.value) && SmallSize(r.value)
  {
    MagicIntsRange(s.idx);
    if MagicInt(s.idx) == 0 then Err(Panic("found an invalid size"))
    else
      if SmallValid(s) then SmallSizeOf(s); Ok(s) else Ok(s)
  }

  /** `smallidx -= 1; smallnum = smaller; smaller = MAGICINTS[smallidx - 1] / 2`
      above `FIRSTIDX` (else 0), then the check for a zero size. */
  function ShrinkSmall(s: Small): (r: Result<Small>)
    requires 0 < s.idx < MagicCount
    ensures r.Ok? <==> FirstIdx < s.idx
    ensures r.Ok? ==> r.value.idx == s.idx - 1
    ensures r.Ok? && SmallValid(s) ==> SmallValid(r.value) && SmallSize(r.value)
  {
    var idx := s.idx - 1;
    var n := Small(idx, if idx > FirstIdx then MagicInt(idx - 1) / 2 else 0, s.smaller, MagicInt(idx));
    MagicIntsRange(idx);
    if MagicInt(idx) == 0 then Err(Panic("found an invalid size"))
    else
      if SmallValid(s) then SmallSizeOf(n); Ok(n) else Ok(n)
  }

  /** `smallidx += 1; smaller = smallnum; smallnum = MAGICINTS[smallidx] / 2`
      (past the table an index panic), then the check for a zero size. */
  function GrowSmall(s: Small): (r: Result<Small>)
    requires 0 < s.idx < MagicCount
    ensures r.Ok? <==> FirstIdx <= s.idx + 1 < MagicCount
    ensures r.Ok? ==> r.value.idx == s.idx + 1
    ensures r.Ok? && SmallValid(s) ==> SmallValid(r.value) && SmallSize(r.value)
  {
    var idx := s.idx + 1;
    if idx >= MagicCount then Err(Panic("index out of bounds"))
    else
      var n := Small(idx, s.smallnum, MagicInt(idx) / 2, MagicInt(idx));
      MagicIntsRange(idx);
      if MagicInt(idx) == 0 then Err(Panic("found an invalid size"))
      else
        if SmallValid(s) then SmallSizeOf(n); Ok(n) else Ok(n)
  }

  /** What the run loop needs of a valid small size: positive, at most
      `2^24`, and small enough for the word unpackers. */
  predicate SmallSize(s: Small)
  {
    && FirstIdx <= s.idx < MagicCount
    && 0 < s.size <= 0x100_0000
    && s.smallnum == s.size / 2
    && (s.idx <= 32 ==> s.size * s.size < U32_LIMIT)
    && s.size * s.size < 0x1_0000_0000_0000_0000
  }

  lemma SmallSizeOf(s: Small)
    requires SmallValid(s) && FirstIdx <= s.idx
    ensures SmallSize(s)
  {
    MagicIntsRange(s.idx);
    MagicIntsFit(s.idx);
  }

  /** The 5-bit run code: `is_smaller = run % 3; run -= is_smaller;
      is_smaller -= 1`. The run is a multiple of three up to 30 and the
      change of size is -1, 0 or 1. */
  function RunCode(code: nat): (r: (nat, int))
    requires code < 32
    ensures r.0 % 3 == 0 && r.0 <= 30 && -1 <= r.1 <= 1
    ensures r.0 + r.1 + 1 == code
  {
    var isSmaller := code % 3;
    (code - isSmaller, isSmaller - 1)
  }

  /** Every run and change of size is written by exactly one code. */
  lemma RunCodeOf(run: nat, isSmaller: int)
    requires run % 3 == 0 && -1 <= isSmaller <= 1 && run + isSmaller + 1 < 32
    ensures RunCode(run + isSmaller + 1) == (run, isSmaller)
  {
  }

  // ---------------------------------------------------------------------
  // The atoms of one step

  /** The integer coordinates of one atom (a `[i32; 3]`). */
  datatype Coord = Coord(x: int, y: int, z: int)

  /** Elementwise sum of two triples (`thiscoord[i] += minint[i]`). */
  function Plus(a: seq<int>, b: seq<int>): Coord
    requires |a| == 3 && |b| == 3
  {
    Coord(a[0] + b[0], a[1] + b[1], a[2] + b[2])
  }

  /** What the loop uses of the header: the lower corner and the widths
      `calc_sizeint` worked out from the box. */
  datatype Layout = Layout(minint: seq<I32>, maxint: seq<I32>, widths: Widths)

  predicate LayoutValid(h: Layout)
  {
    && |h.minint| == 3 && |h.maxint| == 3
    && (forall i :: 0 <= i < 3 ==> SizeInt(h.minint[i], h.maxint[i]).Ok?)
    && SizedBy(h.minint, h.maxint, h.widths)
  }

  /** The number of bits of a large atom. */
  function LargeBits(w: Widths): nat
    requires |w.bitsizeint| == 3
  {
    if w.bitsize == 0 then w.bitsizeint[0] as nat + w.bitsizeint[1] as nat + w.bitsizeint[2] as nat
    else w.bitsize
  }

  /** The sizes of a packed large atom are positive and below `2^24`, so
      `decodeints` never fails on them and yields their digits. */
  lemma PackedSizes(h: Layout)
    requires LayoutValid(h) && h.widths.bitsize != 0
    ensures forall i :: 0 <= i < 3 ==> 0 < h.widths.sizeint[i] <= 0xff_ffff
    ensures h.widths.bitsize <= 32 ==> (h.widths.sizeint[1] as nat) * (h.widths.sizeint[2] as nat) < U32_LIMIT
    ensures h.widths.bitsize <= 64 ==> (h.widths.sizeint[1] as nat) * (h.widths.sizeint[2] as nat) < 0x1_0000_0000_0000_0000
    ensures h.widths.bitsize <= 256
  {
    var w := h.widths;
    assert forall i :: 0 <= i < 3 ==> w.sizeint[i] == SizeInt(h.minint[i], h.maxint[i]).value;
    ProductOfThree(w.sizeint);
    ProductWidth(w.sizeint[0] as nat, w.sizeint[1] as nat, w.sizeint[2] as nat, Product(w.sizeint), w.bitsize);
  }

  /** The bit length of a product of three sizes below `2^24`. */
  lemma ProductWidth(x: nat, y: nat, z: nat, prod: nat, bits: nat)
    requires 0 < x <= 0xff_ffff && 0 < y <= 0xff_ffff && 0 < z <= 0xff_ffff
    requires prod == x * y * z && bits == BitLength(prod)
    ensures bits <= 72
    ensures bits <= 32 ==> y * z < U32_LIMIT
    ensures bits <= 64 ==> y * z < 0x1_0000_0000_0000_0000
  {
    ProductBounds(x, y, z);
    WidthBelow(y * z, prod, bits);
  }

  /** The product of three sizes below `2^24` is below `2^72` and, the
      first being positive, no smaller than the product of the other two. */
  lemma ProductBounds(x: nat, y: nat, z: nat)
    requires 0 < x <= 0xff_ffff && y <= 0xff_ffff && z <= 0xff_ffff
    ensures 0 <= y * z <= x * y * z < Pow2(72)
  {
    MulMono(y, 0, z);
    var yz := y * z;
    assert x * y * z == x * yz;
    MulMono(yz, 1, x);
    CubeBelow(x, y, z);
  }

  /** A number of `bits` bits below `2^72` and anything below it. */
  lemma WidthBelow(part: nat, prod: nat, bits: nat)
    requires part <= prod < Pow2(72) && bits == BitLength(prod)
    ensures bits <= 72
    ensures bits <= 32 ==> part < U32_LIMIT
    ensures bits <= 64 ==> part < 0x1_0000_0000_0000_0000
  {
    BitLengthLeast(prod, 72);
    BitLengthLeast(prod, 64);
    BitLengthLeast(prod, 32);
    Pow2Values();
    WordLimitPow2(64);
  }

  /** Three numbers below `2^24` multiply to less than `2^72`. */
  lemma CubeBelow(x: nat, y: nat, z: nat)
    requires x <= 0xff_ffff && y <= 0xff_ffff && z <= 0xff_ffff
    ensures x * y * z < Pow2(72)
  {
    MulMono(x, y, 0xff_ffff);
    MulMono(0xff_ffff, x, 0xff_ffff);
    MulMono(x * y, z, 0xff_ffff);
    MulMono(0xff_ffff, x * y, 0xff_ffff * 0xff_ffff);
    Pow2Add(32, 32);
    Pow2Add(64, 8);
    Pow2Values();
  }

  /** The large atom at bit `p`: three separate widths, or one packed
      number split by the sizes; `minint` added. */
  function LargeAtom(buf: seq<Byte>, p: nat, h: Layout): Coord
    requires LayoutValid(h) && p + LargeBits(h.widths) <= 8 * |buf|
  {
    if h.widths.bitsize == 0 then SeparateAtom(buf, p, h) else PackedAtom(buf, p, h)
  }

  /** The large atom lies in the box from `minint`: each coordinate below
      `minint + 2^bitsizeint` with separate widths, the last two below
      `minint + sizeint` when packed in at most 64 bits. Packed in more,
      the long path as written leaves `thiscoord[2]` zero, so `z` is
      `minint[2]`. */
  lemma LargeAtomRange(buf: seq<Byte>, p: nat, h: Layout)
    requires LayoutValid(h) && p + LargeBits(h.widths) <= 8 * |buf|
    ensures var c := LargeAtom(buf, p, h);
      && (h.widths.bitsize == 0 ==>
           && 0 <= c.x - h.minint[0] < Pow2(h.widths.bitsizeint[0] as nat)
           && 0 <= c.y - h.minint[1] < Pow2(h.widths.bitsizeint[1] as nat)
           && 0 <= c.z - h.minint[2] < Pow2(h.widths.bitsizeint[2] as nat))
      && (0 < h.widths.bitsize <= 64 ==>
           0 <= c.y - h.minint[1] < h.widths.sizeint[1] as int && 0 <= c.z - h.minint[2] < h.widths.sizeint[2] as int)
      && (h.widths.bitsize > 64 ==> c.z == h.minint[2])
  {
    if h.widths.bitsize == 0 {
      SeparateAtomRange(buf, p, h);
    } else {
      PackedAtomRange(buf, p, h);
    }
  }

  lemma SeparateAtomRange(buf: seq<Byte>, p: nat, h: Layout)
    requires |h.minint| == 3 && |h.widths.bitsizeint| == 3 && h.widths.bitsize == 0
    requires p + LargeBits(h.widths) <= 8 * |buf|
    ensures var c := SeparateAtom(buf, p, h);
      && 0 <= c.x - h.minint[0] < Pow2(h.widths.bitsizeint[0] as nat)
      && 0 <= c.y - h.minint[1] < Pow2(h.widths.bitsizeint[1] as nat)
      && 0 <= c.z - h.minint[2] < Pow2(h.widths.bitsizeint[2] as nat)
  {
    var b0, b1, b2 := h.widths.bitsizeint[0] as nat, h.widths.bitsizeint[1] as nat, h.widths.bitsizeint[2] as nat;
    StreamValueBound(buf, p, b0);
    StreamValueBound(buf, p + b0, b1);
    StreamValueBound(buf, p + b0 + b1, b2);
  }

  lemma PackedAtomRange(buf: seq<Byte>, p: nat, h: Layout)
    requires LayoutValid(h) && h.widths.bitsize != 0 && p + LargeBits(h.widths) <= 8 * |buf|
    ensures var c := PackedAtom(buf, p, h);
      && (h.widths.bitsize <= 64 ==>
           0 <= c.y - h.minint[1] < h.widths.sizeint[1] as int && 0 <= c.z - h.minint[2] < h.widths.sizeint[2] as int)
      && (h.widths.bitsize > 64 ==> c.z == h.minint[2])
  {
    PackedSizes(h);
    DecodedNumsDigits(LittleValue(buf, p, h.widths.bitsize), h.widths.bitsize, h.widths.sizeint, 0);
  }

  /** Three numbers of the separate widths, one after the other. */
  function SeparateAtom(buf: seq<Byte>, p: nat, h: Layout): Coord
    requires |h.minint| == 3 && |h.widths.bitsizeint| == 3 && h.widths.bitsize == 0
    requires p + LargeBits(h.widths) <= 8 * |buf|
  {
    var w := h.widths;
    var b0, b1, b2 := w.bitsizeint[0] as nat, w.bitsizeint[1] as nat, w.bitsizeint[2] as nat;
    Coord(StreamValue(buf, p, b0) + h.minint[0], StreamValue(buf, p + b0, b1) + h.minint[1],
          StreamValue(buf, p + b0 + b1, b2) + h.minint[2])
  }

  /** One number of `bitsize` bits, decoded by `decodeints` into a zeroed
      `thiscoord`: split by the sizes up to 64 bits. */
  function PackedAtom(buf: seq<Byte>, p: nat, h: Layout): Coord
    requires LayoutValid(h) && h.widths.bitsize != 0 && p + LargeBits(h.widths) <= 8 * |buf|
  {
    var w := h.widths;
    PackedSizes(h);
    Plus(DecodedNums(LittleValue(buf, p, w.bitsize), w.bitsize, w.sizeint, 0), h.minint)
  }

  /** The digits of one small atom: `smallidx` bits decoded by
      `decodeints` with the small size; `held` is what `thiscoord[2]`
      holds before the call, which the long path leaves in place. */
  function SmallDigits(buf: seq<Byte>, p: nat, nbits: nat, size: nat, held: int): (d: seq<int>)
    requires size > 0 && p + nbits <= 8 * |buf|
    ensures |d| == 3
  {
    DecodedNums(LittleValue(buf, p, nbits), nbits, [size, size, size], held)
  }

  /** Small digits that `decodeints` splits lie below the small size; on
      the long path the last one is the held value. */
  lemma SmallDigitsRange(buf: seq<Byte>, p: nat, nbits: nat, size: nat, held: int)
    requires size > 0 && p + nbits <= 8 * |buf|
    ensures var d := SmallDigits(buf, p, nbits, size, held);
      && (nbits <= 64 && size <= 0x8000_0000 ==> 0 <= d[1] < size && 0 <= d[2] < size)
      && (nbits > 64 ==> d[2] == held)
  {
    DecodedNumsDigits(LittleValue(buf, p, nbits), nbits, [size, size, size], held);
  }

  /** `thiscoord[2]` when turn `j` of a run calls `decodeints`: zero on the
      first turn (`thiscoord.fill(0)`), the large atom on the second (the
      swap put it there) and the atom before, `last`, on later turns. */
  function Held(j: nat, large: Coord, last: Coord): int
  {
    if j == 0 then 0 else if j == 1 then large.z else last.z
  }

  /** `thiscoord[i] += prevcoord[i] - smallnum`: a small atom is its digits
      relative to the atom before it, centred by `smallnum`. */
  function Offset(d: seq<int>, prev: Coord, smallnum: int): Coord
    requires |d| == 3
  {
    Coord(d[0] + prev.x - smallnum, d[1] + prev.y - smallnum, d[2] + prev.z - smallnum)
  }

  /** The bits of `count` numbers of `nbits` bits each. */
  function Span(count: nat, nbits: nat): nat
  {
    if count == 0 then 0 else Span(count - 1, nbits) + nbits
  }

  lemma {:induction false} SpanMono(a: nat, b: nat, nbits: nat)
    requires a <= b
    ensures Span(a, nbits) <= Span(b, nbits)
    decreases b
  {
    if a < b {
      SpanMono(a, b - 1, nbits);
    }
  }

  /** The first `count` small atoms of a run starting at bit `p`, each
      relative to the one before it and the first relative to `prev`. */
  function RunAtoms(buf: seq<Byte>, p: nat, s: Small, prev: Coord, count: nat): (atoms: seq<Coord>)
    requires s.size > 0 && p + Span(count, s.idx) <= 8 * |buf|
    ensures |atoms| == count
    decreases count
  {
    if count == 0 then []
    else
      var q := p + Span(count - 1, s.idx);
      var before := RunAtoms(buf, p, s, prev, count - 1);
      var last := if count == 1 then prev else before[count - 2];
      before + [Offset(SmallDigits(buf, q, s.idx, s.size, Held(count - 1, prev, last)), last, s.smallnum)]
  }

  /** The atoms of one step in the order they are written: with a run,
      the first small atom goes before the large one (the water swap, so
      that water stored as OHH comes out HOH). */
  function StepOrder(large: Coord, atoms: seq<Coord>): (order: seq<Coord>)
    ensures |order| == 1 + |atoms|
    ensures atoms == [] ==> order == [large]
    ensures atoms != [] ==> order[0] == atoms[0] && order[1] == large && order[2..] == atoms[1..]
  {
    if atoms == [] then [large] else [atoms[0], large] + atoms[1..]
  }
}
