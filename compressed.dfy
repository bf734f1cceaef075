/** `read_compressed_positions` of src/reader.rs as a whole: the header
    (`minint`, `maxint`, `smallidx`), the set-up of the sizes, the opaque
    block of compressed data and the decode loop over it. The file is the
    byte sequence that is left to read; the result is what is left after
    the positions. */
module Compressed {
  import opened Bits
  import opened Errors
  import opened Xdr
  import opened BitStream
  import opened Sizes
  import opened Coords
  import opened Positions

  /** Three `read_i32` in a row (`[0; 3].try_map(|_| read_i32(file))`). */
  function ReadI32s(s: seq<Byte>): (r: Result<(seq<I32>, seq<Byte>)>)
    ensures r.Ok? <==> |s| >= 12
    ensures r.Err? ==> r.error == UnexpectedEof
    ensures r.Ok? ==> |r.value.0| == 3 && r.value.1 == s[12..]
  {
    var (x, s1) :- ReadI32(s);
    var (y, s2) :- ReadI32(s1);
    var (z, s3) :- ReadI32(s2);
    Ok(([x, y, z], s3))
  }

  /** The header of the compressed block, up to and including the sizes:
      `minint`, `maxint`, `smallidx` and its bound, the sizes of the axes
      and the set-up of the small size. */
  function ReadHeader(s: seq<Byte>): (r: Result<(Layout, Small, seq<Byte>)>)
    ensures r.Ok? ==>
      && LayoutValid(r.value.0) && SmallValid(r.value.1)
      && |s| >= 28 && r.value.2 == s[28..]
  {
    var (minint, s1) :- ReadI32s(s);
    var (maxint, s2) :- ReadI32s(s1);
    var (idx, s3) :- ReadU32(s2);
    if idx >= MagicCount then Err(Panic("assertion failed: smallidx < MAGICINTS.len()"))
    else
      var x :- SizeInt(minint[0], maxint[0]);
      var y :- SizeInt(minint[1], maxint[1]);
      var z :- SizeInt(minint[2], maxint[2]);
      var small :- InitSmall(idx);
      WidthsOfSized(minint, maxint);
      Ok((Layout(minint, maxint, WidthsOf(minint, maxint)), small, s3))
  }

  /** What `read_compressed_positions` reads for `n` positions: the atoms
      and the bytes after the compressed block. A length that is not a
      multiple of three, a header that does not fit and any panic of the
      decode loop are errors; running out of bytes before the end of the
      opaque block is the only I/O error. */
  function Decompress(s: seq<Byte>, n: nat): (r: Result<(seq<Coord>, seq<Byte>)>)
  {
    if n % 3 != 0 then Err(Panic("the length of `positions` must be divisible by 3"))
    else
      var (h, small, s1) :- ReadHeader(s);
      var (data, rest) :- ReadOpaque(s1);
      match DecodeFrom(data, h, Tally(0, small, 0, 0), n / 3, [])
      case None => Err(Panic("the compressed positions cannot be decoded"))
      case Some(atoms) => Ok((atoms, rest))
  }

  /** A successful read yields one atom per three positions, fills the
      `n` positions exactly and consumes the header, the opaque block and
      nothing else. */
  lemma DecompressShape(s: seq<Byte>, n: nat)
    requires Decompress(s, n).Ok?
    ensures var (atoms, rest) := Decompress(s, n).value;
      && n % 3 == 0 && |atoms| == n / 3 && |Flatten(atoms)| == n
      && |s| >= 32 + |rest| && rest == s[|s| - |rest|..]
  {
    var (h, small, s1) := ReadHeader(s).value;
    var (data, rest) := ReadOpaque(s1).value;
    var atoms := DecodeFrom(data, h, Tally(0, small, 0, 0), n / 3, []).value;
    FlattenLength(atoms);
    assert s1 == s1[..4] + data + rest;
  }

  /** The decode loop `while read_idx < natoms` over the compressed data,
      from a cursor `st0` that has fetched nothing yet: each turn is one `ReadStep`, and the positions
      written so far are those of the atoms decoded so far. The loop panics
      exactly where the decode of the specification fails. */
  method DecodeLoop(positions: array<int>, data: seq<Byte>, st0: DecodeState, h: Layout, small0: Small)
    returns (r: Result<()>)
    requires Valid(data, st0) && st0.count == 0 && LayoutValid(h) && SmallValid(small0) && positions.Length % 3 == 0
    modifies positions
    ensures r.Ok? <==> DecodeFrom(data, h, Tally(0, small0, 0, 0), positions.Length / 3, []).Some?
    ensures r.Err? ==> r.error.Panic?
    ensures r.Ok? ==>
      && DecodeFrom(data, h, Tally(0, small0, 0, 0), positions.Length / 3, []).Some?
      && positions[..] == Flatten(DecodeFrom(data, h, Tally(0, small0, 0, 0), positions.Length / 3, []).value)
  {
    var natoms := positions.Length / 3;
    TallyStart(0, small0);
    assert positions.Length == 3 * natoms;
    var st := st0;
    var small := small0;
    var run: nat := 0;
    var w: nat := 0;
    ghost var done: seq<Coord> := [];
    while w < natoms
      invariant Valid(data, st) && TallyValid(Tally(Pos(st), small, run, w)) && w <= natoms
      invariant |done| == w && positions[..3 * w] == Flatten(done)
      invariant DecodeFrom(data, h, Tally(Pos(st), small, run, w), natoms, done)
             == DecodeFrom(data, h, Tally(0, small0, 0, 0), natoms, [])
      decreases natoms - w
    {
      DecodeFromStep(data, h, Tally(Pos(st), small, run, w), natoms, done);
      var step := ReadStep(positions, data, st, h, small, run, w, natoms, Flatten(done));
      if step.Err? {
        return Err(Panic("the compressed positions cannot be decoded"));
      }
      ghost var (atoms, t') := Step(data, h, Tally(Pos(st), small, run, w), natoms).value;
      FlattenAppend(done, atoms);
      done := done + atoms;
      var (st', small', run', w') := step.value;
      st, small, run, w := st', small', run', w';
    }
    assert positions[..] == positions[..3 * w];
    r := Ok(());
  }

  /** The header as the source reads it, with the sizes from
      `calc_sizeint`: it fails where `ReadHeader` does, with an I/O error
      exactly where `ReadHeader` has one, and otherwise yields its layout,
      small size and rest. */
  method ReadHeaderFrom(s: seq<Byte>) returns (r: Result<(Layout, Small, seq<Byte>)>)
    ensures r.Ok? <==> ReadHeader(s).Ok?
    ensures r.Ok? ==> ReadHeader(s).Ok? && r.value == ReadHeader(s).value
    ensures r.Err? ==> ReadHeader(s).Err? && (r.error == UnexpectedEof <==> ReadHeader(s).error == UnexpectedEof)
  {
    var a :- ReadI32s(s);
    var (minint, s1) := a;
    var b :- ReadI32s(s1);
    var (maxint, s2) := b;
    var c :- ReadU32(s2);
    var (idx, s3) := c;
    if idx >= MagicCount {
      return Err(Panic("assertion failed: smallidx < MAGICINTS.len()"));
    }
    var widths :- CalcSizeInt(minint, maxint);
    SizedByUnique(minint, maxint, widths);
    var small :- InitSmall(idx);
    r := Ok((Layout(minint, maxint, widths), small, s3));
  }

  /** `read_compressed_positions` for `positions.Length` positions read
      from `s`: it succeeds exactly where `Decompress` does, fills
      `positions` with the atoms `Decompress` yields and returns the bytes
      after the compressed block. It fails with an I/O error exactly where
      `Decompress` does; every other failure is a panic. */
  method ReadCompressedPositions(s: seq<Byte>, positions: array<int>) returns (r: Result<seq<Byte>>)
    modifies positions
    ensures r.Ok? <==> Decompress(s, positions.Length).Ok?
    ensures r.Ok? ==>
      && Decompress(s, positions.Length).Ok?
      && positions[..] == Flatten(Decompress(s, positions.Length).value.0)
      && r.value == Decompress(s, positions.Length).value.1
    ensures r.Err? ==>
      && Decompress(s, positions.Length).Err?
      && (r.error == UnexpectedEof <==> Decompress(s, positions.Length).error == UnexpectedEof)
  {
    var n := positions.Length;
    if n % 3 != 0 {
      return Err(Panic("the length of `positions` must be divisible by 3"));
    }
    var hd :- ReadHeaderFrom(s);
    var (h, small, s3) := hd;
    var o :- ReadOpaque(s3);
    var (data, rest) := o;
    var d :- DecodeLoop(positions, data, Start, h, small);
    r := Ok(rest);
  }
}
