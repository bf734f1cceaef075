/** Frames of an XTC trajectory and the reader that reads them one after
    another (src/lib.rs). A frame is a header (magic number, atom count,
    step, time, box, the atom count again), then either the positions as
    plain floats (at most nine atoms) or a precision and the compressed
    positions. Float words are kept as their bit patterns; compressed
    positions are the integers before the scaling by the precision. */
module Xtc {
  import opened Bits
  import opened Errors
  import opened Xdr
  import opened Positions
  import opened Compressed

  /** `XTCReader::MAGIC` */
  const MAGIC: int := 1995

  /** The size of a frame header in bytes: fourteen 4-byte words. */
  const HEADER_SIZE: nat := 56

  /** The header fields of a frame, as read. */
  datatype Header = Header(natoms: nat, step: nat, time: U32, boxvec: Mat3, natomsRepeated: nat)

  /** What a header can hold: counts that fit an `i32`. */
  predicate HeaderValid(h: Header)
  {
    h.natoms < 0x8000_0000 && h.step < 0x8000_0000 && h.natomsRepeated < 0x8000_0000
  }

  /** A header in file order, each field a big-endian word. */
  function HeaderBytes(h: Header): (b: seq<Byte>)
    requires HeaderValid(h)
    ensures |b| == HEADER_SIZE
  {
    ToBeBytes(I32Word(MAGIC)) + ToBeBytes(I32Word(h.natoms)) + ToBeBytes(I32Word(h.step))
      + ToBeBytes(h.time) + WordsToBytes(BoxWords(h.boxvec)) + ToBeBytes(I32Word(h.natomsRepeated))
  }

  /** The header part of `read_frame`, in the order of the source: the
      magic number must be 1995, the atom count and the step must not be
      negative, and the repeated atom count must equal the first one. A
      read that runs out of bytes fails with `UnexpectedEof`, a check that
      fails panics. */
  function ReadFrameHeader(s: seq<Byte>): (r: Result<(Header, seq<Byte>)>)
    ensures r.Ok? ==>
      && |s| >= HEADER_SIZE && r.value.1 == s[HEADER_SIZE..]
      && s[..4] == ToBeBytes(I32Word(MAGIC))
      && HeaderValid(r.value.0) && r.value.0.natomsRepeated == r.value.0.natoms
      && s[..HEADER_SIZE] == HeaderBytes(r.value.0)
  {
    var (magic, s1) :- ReadI32(s);
    if magic != MAGIC then Err(Panic("assertion `left == right` failed"))
    else
      var (natoms, s2) :- ReadI32(s1);
      if natoms < 0 then Err(Panic("natoms must be a positive integer"))
      else
        var (step, s3) :- ReadI32(s2);
        if step < 0 then Err(Panic("step must be a positive integer"))
        else
          var (time, s4) :- ReadF32(s3);
          var (boxvec, s5) :- ReadBoxvec(s4);
          var (repeated, s6) :- ReadI32(s5);
          if repeated < 0 then Err(Panic("called `Result::unwrap()` on an `Err` value"))
          else if natoms != repeated then Err(Panic("assertion `left == right` failed"))
          else
            var h := Header(natoms, step, time, boxvec, repeated);
            HeaderSplit(s, h, s1, s2, s3, s4, s5, s6);
            Ok((h, s6))
  }

  /** A header read runs out of bytes only on fewer than 56 bytes. */
  lemma HeaderEofIsShort(s: seq<Byte>)
    requires ReadFrameHeader(s) == Err(UnexpectedEof)
    ensures |s| < HEADER_SIZE
  {
    if |s| >= HEADER_SIZE {
      assert false;
    }
  }

  lemma HeaderSplit(s: seq<Byte>, h: Header, s1: seq<Byte>, s2: seq<Byte>, s3: seq<Byte>,
                    s4: seq<Byte>, s5: seq<Byte>, s6: seq<Byte>)
    requires HeaderValid(h)
    requires s == ToBeBytes(I32Word(MAGIC)) + s1 && s1 == ToBeBytes(I32Word(h.natoms)) + s2
    requires s2 == ToBeBytes(I32Word(h.step)) + s3 && s3 == ToBeBytes(h.time) + s4
    requires |s4| >= 36 && s5 == s4[36..]
    requires forall i, j :: 0 <= i < 3 && 0 <= j < 3 ==>
      ToBeBytes(h.boxvec[i][j]) == s4[4 * (3 * j + i)..4 * (3 * j + i) + 4]
    requires s5 == ToBeBytes(I32Word(h.natomsRepeated)) + s6
    ensures |s| >= HEADER_SIZE && s6 == s[HEADER_SIZE..] && s[..4] == ToBeBytes(I32Word(MAGIC))
    ensures s[..HEADER_SIZE] == HeaderBytes(h)
  {
    BoxBytes(h.boxvec, s4);
    assert s4 == s4[..36] + s5;
    assert s == HeaderBytes(h) + s6;
  }

  lemma BoxBytes(cols: Mat3, s: seq<Byte>)
    requires |s| >= 36
    requires forall i, j :: 0 <= i < 3 && 0 <= j < 3 ==>
      ToBeBytes(cols[i][j]) == s[4 * (3 * j + i)..4 * (3 * j + i) + 4]
    ensures WordsToBytes(BoxWords(cols)) == s[..36]
  {
    var w := BoxWords(cols);
    forall k | 0 <= k < 9
      ensures WordsToBytes(w)[4 * k..4 * k + 4] == s[4 * k..4 * k + 4]
    {
      WordsAt(w, k);
      assert w[k] == cols[k % 3][k / 3];
    }
    forall m | 0 <= m < 36
      ensures WordsToBytes(w)[m] == s[m]
    {
      var k := m / 4;
      assert WordsToBytes(w)[4 * k..4 * k + 4][m - 4 * k] == WordsToBytes(w)[m];
      assert s[4 * k..4 * k + 4][m - 4 * k] == s[m];
    }
  }

  /** A written header reads back as itself. */
  lemma ReadHeaderOfWritten(h: Header, rest: seq<Byte>)
    requires HeaderValid(h) && h.natomsRepeated == h.natoms
    ensures ReadFrameHeader(HeaderBytes(h) + rest) == Ok((h, rest))
  {
    var tail5 := ToBeBytes(I32Word(h.natomsRepeated)) + rest;
    var tail4 := WordsToBytes(BoxWords(h.boxvec)) + tail5;
    var tail3 := ToBeBytes(h.time) + tail4;
    var tail2 := ToBeBytes(I32Word(h.step)) + tail3;
    var tail1 := ToBeBytes(I32Word(h.natoms)) + tail2;
    assert HeaderBytes(h) + rest == ToBeBytes(I32Word(MAGIC)) + tail1;
    ReadI32OfWritten(MAGIC, tail1);
    ReadI32OfWritten(h.natoms, tail2);
    ReadI32OfWritten(h.step, tail3);
    ReadU32OfWritten(h.time, tail4);
    ReadBoxvecOfWritten(h.boxvec, tail5);
    ReadI32OfWritten(h.natomsRepeated, rest);
  }

  /** What a frame holds once read. */
  datatype FrameData = FrameData(step: nat, time: U32, boxvec: Mat3, positions: seq<int>)

  /** `t` is what is left of `s` after reading from its front. */
  predicate Suffix(t: seq<Byte>, s: seq<Byte>)
  {
    |t| <= |s| && t == s[|s| - |t|..]
  }

  lemma SuffixOfConcat(p: seq<Byte>, t: seq<Byte>, s: seq<Byte>)
    requires s == p + t
    ensures Suffix(t, s)
  {
    assert s[|s| - |t|..] == t;
  }

  lemma SuffixOfDrop(s: seq<Byte>, k: nat)
    requires k <= |s|
    ensures Suffix(s[k..], s)
  {
  }

  lemma SuffixTrans(a: seq<Byte>, b: seq<Byte>, c: seq<Byte>)
    requires Suffix(a, b) && Suffix(b, c)
    ensures Suffix(a, c)
  {
    assert c[|c| - |a|..] == b[|b| - |a|..];
  }

  /** The compressed positions of a frame of `n` atoms: a precision word,
      then the compressed block. */
  function ReadCompressedFrame(s: seq<Byte>, n: nat): Result<(seq<int>, seq<Byte>)>
  {
    var (precision, s2) :- ReadF32(s);
    var (atoms, s3) :- Decompress(s2, 3 * n);
    Ok((Flatten(atoms), s3))
  }

  lemma CompressedFrameShape(s: seq<Byte>, n: nat)
    requires ReadCompressedFrame(s, n).Ok?
    ensures |ReadCompressedFrame(s, n).value.0| == 3 * n
    ensures |s| >= 4 + 32 + |ReadCompressedFrame(s, n).value.1|
    ensures Suffix(ReadCompressedFrame(s, n).value.1, s)
  {
    var s2 := ReadF32(s).value.1;
    DecompressShape(s2, 3 * n);
    var rest := Decompress(s2, 3 * n).value.1;
    SuffixOfConcat(ToBeBytes(ReadF32(s).value.0), s2, s);
    SuffixTrans(rest, s2, s);
  }

  /** The positions of a frame of `n` atoms after its header. */
  function ReadPositions(s: seq<Byte>, n: nat): Result<(seq<int>, seq<Byte>)>
  {
    if n <= 9 then
      var (ws, s2) :- ReadF32s(s, 3 * n);
      var words: seq<int> := ws;
      Ok((words, s2))
    else
      ReadCompressedFrame(s, n)
  }

  /** Read positions fill `3 * n` entries and leave the rest of the input:
      `12 * n` bytes for at most nine atoms, at least a precision word and
      the 32 bytes that start a compressed block otherwise. */
  lemma PositionsShape(s: seq<Byte>, n: nat)
    requires ReadPositions(s, n).Ok?
    ensures |ReadPositions(s, n).value.0| == 3 * n
    ensures n <= 9 ==> |s| == 12 * n + |ReadPositions(s, n).value.1|
    ensures n > 9 ==> |s| >= 4 + 32 + |ReadPositions(s, n).value.1|
    ensures Suffix(ReadPositions(s, n).value.1, s)
  {
    if n <= 9 {
      var (ws, rest) := ReadF32s(s, 3 * n).value;
      SuffixOfConcat(WordsToBytes(ws), rest, s);
    } else {
      CompressedFrameShape(s, n);
    }
  }

  /** A whole frame: the header, then `3 * natoms` float words for at most
      nine atoms, or else a precision word and the compressed positions. */
  function ParseFrame(s: seq<Byte>): Result<(FrameData, seq<Byte>)>
  {
    var (h, s1) :- ReadFrameHeader(s);
    var (positions, s2) :- ReadPositions(s1, h.natoms);
    Ok((FrameData(h.step, h.time, h.boxvec, positions), s2))
  }

  /** A frame read has read its header and `3 * natoms` positions, and the
      input left is what follows them. */
  lemma FrameShape(s: seq<Byte>)
    requires ParseFrame(s).Ok?
    ensures ReadFrameHeader(s).Ok?
    ensures |ParseFrame(s).value.0.positions| == 3 * ReadFrameHeader(s).value.0.natoms
    ensures ReadFrameHeader(s).value.0.natoms <= 9 ==>
      |s| == HEADER_SIZE + 12 * ReadFrameHeader(s).value.0.natoms + |ParseFrame(s).value.1|
    ensures ReadFrameHeader(s).value.0.natoms > 9 ==> |s| >= HEADER_SIZE + 4 + 32 + |ParseFrame(s).value.1|
    ensures Suffix(ParseFrame(s).value.1, s)
  {
    var (h, s1) := ReadFrameHeader(s).value;
    PositionsShape(s1, h.natoms);
    SuffixOfDrop(s, HEADER_SIZE);
    SuffixTrans(ReadPositions(s1, h.natoms).value.1, s1, s);
  }

  /** A frame of at most nine atoms, written as a header and the words of
      its positions, reads back as those positions. */
  lemma ReadSmallFrameOfWritten(h: Header, ws: seq<U32>, rest: seq<Byte>)
    requires HeaderValid(h) && h.natomsRepeated == h.natoms && h.natoms <= 9 && |ws| == 3 * h.natoms
    ensures ParseFrame(HeaderBytes(h) + (WordsToBytes(ws) + rest))
         == Ok((FrameData(h.step, h.time, h.boxvec, ws), rest))
  {
    var tail := WordsToBytes(ws) + rest;
    ReadHeaderOfWritten(h, tail);
    ReadF32sOfWritten(ws, rest);
    var words: seq<int> := ws;
    assert ReadPositions(tail, h.natoms) == Ok((words, rest));
  }

  /** `Frame`: the fields `read_frame` overwrites. */
  class Frame {
    var step: nat
    var time: U32
    var boxvec: Mat3
    var positions: seq<int>

    /** `Frame::default()`: zeros, no positions, and glam's default
        `Mat3`, the identity (`1.0` is the word `0x3f80_0000`). */
    constructor ()
      ensures step == 0 && time == 0 && positions == []
      ensures boxvec == [[0x3f80_0000, 0, 0], [0, 0x3f80_0000, 0], [0, 0, 0x3f80_0000]]
    {
      step := 0;
      time := 0;
      boxvec := [[0x3f80_0000, 0, 0], [0, 0x3f80_0000, 0], [0, 0, 0x3f80_0000]];
      positions := [];
    }
  }

  /** `Vec::resize(n, 0.0)`: the first `n` values kept, zeros after them. */
  function Resize(s: seq<int>, n: nat): (t: seq<int>)
    ensures |t| == n
    ensures forall i :: 0 <= i < n ==> t[i] == (if i < |s| then s[i] else 0)
  {
    if n <= |s| then s[..n] else s + seq(n - |s|, _ => 0)
  }

  /** `XTCReader`: the bytes still to be read, the frames kept and the
      number of frames read. */
  class XtcReader {
    var file: seq<Byte>
    var frames: seq<Frame>
    var step: nat

    /** `XTCReader::new` */
    constructor (reader: seq<Byte>)
      ensures file == reader && frames == [] && step == 0
    {
      file := reader;
      frames := [];
      step := 0;
    }

    /** `read_frame`: reads the next frame into `frame` and counts it. It
        succeeds exactly where `ParseFrame` does; then the frame holds what
        `ParseFrame` reads, the file is left at the next frame and `step`
        goes up by one. On failure `step` and the frame's step, time and
        box are as they were; its positions are as they were, or already
        resized to `3 * natoms` when the header was read. */
    method ReadFrame(frame: Frame) returns (r: Result<()>)
      modifies this, frame
      ensures r.Ok? <==> ParseFrame(old(file)).Ok?
      ensures r.Ok? ==>
        && ParseFrame(old(file)).Ok?
        && frame.step == ParseFrame(old(file)).value.0.step
        && frame.time == ParseFrame(old(file)).value.0.time
        && frame.boxvec == ParseFrame(old(file)).value.0.boxvec
        && frame.positions == ParseFrame(old(file)).value.0.positions
        && file == ParseFrame(old(file)).value.1 && step == old(step) + 1 && frames == old(frames)
      ensures r.Err? ==>
        && ParseFrame(old(file)).Err?
        && (r.error == UnexpectedEof <==> ParseFrame(old(file)).error == UnexpectedEof)
        && step == old(step) && frames == old(frames)
        && frame.step == old(frame.step) && frame.time == old(frame.time) && frame.boxvec == old(frame.boxvec)
        && (frame.positions == old(frame.positions)
            || (ReadFrameHeader(old(file)).Ok? && |frame.positions| == 3 * ReadFrameHeader(old(file)).value.0.natoms))
    {
      var hd := ReadFrameHeader(file);
      if hd.Err? {
        return Err(hd.error);
      }
      var (h, s1) := hd.value;
      var rest := ReadPositionsInto(frame, s1, h.natoms);
      if rest.Err? {
        return Err(rest.error);
      }
      file := rest.value;
      step := step + 1;
      frame.step := h.step;
      frame.time := h.time;
      frame.boxvec := h.boxvec;
      r := Ok(());
    }
  }

  /** The positions part of `read_frame`: resizes the frame's positions to
      `3 * natoms`, then reads them as floats or decompresses them, and
      hands back the input that follows. It succeeds exactly where
      `ReadPositions` does and then holds what `ReadPositions` reads; the
      frame's other fields are not touched. */
  method ReadPositionsInto(frame: Frame, s: seq<Byte>, natoms: nat) returns (r: Result<seq<Byte>>)
    modifies frame
    ensures r.Ok? <==> ReadPositions(s, natoms).Ok?
    ensures r.Ok? ==>
      && ReadPositions(s, natoms).Ok?
      && frame.positions == ReadPositions(s, natoms).value.0 && r.value == ReadPositions(s, natoms).value.1
    ensures r.Err? ==>
      && ReadPositions(s, natoms).Err?
      && (r.error == UnexpectedEof <==> ReadPositions(s, natoms).error == UnexpectedEof)
      && |frame.positions| == 3 * natoms
    ensures frame.step == old(frame.step) && frame.time == old(frame.time) && frame.boxvec == old(frame.boxvec)
  {
    var n := 3 * natoms;
    frame.positions := Resize(frame.positions, n);
    if natoms <= 9 {
      var w := ReadF32s(s, n);
      if w.Err? {
        return Err(w.error);
      }
      frame.positions := w.value.0;
      r := Ok(w.value.1);
    } else {
      var p := ReadF32(s);
      if p.Err? {
        return Err(p.error);
      }
      var init := frame.positions;
      var positions := new int[n](i requires 0 <= i < n => init[i]);
      var c := ReadCompressedPositions(p.value.1, positions);
      frame.positions := positions[..];
      r := c;
    }
  }
}
