/** The XDR primitives the XTC format is built from (RFC 4506): 4-byte
    big-endian integers (sections 4.1 and 4.2), 4-byte floats kept here as
    opaque words (section 4.6), and variable-length opaque data padded to a
    multiple of four bytes (section 4.10). A reader (`std::io::Read`) is
    modelled by the sequence of bytes it has still to deliver; a read takes
    bytes from its front and fails with `UnexpectedEof` when too few are left. */
module Xdr {
  import opened Bits
  import opened Errors

  /** A 3x3 box matrix given by its columns; the entries are f32 words. */
  type Mat3 = m: seq<seq<U32>> | |m| == 3 && forall i :: 0 <= i < |m| ==> |m[i]| == 3
    witness [[0, 0, 0], [0, 0, 0], [0, 0, 0]]

  /** `u32::from_be_bytes` */
  function FromBeBytes(b: seq<Byte>): U32
    requires |b| == 4
  {
    var b0: int, b1: int, b2: int, b3: int := b[0], b[1], b[2], b[3];
    ((b0 * 0x100 + b1) * 0x100 + b2) * 0x100 + b3
  }

  /** `u32::to_be_bytes`, the most significant byte first. */
  function ToBeBytes(v: U32): (b: seq<Byte>)
    ensures |b| == 4
    ensures (b[0] as int) * 0x100_0000 <= v < (b[0] as int + 1) * 0x100_0000
    ensures b[3] == v % 0x100
  {
    [v / 0x100_0000, (v / 0x1_0000) % 0x100, (v / 0x100) % 0x100, v % 0x100]
  }

  lemma FromToBeBytes(v: U32)
    ensures FromBeBytes(ToBeBytes(v)) == v
  {
    var q1, q2 := v / 0x100, v / 0x1_0000;
    DivDiv(v, 0x100, 0x100);
    DivDiv(v, 0x1_0000, 0x100);
    assert v == q1 * 0x100 + v % 0x100;
    assert q1 == q2 * 0x100 + q1 % 0x100;
    assert q2 == (v / 0x100_0000) * 0x100 + q2 % 0x100;
  }

  lemma ToFromBeBytes(b: seq<Byte>)
    requires |b| == 4
    ensures ToBeBytes(FromBeBytes(b)) == b
  {
    var v := FromBeBytes(b);
    var b0: int, b1: int, b2: int, b3: int := b[0], b[1], b[2], b[3];
    DivModUnique(v, 0x100, (b0 * 0x100 + b1) * 0x100 + b2, b3);
    DivModUnique(v / 0x100, 0x100, b0 * 0x100 + b1, b2);
    DivModUnique(v / 0x100 / 0x100, 0x100, b[0], b[1]);
    DivDiv(v, 0x100, 0x100);
    DivDiv(v, 0x1_0000, 0x100);
  }

  /** `as i32` on a 32-bit word: its two's-complement reading. */
  function AsI32(v: U32): (i: int)
    ensures -0x8000_0000 <= i < 0x8000_0000
    ensures i % U32_LIMIT == v
  {
    if v < 0x8000_0000 then v else v - U32_LIMIT
  }

  /** The 32-bit word of an `i32` (the inverse of `AsI32`). */
  function I32Word(i: int): (v: U32)
    requires -0x8000_0000 <= i < 0x8000_0000
    ensures AsI32(v) == i
  {
    i % U32_LIMIT
  }

  /** `read_u32`: four bytes, big-endian (section 4.2 of RFC 4506). */
  function ReadU32(s: seq<Byte>): (r: Result<(U32, seq<Byte>)>)
    ensures r.Ok? <==> |s| >= 4
    ensures r.Ok? ==> s == ToBeBytes(r.value.0) + r.value.1
  {
    if |s| < 4 then Err(UnexpectedEof)
    else
      ToFromBeBytes(s[..4]);
      assert s == s[..4] + s[4..];
      Ok((FromBeBytes(s[..4]), s[4..]))
  }

  /** `read_i32`: four bytes, big-endian two's complement (section 4.1 of RFC 4506). */
  function ReadI32(s: seq<Byte>): (r: Result<(int, seq<Byte>)>)
    ensures r.Ok? <==> |s| >= 4
    ensures r.Ok? ==> -0x8000_0000 <= r.value.0 < 0x8000_0000
    ensures r.Ok? ==> s == ToBeBytes(I32Word(r.value.0)) + r.value.1
  {
    var (w, rest) :- ReadU32(s);
    Ok((AsI32(w), rest))
  }

  /** `read_f32`: a 4-byte float, kept as its bit pattern. */
  function ReadF32(s: seq<Byte>): (r: Result<(U32, seq<Byte>)>)
    ensures r.Ok? <==> |s| >= 4
    ensures r.Ok? ==> s == ToBeBytes(r.value.0) + r.value.1
  {
    ReadU32(s)
  }

  /** The bytes of a sequence of words, each big-endian. */
  function WordsToBytes(ws: seq<U32>): (b: seq<Byte>)
    ensures |b| == 4 * |ws|
  {
    if ws == [] then [] else ToBeBytes(ws[0]) + WordsToBytes(ws[1..])
  }

  /** `read_f32s(file, n)`: `n` floats read with one `read_exact`. */
  function {:induction false} ReadF32s(s: seq<Byte>, n: nat): (r: Result<(seq<U32>, seq<Byte>)>)
    ensures r.Ok? <==> |s| >= 4 * n
    ensures r.Ok? ==> |r.value.0| == n && s == WordsToBytes(r.value.0) + r.value.1
  {
    if |s| < 4 * n then Err(UnexpectedEof)
    else if n == 0 then Ok(([], s))
    else
      var (w, rest) := ReadF32(s).value;
      var (ws, rest') := ReadF32s(rest, n - 1).value;
      assert WordsToBytes([w] + ws) == ToBeBytes(w) + WordsToBytes(ws) by {
        assert ([w] + ws)[1..] == ws;
      }
      Ok(([w] + ws, rest'))
  }

  /** The number of zero bytes that pad `n` bytes of opaque data to a
      multiple of four (the expression `(4 - (count % 4)) % 4`). */
  function Padding(n: nat): (p: nat)
    ensures p < 4 && (n + p) % 4 == 0
  {
    (4 - (n % 4)) % 4
  }

  /** `n + Padding(n)` is the least multiple of four at or above `n`
      (section 4.10 of RFC 4506). */
  lemma PaddingLeast(n: nat, m: nat)
    requires n <= m && m % 4 == 0
    ensures n + Padding(n) <= m
  {
  }

  /** `read_opaque`: a count, then `count + Padding(count)` bytes. The data
      handed back holds the padding bytes too, as the resized `Vec` does. */
  function ReadOpaque(s: seq<Byte>): (r: Result<(seq<Byte>, seq<Byte>)>)
    ensures r.Ok? <==> |s| >= 4 && |s| - 4 >= FromBeBytes(s[..4]) + Padding(FromBeBytes(s[..4]))
    ensures r.Ok? ==> |r.value.0| == FromBeBytes(s[..4]) + Padding(FromBeBytes(s[..4]))
    ensures r.Ok? ==> |r.value.0| % 4 == 0 && s == s[..4] + r.value.0 + r.value.1
  {
    var (count, rest) :- ReadU32(s);
    assert s[4..] == rest && s[..4] == ToBeBytes(count);
    FromToBeBytes(count);
    var size := count + Padding(count);
    if |rest| < size then Err(UnexpectedEof)
    else
      assert s == s[..4] + rest[..size] + rest[size..];
      Ok((rest[..size], rest[size..]))
  }

  function Zeros(n: nat): (z: seq<Byte>)
    ensures |z| == n && forall i :: 0 <= i < n ==> z[i] == 0
  {
    seq(n, _ => 0)
  }

  /** Writing opaque data: its count, the bytes, the zero padding. */
  function OpaqueBytes(data: seq<Byte>): (b: seq<Byte>)
    requires |data| < U32_LIMIT
    ensures |b| == 4 + (|data| + Padding(|data|))
  {
    ToBeBytes(|data|) + data + Zeros(Padding(|data|))
  }

  /** Reading back what was written gives the data and its padding, and
      leaves the rest of the stream untouched. */
  lemma ReadOpaqueOfWritten(data: seq<Byte>, rest: seq<Byte>)
    requires |data| < U32_LIMIT
    ensures ReadOpaque(OpaqueBytes(data) + rest) == Ok((data + Zeros(Padding(|data|)), rest))
  {
    var s := OpaqueBytes(data) + rest;
    assert s[..4] == ToBeBytes(|data|);
    assert s[4..] == data + Zeros(Padding(|data|)) + rest;
    FromToBeBytes(|data|);
  }

  /** The columns of the box from its nine words: column `i` holds words
      `i`, `i + 3` and `i + 6` (`BoxVec::from_cols_array_2d`). */
  function BoxCols(boxvec: seq<U32>): (cols: Mat3)
    requires |boxvec| == 9
  {
    [[boxvec[0], boxvec[3], boxvec[6]],
     [boxvec[1], boxvec[4], boxvec[7]],
     [boxvec[2], boxvec[5], boxvec[8]]]
  }

  /** The nine words of a box in file order, the inverse of `BoxCols`. */
  function BoxWords(cols: Mat3): (boxvec: seq<U32>)
    ensures |boxvec| == 9
  {
    [cols[0][0], cols[1][0], cols[2][0],
     cols[0][1], cols[1][1], cols[2][1],
     cols[0][2], cols[1][2], cols[2][2]]
  }

  /** `read_boxvec`: nine floats, read as the columns' transpose. */
  function ReadBoxvec(s: seq<Byte>): (r: Result<(Mat3, seq<Byte>)>)
    ensures r.Ok? <==> |s| >= 36
    ensures r.Ok? ==> forall i, j :: 0 <= i < 3 && 0 <= j < 3 ==>
      ToBeBytes(r.value.0[i][j]) == s[4 * (3 * j + i)..4 * (3 * j + i) + 4]
    ensures r.Ok? ==> r.value.1 == s[36..]
  {
    var (boxvec, rest) :- ReadF32s(s, 9);
    forall k | 0 <= k < 9
      ensures ToBeBytes(boxvec[k]) == s[4 * k..4 * k + 4]
    {
      WordsAt(boxvec, k);
    }
    Ok((BoxCols(boxvec), rest))
  }

  lemma {:induction false} WordsAt(ws: seq<U32>, k: nat)
    requires k < |ws|
    ensures WordsToBytes(ws)[4 * k..4 * k + 4] == ToBeBytes(ws[k])
  {
    if k > 0 {
      WordsAt(ws[1..], k - 1);
      assert WordsToBytes(ws) == ToBeBytes(ws[0]) + WordsToBytes(ws[1..]);
    }
  }

  lemma BoxRoundTrip(boxvec: seq<U32>, cols: Mat3)
    requires |boxvec| == 9
    ensures BoxWords(BoxCols(boxvec)) == boxvec
    ensures BoxCols(BoxWords(cols)) == cols
  {
    var c := BoxCols(BoxWords(cols));
    assert c[0] == cols[0] && c[1] == cols[1] && c[2] == cols[2];
  }
  /** Reading back a written word gives the word and the rest. */
  lemma ReadU32OfWritten(v: U32, rest: seq<Byte>)
    ensures ReadU32(ToBeBytes(v) + rest) == Ok((v, rest))
  {
    var s := ToBeBytes(v) + rest;
    assert s[..4] == ToBeBytes(v) && s[4..] == rest;
    FromToBeBytes(v);
  }

  lemma ReadI32OfWritten(i: int, rest: seq<Byte>)
    requires -0x8000_0000 <= i < 0x8000_0000
    ensures ReadI32(ToBeBytes(I32Word(i)) + rest) == Ok((i, rest))
  {
    ReadU32OfWritten(I32Word(i), rest);
  }

  lemma {:induction false} ReadF32sOfWritten(ws: seq<U32>, rest: seq<Byte>)
    ensures ReadF32s(WordsToBytes(ws) + rest, |ws|) == Ok((ws, rest))
  {
    if ws == [] {
      assert WordsToBytes(ws) + rest == rest;
    } else {
      var s := WordsToBytes(ws) + rest;
      assert s == ToBeBytes(ws[0]) + (WordsToBytes(ws[1..]) + rest);
      ReadU32OfWritten(ws[0], WordsToBytes(ws[1..]) + rest);
      ReadF32sOfWritten(ws[1..], rest);
      assert [ws[0]] + ws[1..] == ws;
    }
  }

  /** Writing a box in file order and reading it back gives the box. */
  lemma ReadBoxvecOfWritten(cols: Mat3, rest: seq<Byte>)
    ensures ReadBoxvec(WordsToBytes(BoxWords(cols)) + rest) == Ok((cols, rest))
  {
    ReadF32sOfWritten(BoxWords(cols), rest);
    BoxRoundTrip(BoxWords(cols), cols);
  }
}
