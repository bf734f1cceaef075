/** The two readers the compressed block of a frame is decoded from
    (src/buffer.rs). `Buffer` fills its scratch space from the file lazily,
    in blocks, as `pop` asks for bytes; `UnBuffered` reads the whole opaque
    block up front. The file is a `Source`: a fixed sequence of bytes and a
    position, whose `read` hands out up to `chunk` bytes at a time. */
module Buffers {
  import opened Bits
  import opened Errors
  import opened Xdr

  const BLOCK_SIZE: nat := 0x20000
  const MIN_BUFFERED_SIZE: nat := 2 * BLOCK_SIZE

  function Min(a: int, b: int): int
  {
    if a <= b then a else b
  }

  /** A file being read: its bytes, the position of the reader and the
      most bytes one `read` call delivers. */
  class Source {
    const bytes: seq<Byte>
    var pos: nat
    const chunk: nat

    constructor (bytes: seq<Byte>, pos: nat, chunk: nat)
      requires chunk > 0
      ensures this.bytes == bytes && this.pos == pos && this.chunk == chunk
    {
      this.bytes := bytes;
      this.pos := pos;
      this.chunk := chunk;
    }

    /** The bytes after the position; none once it is past the end. */
    function Remaining(): nat
      reads this
    {
      if pos <= |bytes| then |bytes| - pos else 0
    }

    /** `Read::read` into `dst[lo..hi]`: as many bytes as fit, the file
        still holds and one call hands out; zero only for an empty slice or
        at the end of the file. */
    method Read(dst: array<Byte>, lo: nat, hi: nat) returns (n: nat)
      requires lo <= hi <= dst.Length
      modifies this`pos, dst
      ensures n == Min(Min(hi - lo, chunk), old(Remaining()))
      ensures pos == old(pos) + n
      ensures n == 0 ==> dst[..] == old(dst[..])
      ensures n > 0 ==>
        && old(pos) + n <= |bytes|
        && dst[..] == old(dst[..lo]) + bytes[old(pos)..old(pos) + n] + old(dst[lo + n..])
    {
      n := Min(Min(hi - lo, chunk), Remaining());
      forall i | lo <= i < lo + n {
        dst[i] := bytes[pos + i - lo];
      }
      pos := pos + n;
    }

    /** The bytes after the position. */
    function Unread(): (s: seq<Byte>)
      reads this
      ensures |s| == Remaining()
    {
      if pos <= |bytes| then bytes[pos..] else []
    }

    /** `read_u32`: four bytes with `read_exact`, big-endian. */
    method ReadWord() returns (r: Result<U32>)
      modifies this
      ensures r.Ok? <==> old(Remaining()) >= 4
      ensures r.Err? ==> r.error == UnexpectedEof
      ensures r.Ok? ==> r.value == FromBeBytes(bytes[old(pos)..old(pos) + 4]) && pos == old(pos) + 4
    {
      if Remaining() < 4 {
        return Err(UnexpectedEof);
      }
      r := Ok(FromBeBytes(bytes[pos..pos + 4]));
      pos := pos + 4;
    }

    /** `seek(SeekFrom::Current(n))` forwards. */
    method Skip(n: nat)
      modifies this
      ensures pos == old(pos) + n
    {
      pos := pos + n;
    }
  }

  /** The size of the scratch space for a block of `count` bytes. */
  function ScratchSize(count: nat): (size: nat)
    ensures size % 4 == 0 && count <= size < count + 4
  {
    count + Padding(count)
  }

  /** A block of `count` bytes starts at `start` in `bytes` and lies whole
      within them. */
  predicate BlockFits(bytes: seq<Byte>, start: nat, count: nat)
  {
    start + ScratchSize(count) <= |bytes|
  }

  /** How far `read_to_include` gets after at most `steps` reads, as the
      loop at src/buffer.rs:82-89 runs: each turn asks for the bytes up to
      `min(size, index + BLOCK_SIZE)` and gets at most `chunk`, or fewer at
      the end of the file (`left` bytes remain there). */
  ghost function LoadSteps(size: nat, index: nat, front: nat, chunk: nat, left: nat, steps: nat): (f: nat)
    ensures f >= front
    decreases steps
  {
    if steps == 0 || index < front then front
    else
      var n := Min(Min(Min(size, index + BLOCK_SIZE) - front, chunk), left);
      var n := if n < 0 then 0 else n;
      LoadSteps(size, index, front + n, chunk, left - n, steps - 1)
  }

  /** One turn of the loop, while `index` is not yet below `front`. */
  lemma LoadStepsNext(size: nat, index: nat, front: nat, chunk: nat, left: nat, steps: nat, n: nat)
    requires front <= index && steps > 0
    requires n == Min(Min(Min(size, index + BLOCK_SIZE) - front, chunk), left)
    ensures LoadSteps(size, index, front, chunk, left, steps) == LoadSteps(size, index, front + n, chunk, left - n, steps - 1)
  {
  }

  /** A read size of at least the scratch space, from an empty scratch
      space of no more than `index + BLOCK_SIZE` bytes over a file that
      holds them all, loads the whole scratch space in one read. */
  lemma WholeLoad(size: nat, index: nat, chunk: nat, left: nat, steps: nat)
    requires index < size <= index + BLOCK_SIZE && size <= chunk && size <= left && steps > 0
    ensures LoadSteps(size, index, 0, chunk, left, steps) == size
  {
    LoadStepsNext(size, index, 0, chunk, left, steps, size);
  }

  /** `Vec::resize(size, 0xff)` of the caller's scratch `previous`: its
      first bytes are kept and `0xff` fills the rest. */
  function Refill(previous: seq<Byte>, size: nat): (s: seq<Byte>)
    ensures |s| == size
    ensures forall i :: 0 <= i < size ==> s[i] == if i < |previous| then previous[i] else 0xff
  {
    if size <= |previous| then previous[..size] else previous + seq(size - |previous|, _ => 0xff)
  }

  /** For a block of zero bytes `Buffer::new` calls `read_to_include(0)`
      on empty scratch space: every read is of an empty slice, so however
      many turns the loop takes its condition `index >= front` still
      holds, and the loop never ends. */
  lemma EmptyBlockNeverLoads(chunk: nat, left: nat, steps: nat)
    ensures ScratchSize(0) == 0
    ensures LoadSteps(ScratchSize(0), 0, 0, chunk, left, steps) == 0
  {
    NoRoomNoLoad(0, 0, 0, chunk, left, steps);
  }

  /** When nothing is left to ask for below `index`, the loop stays where
      it is. */
  lemma {:induction false} NoRoomNoLoad(size: nat, index: nat, front: nat, chunk: nat, left: nat, steps: nat)
    requires Min(size, index + BLOCK_SIZE) <= front <= index
    ensures LoadSteps(size, index, front, chunk, left, steps) == front
  {
    if steps > 0 {
      NoRoomNoLoad(size, index, front, chunk, left, steps - 1);
    }
  }

  /** `Buffer`: scratch space for one block, filled up to `front` with the
      bytes of the file from `origin` on, and read up to `head`. */
  class Buffer {
    const scratch: array<Byte>
    var front: nat
    var head: nat
    const reader: Source
    /** Where in the file the block's bytes begin, after its count. */
    ghost const origin: nat

    ghost predicate Valid()
      reads this, scratch, reader
    {
      && head <= front <= scratch.Length
      && reader.chunk > 0
      && reader.pos == origin + front
      && origin + front <= |reader.bytes|
      && scratch[..front] == reader.bytes[origin..origin + front]
    }

    /** `size()` */
    function Size(): nat
      reads this
    {
      scratch.Length
    }

    /** `left()`: the bytes of the block not yet loaded from the file. */
    function Left(): nat
      reads this
      requires front <= scratch.Length
    {
      Size() - front
    }

    constructor Make(scratch: array<Byte>, reader: Source)
      requires reader.pos <= |reader.bytes| && reader.chunk > 0
      ensures this.scratch == scratch && this.reader == reader
      ensures front == 0 && head == 0 && origin == reader.pos
      ensures Valid()
    {
      this.scratch := scratch;
      this.reader := reader;
      front := 0;
      head := 0;
      origin := reader.pos;
    }

    /** `Buffer::new`: the count, the caller's scratch `previous` resized
        to `count + padding(count)` bytes (new bytes `0xff`), and for a
        block of at most `MIN_BUFFERED_SIZE` bytes `read_to_include(count -
        1)`, whose loads must fill the scratch space exactly (else the
        `assert_eq!` panics). A block of zero bytes is not loaded (see
        `EmptyBlockNeverLoads`). */
    static method New(reader: Source, previous: seq<Byte>) returns (r: Result<Buffer>)
      requires reader.chunk > 0
      requires reader.Remaining() >= 4 && ScratchSize(FromBeBytes(reader.bytes[reader.pos..reader.pos + 4])) <= MIN_BUFFERED_SIZE ==>
        reader.pos + 4 + FromBeBytes(reader.bytes[reader.pos..reader.pos + 4]) <= |reader.bytes|
      modifies reader
      ensures r.Err? && r.error == UnexpectedEof <==> old(reader.Remaining()) < 4
      ensures r.Ok? <==>
        && old(reader.Remaining()) >= 4
        && var count := FromBeBytes(reader.bytes[old(reader.pos)..old(reader.pos) + 4]);
        || count == 0 || ScratchSize(count) > MIN_BUFFERED_SIZE
        || LoadSteps(ScratchSize(count), count - 1, 0, reader.chunk, old(reader.Remaining()) - 4, count)
           == ScratchSize(count)
      ensures old(reader.Remaining()) >= 4 ==>
        var count := FromBeBytes(reader.bytes[old(reader.pos)..old(reader.pos) + 4]);
        reader.chunk >= ScratchSize(count) && BlockFits(reader.bytes, old(reader.pos) + 4, count) ==> r.Ok?
      ensures r.Ok? ==> fresh(r.value) && fresh(r.value.scratch)
      ensures r.Ok? ==>
        var b := r.value;
        var count := FromBeBytes(reader.bytes[old(reader.pos)..old(reader.pos) + 4]);
        && b.Valid() && b.reader == reader && b.head == 0
        && b.origin == old(reader.pos) + 4
        && b.Size() == ScratchSize(count)
        && (b.Size() <= MIN_BUFFERED_SIZE ==> b.front == b.Size())
        && (b.Size() > MIN_BUFFERED_SIZE ==> b.front == 0)
        && forall i :: b.front <= i < b.Size() ==> b.scratch[i] == Refill(previous, b.Size())[i]
    {
      var c :- reader.ReadWord();
      assert c == FromBeBytes(reader.bytes[old(reader.pos)..old(reader.pos) + 4]);
      assert reader.pos == old(reader.pos) + 4 && reader.Remaining() == old(reader.Remaining()) - 4;
      r := Open(reader, c, previous);
    }

    /** The part of `Buffer::new` after the count: the scratch space, and
        the loads of a small block. */
    static method Open(reader: Source, count: nat, previous: seq<Byte>) returns (r: Result<Buffer>)
      requires reader.pos <= |reader.bytes| && reader.chunk > 0
      requires ScratchSize(count) <= MIN_BUFFERED_SIZE ==> reader.pos + count <= |reader.bytes|
      modifies reader
      ensures r.Ok? <==>
        || count == 0 || ScratchSize(count) > MIN_BUFFERED_SIZE
        || LoadSteps(ScratchSize(count), count - 1, 0, reader.chunk, old(reader.Remaining()), count)
           == ScratchSize(count)
      ensures reader.chunk >= ScratchSize(count) && BlockFits(reader.bytes, old(reader.pos), count) ==> r.Ok?
      ensures r.Err? ==> r.error.Panic?
      ensures r.Ok? ==> fresh(r.value) && fresh(r.value.scratch)
      ensures r.Ok? ==>
        var b := r.value;
        && b.Valid() && b.reader == reader && b.head == 0
        && b.origin == old(reader.pos)
        && b.Size() == ScratchSize(count)
        && (b.Size() <= MIN_BUFFERED_SIZE ==> b.front == b.Size())
        && (b.Size() > MIN_BUFFERED_SIZE ==> b.front == 0)
        && forall i :: b.front <= i < b.Size() ==> b.scratch[i] == Refill(previous, b.Size())[i]
    {
      var scratch := new Byte[ScratchSize(count)](i => if 0 <= i < |previous| then previous[i] else 0xff);
      var buffer := new Buffer.Make(scratch, reader);
      if scratch.Length <= MIN_BUFFERED_SIZE && count > 0 {
        var filled := buffer.LoadSmall(count);
        if !filled {
          return Err(Panic("assertion `left == right` failed"));
        }
      }
      r := Ok(buffer);
    }

    /** The loads `Buffer::new` makes for a block of at most
        `MIN_BUFFERED_SIZE` bytes: `read_to_include(count - 1)`, then the
        check that they filled the scratch space. */
    method LoadSmall(count: nat) returns (filled: bool)
      requires Valid() && front == 0 && head == 0
      requires 0 < count && Size() == ScratchSize(count) <= MIN_BUFFERED_SIZE && count <= reader.Remaining()
      modifies this, scratch, reader
      ensures Valid() && head == 0
      ensures filled <==> LoadSteps(Size(), count - 1, 0, reader.chunk, old(reader.Remaining()), count) == Size()
      ensures filled ==> front == Size()
      ensures reader.chunk >= Size() && Size() <= old(reader.Remaining()) ==> filled
    {
      if reader.chunk >= Size() && Size() <= reader.Remaining() {
        WholeLoad(Size(), count - 1, reader.chunk, reader.Remaining(), count);
      }
      ReadToInclude(count - 1);
      filled := Size() == front;
    }

    /** `read_to_include(index)`: loads blocks of the file until `index`
        is below `front`. The file must hold the bytes up to `index`: at
        its end a read delivers nothing and the loop would not end. */
    method ReadToInclude(index: nat)
      requires Valid()
      requires index < Size() && index < front + reader.Remaining()
      modifies this, scratch, reader
      ensures Valid() && index < front && front <= Size()
      ensures front >= old(front) && head == old(head)
      ensures front == LoadSteps(Size(), index, old(front), reader.chunk, old(reader.Remaining()), index + 1)
    {
      ghost var t: nat := 0;
      while index >= front
        invariant Loading(index, old(front), old(reader.Remaining()), old(head), t)
        decreases index + 1 - front
      {
        LoadTowards(index, old(front), old(reader.Remaining()), old(head), t);
        t := t + 1;
      }
    }

    /** The state of `read_to_include(index)` after `t` turns from a
        `front` of `f0`, `left0` bytes before the end of the file and a
        `head` of `h0`: `t` reads that each moved `front`, and `LoadSteps`
        from here ends where it would have ended from the start. */
    ghost predicate Loading(index: nat, f0: nat, left0: nat, h0: nat, t: nat)
      reads this, scratch, reader
    {
      && Valid() && head == h0 && front >= f0 + t && t <= index + 1
      && LoadSteps(Size(), index, f0, reader.chunk, left0, index + 1)
         == LoadSteps(Size(), index, front, reader.chunk, reader.Remaining(), index + 1 - t)
      && index < front + reader.Remaining()
    }

    /** One turn of `read_to_include(index)`: a read of the bytes up to
        `min(size, index + BLOCK_SIZE)`, which is `LoadSteps` one step on. */
    method LoadTowards(index: nat, ghost f0: nat, ghost left0: nat, ghost h0: nat, ghost t: nat)
      requires Loading(index, f0, left0, h0, t) && front <= index < Size()
      modifies this`front, scratch, reader`pos
      ensures Loading(index, f0, left0, h0, t + 1) && front > old(front)
    {
      var until := Min(Size(), index + BLOCK_SIZE);
      ghost var f, left := front, reader.Remaining();
      var n := Load(until);
      LoadStepsNext(Size(), index, f, reader.chunk, left, index + 1 - t, n);
    }

    /** One read of `read_to_include`: the reader fills the scratch space
        from `front` towards `until` with as many bytes as one read
        delivers, and `front` moves past them. */
    method Load(until: nat) returns (n: nat)
      requires Valid() && front <= until <= Size()
      modifies this`front, scratch, reader`pos
      ensures Valid() && head == old(head)
      ensures n == Min(Min(until - old(front), reader.chunk), old(reader.Remaining()))
      ensures front == old(front) + n && reader.Remaining() == old(reader.Remaining()) - n
    {
      ghost var pre := scratch[..];
      n := reader.Read(scratch, front, until);
      PrefixGrows(pre, scratch[..], front, n, reader.bytes, origin);
      front := front + n;
    }

    /** `pop`: the next byte of the block, loading more of the file when
        `head` has reached `front`. It is the block's byte at `head`, that
        is, the file's byte at `origin + head`. */
    method Pop() returns (b: Byte)
      requires Valid()
      requires head < Size() && origin + head < |reader.bytes|
      modifies this, scratch, reader
      ensures Valid()
      ensures head == old(head) + 1 && front >= old(front)
      ensures b == scratch[old(head)] == reader.bytes[origin + old(head)]
    {
      var h := head;
      if h >= front {
        ReadToInclude(h);
      }
      head := head + 1;
      assert scratch[..front][h] == scratch[h];
      b := scratch[h];
    }

    /** `tell` */
    function Tell(): nat
      reads this
    {
      head
    }

    /** `finish`: skips the part of the block not loaded, which leaves the
        file at the end of the block. */
    method Finish()
      requires Valid()
      modifies reader
      ensures reader.pos == origin + Size()
    {
      reader.Skip(Left());
    }
  }

  /** `UnBuffered`: the whole opaque block, read up front. */
  class UnBuffered {
    var head: nat
    const scratch: seq<Byte>

    constructor Make(scratch: seq<Byte>)
      ensures this.scratch == scratch && head == 0
    {
      this.scratch := scratch;
      head := 0;
    }

    /** `UnBuffered::new`: `read_opaque`, the count and then the block with
        its padding, all consumed from the file. */
    static method New(reader: Source) returns (r: Result<UnBuffered>)
      modifies reader
      ensures r.Ok? <==> ReadOpaque(old(reader.Unread())).Ok?
      ensures r.Err? ==> r.error == UnexpectedEof
      ensures r.Ok? ==>
        var (data, rest) := ReadOpaque(old(reader.Unread())).value;
        && fresh(r.value) && r.value.head == 0 && r.value.scratch == data
        && reader.pos == old(reader.pos) + 4 + |data|
        && reader.bytes[reader.pos..] == rest
    {
      var s := reader.Unread();
      var o :- ReadOpaque(s);
      var (data, rest) := o;
      assert s == s[..4] + data + rest;
      reader.Skip(4 + |data|);
      var u := new UnBuffered.Make(data);
      r := Ok(u);
    }

    /** `pop`: the byte at `head`, which must lie within the block. */
    method Pop() returns (b: Byte)
      requires head < |scratch|
      modifies this
      ensures b == scratch[old(head)] && head == old(head) + 1
    {
      var h := head;
      head := head + 1;
      b := scratch[h];
    }

    /** `tell` */
    function Tell(): nat
      reads this
    {
      head
    }

    /** `finish`: the block was read whole already; nothing changes. */
    method Finish()
      ensures unchanged(this)
    {
    }
  }

  /** Both readers hand out the same bytes: the block that follows the
      count in the file. What `UnBuffered` holds is the block a `Buffer`
      over the same file loads byte by byte. */
  lemma SameBlock(bytes: seq<Byte>, pos: nat)
    requires pos + 4 <= |bytes| && BlockFits(bytes, pos + 4, FromBeBytes(bytes[pos..pos + 4]))
    ensures ReadOpaque(bytes[pos..]).Ok?
    ensures ReadOpaque(bytes[pos..]).value.0
         == bytes[pos + 4..pos + 4 + ScratchSize(FromBeBytes(bytes[pos..pos + 4]))]
  {
    var s := bytes[pos..];
    assert s[..4] == bytes[pos..pos + 4];
    var (data, rest) := ReadOpaque(s).value;
    assert s == s[..4] + data + rest;
    assert data == s[4..4 + |data|];
  }

  /** Copying `n` more bytes of the file behind a prefix that already
      matches it gives a longer matching prefix. */
  lemma PrefixGrows(a: seq<Byte>, b: seq<Byte>, front: nat, n: nat, file: seq<Byte>, origin: nat)
    requires front + n <= |a| == |b| && origin + front <= |file|
    requires a[..front] == file[origin..origin + front]
    requires n == 0 ==> b == a
    requires n > 0 ==> origin + front + n <= |file| && b == a[..front] + file[origin + front..origin + front + n] + a[front + n..]
    ensures origin + front + n <= |file|
    ensures b[..front + n] == file[origin..origin + front + n]
  {
    if n > 0 {
      assert b[..front + n] == a[..front] + file[origin + front..origin + front + n];
    }
  }
}
