/** The loop of `read_compressed_positions` in src/reader.rs, first as a
    specification (what one step decodes and where it leaves the cursor,
    the small size and the run), then as the methods that follow the
    source, each proved to agree with it. Positions are written into an
    `array<int>` of `n` integers, three per atom, before any scaling. */
module Positions {
  import opened Bits
  import opened Errors
  import opened Xdr
  import opened BitStream
  import opened Sizes
  import opened Unpack
  import opened DecodeInts
  import opened Coords

  // ---------------------------------------------------------------------
  // Sequences of atoms

  /** The coordinates of a sequence of atoms, one after the other. */
  function Flatten(atoms: seq<Coord>): seq<int>
  {
    if atoms == [] then [] else Flatten(atoms[..|atoms| - 1]) + Triple(atoms[|atoms| - 1])
  }

  /** The three integers of one atom, in the order of `positions`. */
  function Triple(c: Coord): seq<int>
  {
    [c.x, c.y, c.z]
  }

  lemma FlattenSnoc(atoms: seq<Coord>, c: Coord)
    ensures Flatten(atoms + [c]) == Flatten(atoms) + Triple(c)
  {
    assert (atoms + [c])[..|atoms|] == atoms;
  }

  lemma {:induction false} FlattenAppend(xs: seq<Coord>, ys: seq<Coord>)
    ensures Flatten(xs + ys) == Flatten(xs) + Flatten(ys)
    decreases |ys|
  {
    if ys != [] {
      var init := ys[..|ys| - 1];
      assert xs + ys == (xs + init) + [ys[|ys| - 1]];
      FlattenSnoc(xs + init, ys[|ys| - 1]);
      FlattenAppend(xs, init);
      FlattenSnoc(init, ys[|ys| - 1]);
      assert ys == init + [ys[|ys| - 1]];
    } else {
      assert xs + ys == xs;
    }
  }

  /** `k` atoms flatten to `3 * k` integers. */
  lemma {:induction false} FlattenLength(atoms: seq<Coord>)
    ensures |Flatten(atoms)| == 3 * |atoms|
    decreases |atoms|
  {
    if atoms != [] {
      FlattenLength(atoms[..|atoms| - 1]);
    }
  }

  /** One small atom more at the end of a run is one atom more at the end
      of what the step writes. */
  lemma StepOrderSnoc(large: Coord, atoms: seq<Coord>, c: Coord)
    requires atoms != []
    ensures StepOrder(large, atoms + [c]) == StepOrder(large, atoms) + [c]
  {
    assert (atoms + [c])[1..] == atoms[1..] + [c];
  }

  // ---------------------------------------------------------------------
  // One step of the loop

  /** The loop's state between steps: the bit position of the cursor, the
      small size, the run length (kept while the flag bit is clear) and
      `write_idx` (equal to `read_idx` at the head of the loop). */
  datatype Tally = Tally(p: nat, small: Small, run: nat, w: nat)

  predicate TallyValid(t: Tally)
  {
    SmallValid(t.small) && t.run % 3 == 0 && t.run <= 30
  }

  /** The large atom can be read at bit `p`: each separate width is below
      32 (a wider `decodebits` overflows its mask) and its bits are there. */
  predicate LargeReadable(buf: seq<Byte>, p: nat, h: Layout)
    requires |h.widths.bitsizeint| == 3
  {
    && (h.widths.bitsize == 0 ==>
          h.widths.bitsizeint[0] < 32 && h.widths.bitsizeint[1] < 32 && h.widths.bitsizeint[2] < 32)
    && p + LargeBits(h.widths) <= 8 * |buf|
  }

  /** The flag bit after the large atom and, when it is set, the 5-bit run
      code: the run, the change of size and the position after them. A
      clear flag keeps the previous run and the size. */
  function RunHeader(buf: seq<Byte>, p: nat, run: nat): (r: Option<(nat, int, nat)>)
    requires run % 3 == 0 && run <= 30
    ensures r.Some? <==> p + 1 <= 8 * |buf| && (StreamValue(buf, p, 1) > 0 ==> p + 6 <= 8 * |buf|)
    ensures r.Some? ==> r.value.0 % 3 == 0 && r.value.0 <= 30 && -1 <= r.value.1 <= 1
    ensures r.Some? && StreamValue(buf, p, 1) == 0 ==> r.value == (run, 0, p + 1)
    ensures r.Some? && StreamValue(buf, p, 1) > 0 ==>
      r.value.0 + r.value.1 + 1 == StreamValue(buf, p + 1, 5) && r.value.2 == p + 6
  {
    if p + 1 > 8 * |buf| then None
    else if StreamValue(buf, p, 1) == 0 then Some((run, 0, p + 1))
    else if p + 6 > 8 * |buf| then None
    else
      StreamValueBound(buf, p + 1, 5);
      Pow2Values();
      var (run', isSmaller) := RunCode(StreamValue(buf, p + 1, 5));
      Some((run', isSmaller, p + 6))
  }

  /** The number of small atoms a run of `run` coordinates decodes when it
      starts after the large atom at `w`: the run loop stops early once the
      next atom would be past the last of `natoms`. */
  function RunCount(run: nat, w: nat, natoms: nat): (c: nat)
    ensures w + 1 < natoms ==> c <= run / 3 && w + 1 + c <= natoms
    ensures w + 1 < natoms && w + 1 + run / 3 <= natoms ==> c == run / 3
    ensures w + 1 < natoms && w + 1 + run / 3 > natoms ==> w + 1 + c == natoms
  {
    if w + 1 < natoms then Min(run / 3, natoms - w - 1) else 0
  }

  /** The run decodes: its size is not zero (else `decodeints` divides by
      zero), the large atom is not the last one (else the `unwrap` of the
      slot after it panics) and the bits of its atoms are there. */
  predicate RunFits(buf: seq<Byte>, p: nat, s: Small, run: nat, w: nat, natoms: nat)
  {
    && s.size > 0
    && w + 1 < natoms
    && p + Span(RunCount(run, w, natoms), s.idx) <= 8 * |buf|
  }

  /** The atoms one step writes and the position after them. */
  function StepAtoms(buf: seq<Byte>, p: nat, s: Small, large: Coord, run: nat, w: nat, natoms: nat)
    : (r: Option<(seq<Coord>, nat)>)
    ensures r.Some? <==> run == 0 || RunFits(buf, p, s, run, w, natoms)
    ensures r.Some? ==> 1 <= |r.value.0| && p <= r.value.1
    ensures r.Some? && w < natoms ==> w + |r.value.0| <= natoms
  {
    if run == 0 then Some(([large], p))
    else if !RunFits(buf, p, s, run, w, natoms) then None
    else
      var count := RunCount(run, w, natoms);
      var atoms := RunAtoms(buf, p, s, large, count);
      Some((StepOrder(large, atoms), p + Span(count, s.idx)))
  }

  /** What a successful step leaves: at least one atom more, none past
      `natoms`, a valid small size that the run loop can use, and the
      cursor no further back than `p`. */
  predicate Advances(p: nat, w: nat, natoms: nat, atoms: seq<Coord>, t': Tally)
  {
    && 1 <= |atoms| && t'.w == w + |atoms| <= natoms
    && TallyValid(t') && SmallSize(t'.small) && p <= t'.p
  }

  /** One turn of the loop: the large atom, then the rest of the step.
      `None` where the source panics. */
  function Step(buf: seq<Byte>, h: Layout, t: Tally, natoms: nat): (r: Option<(seq<Coord>, Tally)>)
    requires LayoutValid(h) && TallyValid(t) && t.w < natoms
    ensures r.Some? ==> Advances(t.p, t.w, natoms, r.value.0, r.value.1)
  {
    if !LargeReadable(buf, t.p, h) then None
    else StepFlag(buf, t.small, t.run, t.w, natoms, LargeAtom(buf, t.p, h), t.p + LargeBits(h.widths))
  }

  /** The flag bit and run code after the large atom at bit `p`. */
  function StepFlag(buf: seq<Byte>, small: Small, run: nat, w: nat, natoms: nat, large: Coord, p: nat)
    : (r: Option<(seq<Coord>, Tally)>)
    requires SmallValid(small) && run % 3 == 0 && run <= 30 && w < natoms
    ensures r.Some? ==> Advances(p, w, natoms, r.value.0, r.value.1)
  {
    match RunHeader(buf, p, run)
    case None => None
    case Some((run', isSmaller, p1)) => StepRun(buf, small, run', isSmaller, w, natoms, large, p1)
  }

  /** The check that the run fits in `positions`, the run (or the large
      atom alone) and the change of the small size. */
  function StepRun(buf: seq<Byte>, small: Small, run: nat, isSmaller: int, w: nat, natoms: nat, large: Coord, p: nat)
    : (r: Option<(seq<Coord>, Tally)>)
    requires SmallValid(small) && run % 3 == 0 && run <= 30 && w < natoms
    ensures r.Some? ==> Advances(p, w, natoms, r.value.0, r.value.1)
  {
    if run > 0 && 3 * w + run > 3 * natoms then None
    else
      match StepAtoms(buf, p, small, large, run, w, natoms)
      case None => None
      case Some((atoms, p2)) =>
        match Adapt(small, isSmaller)
        case Err(_) => None
        case Ok(small') => Some((atoms, Tally(p2, small', run, w + |atoms|)))
  }

  /** The loop from state `t` on, with `done` the atoms written before it.
      A decode that succeeds writes every atom exactly once: it ends with
      `natoms` atoms, those written before it first. */
  function DecodeFrom(buf: seq<Byte>, h: Layout, t: Tally, natoms: nat, done: seq<Coord>)
    : (r: Option<seq<Coord>>)
    requires LayoutValid(h) && TallyValid(t) && t.w <= natoms
    ensures r.Some? && |done| == t.w ==> |r.value| == natoms && r.value[..|done|] == done
    decreases natoms - t.w
  {
    if t.w == natoms then Some(done)
    else
      match Step(buf, h, t, natoms)
      case None => None
      case Some((atoms, t')) =>
        var all := DecodeFrom(buf, h, t', natoms, done + atoms);
        assert all.Some? && |done| == t.w ==> all.value[..|done|] == all.value[..|done + atoms|][..|done|];
        all
  }

  /** The state before the loop: no run and no atom, at any position. */
  lemma TallyStart(p: nat, small: Small)
    requires SmallValid(small)
    ensures TallyValid(Tally(p, small, 0, 0))
  {
  }

  /** One step of the loop from `t`: it fails with the step, or goes on
      from the state the step leaves. */
  lemma DecodeFromStep(buf: seq<Byte>, h: Layout, t: Tally, natoms: nat, done: seq<Coord>)
    requires LayoutValid(h) && TallyValid(t) && t.w < natoms
    ensures Step(buf, h, t, natoms).None? ==> DecodeFrom(buf, h, t, natoms, done).None?
    ensures Step(buf, h, t, natoms).Some? ==>
      DecodeFrom(buf, h, t, natoms, done)
        == DecodeFrom(buf, h, Step(buf, h, t, natoms).value.1, natoms, done + Step(buf, h, t, natoms).value.0)
  {
  }

  // ---------------------------------------------------------------------
  // The methods

  /** The three `thiscoord_fl[i] = ..` writes of one atom into its slot of
      `positions`; the slots before it stay as they were. */
  method WriteAtom(positions: array<int>, w: nat, c: Coord, ghost base: seq<int>)
    requires 3 * w + 3 <= positions.Length && positions[..3 * w] == base
    modifies positions
    ensures positions[..3 * w + 3] == base + Triple(c)
  {
    positions[3 * w] := c.x;
    positions[3 * w + 1] := c.y;
    positions[3 * w + 2] := c.z;
    assert positions[..3 * w + 3] == positions[..3 * w] + Triple(c);
  }

  /** The large atom: three `decodebits` of the separate widths, or one
      `decodeints` of the packed number into a zeroed `thiscoord`; then
      `minint` is added. */
  method ReadLargeAtom(buf: seq<Byte>, st: DecodeState, h: Layout) returns (r: Result<(Coord, DecodeState)>)
    requires Valid(buf, st) && LayoutValid(h)
    ensures r.Ok? <==> LargeReadable(buf, Pos(st), h)
    ensures r.Ok? ==>
      && LargeReadable(buf, Pos(st), h) && Valid(buf, r.value.1)
      && Pos(r.value.1) == Pos(st) + LargeBits(h.widths)
      && r.value.0 == LargeAtom(buf, Pos(st), h)
  {
    if h.widths.bitsize == 0 {
      r := ReadSeparate(buf, st, h);
    } else {
      r := ReadPacked(buf, st, h);
    }
  }

  /** The three `decodebits` of the separate widths. */
  method ReadSeparate(buf: seq<Byte>, st: DecodeState, h: Layout) returns (r: Result<(Coord, DecodeState)>)
    requires Valid(buf, st) && |h.minint| == 3 && |h.widths.bitsizeint| == 3 && h.widths.bitsize == 0
    ensures r.Ok? <==> LargeReadable(buf, Pos(st), h)
    ensures r.Ok? ==>
      && LargeReadable(buf, Pos(st), h) && Valid(buf, r.value.1)
      && Pos(r.value.1) == Pos(st) + LargeBits(h.widths)
      && r.value.0 == SeparateAtom(buf, Pos(st), h)
  {
    var b0, b1, b2 := h.widths.bitsizeint[0] as nat, h.widths.bitsizeint[1] as nat, h.widths.bitsizeint[2] as nat;
    assert LargeBits(h.widths) == b0 + b1 + b2 && Consumed(st) == Pos(st);
    var a :- ReadTriple(buf, st, b0, b1, b2);
    var (x, y, z, st3) := a;
    r := Ok((Coord(x + h.minint[0], y + h.minint[1], z + h.minint[2]), st3));
  }

  /** Three `decodebits` in a row. */
  method ReadTriple(buf: seq<Byte>, st: DecodeState, l: nat, m: nat, n: nat)
    returns (r: Result<(nat, nat, nat, DecodeState)>)
    requires Valid(buf, st)
    ensures r.Ok? <==> l < 32 && m < 32 && n < 32 && CanRead(buf, st, l + m + n)
    ensures r.Ok? ==>
      && CanRead(buf, st, l + m + n) && Valid(buf, r.value.3) && Consumed(r.value.3) == Consumed(st) + l + m + n
      && r.value.0 == StreamValue(buf, Consumed(st), l)
      && r.value.1 == StreamValue(buf, Consumed(st) + l, m)
      && r.value.2 == StreamValue(buf, Consumed(st) + l + m, n)
  {
    var a :- TryDecodeBits(buf, st, l);
    var (x, st1) := a;
    var b :- ReadPair(buf, st1, m, n);
    var (y, z, st3) := b;
    r := Ok((x, y, z, st3));
  }

  /** Two `decodebits` in a row. */
  method ReadPair(buf: seq<Byte>, st: DecodeState, m: nat, n: nat) returns (r: Result<(nat, nat, DecodeState)>)
    requires Valid(buf, st)
    ensures r.Ok? <==> m < 32 && n < 32 && CanRead(buf, st, m + n)
    ensures r.Ok? ==>
      && CanRead(buf, st, m + n) && Valid(buf, r.value.2) && Consumed(r.value.2) == Consumed(st) + m + n
      && r.value.0 == StreamValue(buf, Consumed(st), m)
      && r.value.1 == StreamValue(buf, Consumed(st) + m, n)
  {
    var a :- TryDecodeBits(buf, st, m);
    var (y, st1) := a;
    var b :- TryDecodeBits(buf, st1, n);
    var (z, st2) := b;
    r := Ok((y, z, st2));
  }

  /** The one `decodeints` of the packed number, into a zeroed `thiscoord`. */
  method ReadPacked(buf: seq<Byte>, st: DecodeState, h: Layout) returns (r: Result<(Coord, DecodeState)>)
    requires Valid(buf, st) && LayoutValid(h) && h.widths.bitsize != 0
    ensures r.Ok? <==> LargeReadable(buf, Pos(st), h)
    ensures r.Ok? ==>
      && LargeReadable(buf, Pos(st), h) && Valid(buf, r.value.1)
      && Pos(r.value.1) == Pos(st) + LargeBits(h.widths)
      && r.value.0 == PackedAtom(buf, Pos(st), h)
  {
    PackedSizes(h);
    var d :- DecodeInts.DecodeInts(buf, st, h.widths.bitsize, h.widths.sizeint, [0, 0, 0]);
    var (digits, st1) := d;
    r := Ok((Plus(digits, h.minint), st1));
  }

  /** The flag bit and, when it is set, the run code. */
  method ReadRunHeader(buf: seq<Byte>, st: DecodeState, run: nat) returns (r: Result<(nat, int, DecodeState)>)
    requires Valid(buf, st) && run % 3 == 0 && run <= 30
    ensures r.Ok? <==> RunHeader(buf, Pos(st), run).Some?
    ensures r.Ok? ==>
      && RunHeader(buf, Pos(st), run).Some? && Valid(buf, r.value.2)
      && RunHeader(buf, Pos(st), run).value == (r.value.0, r.value.1, Pos(r.value.2))
  {
    var f :- TryDecodeBits(buf, st, 1);
    var (flag, st1) := f;
    if flag > 0 {
      var c :- TryDecodeBits(buf, st1, 5);
      var (code, st2) := c;
      Pow2Values();
      var (run', isSmaller) := RunCode(code);
      r := Ok((run', isSmaller, st2));
    } else {
      r := Ok((run, 0, st1));
    }
  }

  /** One small atom of a run: `decodeints` of `smallidx` bits with the
      small size into `thiscoord`, then `thiscoord[i] += prevcoord[i] -
      smallnum`. A size of zero makes `decodeints` divide by zero. */
  method ReadSmallAtom(buf: seq<Byte>, st: DecodeState, s: Small, prev: Coord, thiscoord: seq<int>)
    returns (r: Result<(Coord, DecodeState)>)
    requires Valid(buf, st) && SmallValid(s) && |thiscoord| == 3
    ensures r.Ok? <==> s.size > 0 && CanRead(buf, st, s.idx)
    ensures r.Ok? ==>
      && s.size > 0 && CanRead(buf, st, s.idx) && Valid(buf, r.value.1)
      && Pos(r.value.1) == Pos(st) + s.idx
      && r.value.0 == Offset(SmallDigits(buf, Pos(st), s.idx, s.size, thiscoord[2]), prev, s.smallnum)
  {
    MagicIntsRange(s.idx);
    var sizes: seq<U32> := [s.size, s.size, s.size];
    SmallSizesFit(s, sizes);
    var d :- DecodeInts.DecodeInts(buf, st, s.idx, sizes, thiscoord);
    var (digits, st1) := d;
    r := Ok((Offset(digits, prev, s.smallnum), st1));
  }

  /** `sizesmall` passes the checks of `decodeints` exactly when the small
      size is not zero. */
  lemma SmallSizesFit(s: Small, sizes: seq<U32>)
    requires SmallValid(s) && sizes == [s.size, s.size, s.size]
    ensures (if s.idx <= 32 then 0 < (sizes[1] as nat) * (sizes[2] as nat) < U32_LIMIT
             else if s.idx <= 64 then 0 < (sizes[1] as nat) * (sizes[2] as nat) < 0x1_0000_0000_0000_0000
             else s.idx <= 256 && sizes[0] > 0 && sizes[1] > 0) <==> s.size > 0
    ensures sizes[0] <= 0x100_0000 && sizes[1] <= 0x100_0000 && sizes[2] <= 0x100_0000
  {
    MagicIntsRange(s.idx);
    if s.size > 0 {
      SmallSizeOf(s);
    }
  }

  /** `RunAtoms` one atom further: the next atom is read where the ones
      before it end, relative to the last of them. */
  lemma {:induction false} RunAtomsNext(buf: seq<Byte>, p: nat, s: Small, prev: Coord, j: nat)
    requires s.size > 0 && p + Span(j + 1, s.idx) <= 8 * |buf|
    ensures p + Span(j, s.idx) + s.idx <= 8 * |buf|
    ensures var before := RunAtoms(buf, p, s, prev, j);
      var last := if j == 0 then prev else before[j - 1];
      RunAtoms(buf, p, s, prev, j + 1) ==
        before + [Offset(SmallDigits(buf, p + Span(j, s.idx), s.idx, s.size, Held(j, prev, last)), last, s.smallnum)]
  {
    assert Span(j + 1, s.idx) == Span(j, s.idx) + s.idx;
  }

  /** A turn whose small atom cannot be read, for want of bits or of a
      small size, makes the whole run fail. */
  lemma TurnShort(buf: seq<Byte>, p: nat, s: Small, run: nat, w: nat, natoms: nat, j: nat)
    requires !(s.size > 0 && p + Span(j, s.idx) + s.idx <= 8 * |buf|)
    requires j < run / 3 && (j > 0 ==> w + j + 1 < natoms)
    ensures !RunFits(buf, p, s, run, w, natoms)
  {
    if s.size > 0 {
      RunShort(buf, p, s, run, w, natoms, j);
    }
  }

  /** A small atom that cannot be read makes the whole run fail. */
  lemma RunShort(buf: seq<Byte>, p: nat, s: Small, run: nat, w: nat, natoms: nat, j: nat)
    requires p + Span(j, s.idx) + s.idx > 8 * |buf|
    requires j < run / 3 && (j > 0 ==> w + j + 1 < natoms)
    ensures !RunFits(buf, p, s, run, w, natoms)
  {
    var count := RunCount(run, w, natoms);
    if w + 1 < natoms {
      assert j + 1 <= count;
      SpanMono(j + 1, count, s.idx);
    }
  }

  /** The first small atom goes before the large one. */
  lemma FirstWritten(base: seq<int>, large: Coord, c: Coord)
    ensures base + Triple(c) + Triple(large) == base + Flatten(StepOrder(large, [c]))
  {
    assert StepOrder(large, [c]) == [c] + [large];
    FlattenSnoc([c], large);
    FlattenSnoc([], c);
    assert [] + [c] == [c];
  }

  /** Every later small atom goes at the end. */
  lemma NextWritten(base: seq<int>, large: Coord, atoms: seq<Coord>, c: Coord)
    requires atoms != []
    ensures base + Flatten(StepOrder(large, atoms)) + Triple(c) == base + Flatten(StepOrder(large, atoms + [c]))
  {
    StepOrderSnoc(large, atoms, c);
    FlattenSnoc(StepOrder(large, atoms), c);
  }

  /** The state of the run loop after `j` turns: the cursor is past `j`
      small atoms; none is written yet, or the large atom and the `j` atoms
      are, in the order of `StepOrder`, and `prevcoord` is the last of them. */
  ghost predicate Running(ps: seq<int>, buf: seq<Byte>, p0: nat, s: Small, large: Coord, base: seq<int>,
                          w: nat, j: nat, pos: nat, write: nat, prev: Coord)
  {
    && pos == p0 + Span(j, s.idx)
    && (j == 0 ==> write == w && prev == large && 3 * w <= |ps| && ps[..3 * w] == base)
    && (j > 0 ==>
        && s.size > 0 && write == w + j + 1 && 3 * write <= |ps|
        && p0 + Span(j, s.idx) <= 8 * |buf|
        && var atoms := RunAtoms(buf, p0, s, large, j);
        && prev == atoms[j - 1]
        && ps[..3 * write] == base + Flatten(StepOrder(large, atoms)))
  }

  /** The first turn's writes: the small atom into the large atom's slot,
      then the large atom into the next one, which must exist. */
  method PlaceFirst(positions: array<int>, write: nat, c: Coord, large: Coord, ghost base: seq<int>)
    returns (r: Result<nat>)
    requires 3 * write + 3 <= positions.Length && positions[..3 * write] == base
    modifies positions
    ensures r.Err? <==> 3 * write + 6 > positions.Length
    ensures r.Ok? ==>
      && r.value == write + 1 && 3 * write + 6 <= positions.Length
      && positions[..3 * write + 6] == base + Flatten(StepOrder(large, [c]))
  {
    FirstWritten(base, large, c);
    WriteAtom(positions, write, c, base);
    var next := write + 1;
    if 3 * next + 3 > positions.Length {
      return Err(Panic("called `Option::unwrap()` on a `None` value"));
    }
    WriteAtom(positions, next, large, base + Triple(c));
    r := Ok(next);
  }

  /** The writes of one turn of the run loop: on the first turn the small
      atom `c` and the large atom trade places (`std::mem::swap`) and both
      are written, later `c` is written and becomes `prevcoord`. */
  method PlaceTurn(positions: array<int>, write: nat, k: nat, c: Coord, prevcoord: Coord, large: Coord,
                   ghost base: seq<int>, ghost atoms: seq<Coord>, ghost w: nat, ghost j: nat)
    returns (r: Result<(Coord, seq<int>, nat)>)
    requires k == 3 * j && |atoms| == j
    requires j == 0 ==> write == w && prevcoord == large && 3 * w + 3 <= positions.Length && positions[..3 * w] == base
    requires j > 0 ==>
      && atoms != [] && write == w + j + 1 && 3 * write + 3 <= positions.Length
      && positions[..3 * write] == base + Flatten(StepOrder(large, atoms))
    modifies positions
    ensures r.Err? <==> j == 0 && 3 * w + 6 > positions.Length
    ensures r.Ok? ==>
      && r.value.0 == c && |r.value.1| == 3 && r.value.2 == w + j + 2 && 3 * r.value.2 <= positions.Length
      && r.value.1[2] == (if j == 0 then large.z else c.z)
      && positions[..3 * r.value.2] == base + Flatten(StepOrder(large, atoms + [c]))
  {
    var coord: seq<int> := [c.x, c.y, c.z];
    var prev := prevcoord;
    var write' := write;
    if k == 0 {
      coord, prev := [prev.x, prev.y, prev.z], c;
      write' :- PlaceFirst(positions, write', prev, large, base);
      assert atoms + [c] == [c];
    } else {
      NextWritten(base, large, atoms, c);
      prev := c;
      WriteAtom(positions, write', c, base + Flatten(StepOrder(large, atoms)));
    }
    write' := write' + 1;
    r := Ok((prev, coord, write'));
  }

  /** The state after a turn that read and wrote its atom. */
  lemma RunningNext(ps: seq<int>, buf: seq<Byte>, p0: nat, s: Small, large: Coord, base: seq<int>,
                    w: nat, j: nat, pos: nat, write: nat, prev: Coord, after: seq<Coord>)
    requires s.size > 0 && p0 + Span(j + 1, s.idx) <= 8 * |buf| && pos == p0 + Span(j + 1, s.idx)
    requires write == w + j + 2 && 3 * write <= |ps|
    requires after == RunAtoms(buf, p0, s, large, j + 1) && prev == after[j]
    requires ps[..3 * write] == base + Flatten(StepOrder(large, after))
    ensures Running(ps, buf, p0, s, large, base, w, j + 1, pos, write, prev)
  {
  }

  /** The small atom of turn `j` of a run: the next element of `RunAtoms`,
      or a failure that makes the whole run fail. */
  method ReadTurnAtom(buf: seq<Byte>, cur: DecodeState, s: Small, prevcoord: Coord, thiscoord: seq<int>,
                      ghost j: nat, ghost p0: nat, ghost run: nat, ghost w: nat, ghost natoms: nat,
                      ghost large: Coord)
    returns (r: Result<(Coord, DecodeState)>)
    requires Valid(buf, cur) && SmallValid(s) && |thiscoord| == 3
    requires j < run / 3 && (j > 0 ==> w + j + 1 < natoms) && Pos(cur) == p0 + Span(j, s.idx)
    requires j == 0 ==> prevcoord == large
    requires j > 0 ==> s.size > 0 && p0 + Span(j, s.idx) <= 8 * |buf| && prevcoord == RunAtoms(buf, p0, s, large, j)[j - 1]
    requires thiscoord[2] == Held(j, large, prevcoord)
    ensures r.Err? ==> !RunFits(buf, p0, s, run, w, natoms)
    ensures r.Ok? ==>
      && s.size > 0 && p0 + Span(j + 1, s.idx) <= 8 * |buf|
      && Valid(buf, r.value.1) && Pos(r.value.1) == p0 + Span(j + 1, s.idx)
      && RunAtoms(buf, p0, s, large, j + 1) == RunAtoms(buf, p0, s, large, j) + [r.value.0]
  {
    r := ReadSmallAtom(buf, cur, s, prevcoord, thiscoord);
    TurnOutcome(buf, cur, s, prevcoord, thiscoord[2], j, p0, run, w, natoms, large, r);
  }

  /** What the read of a turn's small atom means for the run: a failure
      makes the whole run fail, a success gives the next atom of
      `RunAtoms`. */
  lemma TurnOutcome(buf: seq<Byte>, cur: DecodeState, s: Small, prevcoord: Coord, held: int,
                    j: nat, p0: nat, run: nat, w: nat, natoms: nat, large: Coord, r: Result<(Coord, DecodeState)>)
    requires Valid(buf, cur) && SmallValid(s)
    requires j < run / 3 && (j > 0 ==> w + j + 1 < natoms) && Pos(cur) == p0 + Span(j, s.idx)
    requires j == 0 ==> prevcoord == large
    requires j > 0 ==> s.size > 0 && p0 + Span(j, s.idx) <= 8 * |buf| && prevcoord == RunAtoms(buf, p0, s, large, j)[j - 1]
    requires held == Held(j, large, prevcoord)
    requires r.Ok? <==> s.size > 0 && CanRead(buf, cur, s.idx)
    requires r.Ok? ==>
      && s.size > 0 && CanRead(buf, cur, s.idx) && Valid(buf, r.value.1)
      && Pos(r.value.1) == Pos(cur) + s.idx
      && r.value.0 == Offset(SmallDigits(buf, Pos(cur), s.idx, s.size, held), prevcoord, s.smallnum)
    ensures r.Err? ==> !RunFits(buf, p0, s, run, w, natoms)
    ensures r.Ok? ==>
      && s.size > 0 && p0 + Span(j + 1, s.idx) <= 8 * |buf|
      && Valid(buf, r.value.1) && Pos(r.value.1) == p0 + Span(j + 1, s.idx)
      && RunAtoms(buf, p0, s, large, j + 1) == RunAtoms(buf, p0, s, large, j) + [r.value.0]
  {
    if r.Err? {
      TurnShort(buf, p0, s, run, w, natoms, j);
    } else {
      TurnAtomExtends(buf, p0, s, large, j, prevcoord, held, r.value.0);
    }
  }

  /** The atom a turn reads with `thiscoord[2]` holding `Held` is the next
      element of `RunAtoms`. */
  lemma TurnAtomExtends(buf: seq<Byte>, p0: nat, s: Small, large: Coord, j: nat, prevcoord: Coord, held: int, c: Coord)
    requires s.size > 0 && p0 + Span(j, s.idx) + s.idx <= 8 * |buf|
    requires j == 0 ==> prevcoord == large
    requires j > 0 ==> prevcoord == RunAtoms(buf, p0, s, large, j)[j - 1]
    requires held == Held(j, large, prevcoord)
    requires c == Offset(SmallDigits(buf, p0 + Span(j, s.idx), s.idx, s.size, held), prevcoord, s.smallnum)
    ensures Span(j + 1, s.idx) == Span(j, s.idx) + s.idx
    ensures RunAtoms(buf, p0, s, large, j + 1) == RunAtoms(buf, p0, s, large, j) + [c]
  {
    RunAtomsNext(buf, p0, s, large, j);
  }

  /** One turn of the run loop, up to the check of the next slot. */
  method RunTurn(positions: array<int>, buf: seq<Byte>, cur: DecodeState, s: Small, prevcoord: Coord,
                 thiscoord: seq<int>, write: nat, k: nat, ghost j: nat, ghost p0: nat, ghost run: nat,
                 ghost w: nat, large: Coord, ghost natoms: nat, ghost base: seq<int>)
    returns (r: Result<(DecodeState, Coord, seq<int>, nat)>)
    requires Valid(buf, cur) && SmallValid(s) && |thiscoord| == 3 && positions.Length == 3 * natoms
    requires k == 3 * j && j < run / 3 && (j > 0 ==> 3 * write + 3 <= positions.Length)
    requires 3 * w + 3 <= positions.Length
    requires Running(positions[..], buf, p0, s, large, base, w, j, Pos(cur), write, prevcoord)
    requires thiscoord[2] == Held(j, large, prevcoord)
    modifies positions
    ensures r.Err? ==> !RunFits(buf, p0, s, run, w, natoms)
    ensures r.Ok? ==> var (next, prev, coord, write') := r.value;
      && Valid(buf, next) && |coord| == 3 && coord[2] == Held(j + 1, large, prev)
      && Running(positions[..], buf, p0, s, large, base, w, j + 1, Pos(next), write', prev)
  {
    var d :- ReadTurnAtom(buf, cur, s, prevcoord, thiscoord, j, p0, run, w, natoms, large);
    var (c, next) := d;
    ghost var atoms := RunAtoms(buf, p0, s, large, j);
    ghost var after := RunAtoms(buf, p0, s, large, j + 1);
    var placed :- PlaceTurn(positions, write, k, c, prevcoord, large, base, atoms, w, j);
    var (prev, coord, write') := placed;
    RunningNext(positions[..], buf, p0, s, large, base, w, j, Pos(next), write', prev, after);
    r := Ok((next, prev, coord, write'));
  }

  /** The first `k` positions are `base`. */
  ghost predicate WrittenUpTo(ps: seq<int>, k: nat, base: seq<int>)
  {
    k <= |ps| && ps[..k] == base
  }

  /** The run loop `for k in (0..run).step_by(3)`: each turn reads one
      small atom relative to `prevcoord`. The first one is swapped with the
      large atom and written before it (the `unwrap` of the slot after it
      panics when there is none); the later ones are written in turn and
      become `prevcoord`. The loop stops early once the next slot is past
      the end of `positions`. */
  method ReadRun(positions: array<int>, buf: seq<Byte>, st: DecodeState, s: Small, run: nat, w: nat,
                 large: Coord, ghost natoms: nat, ghost base: seq<int>) returns (r: Result<(DecodeState, nat)>)
    requires Valid(buf, st) && SmallValid(s)
    requires 0 < run && run % 3 == 0 && positions.Length == 3 * natoms && 3 * w + run <= positions.Length
    requires WrittenUpTo(positions[..], 3 * w, base)
    modifies positions
    ensures r.Ok? <==> RunFits(buf, Pos(st), s, run, w, natoms)
    ensures r.Ok? ==>
      && RunFits(buf, Pos(st), s, run, w, natoms) && Valid(buf, r.value.0)
      && var count := RunCount(run, w, natoms);
      && Pos(r.value.0) == Pos(st) + Span(count, s.idx)
      && r.value.1 == w + 1 + count
      && positions[..3 * r.value.1] == base + Flatten(StepOrder(large, RunAtoms(buf, Pos(st), s, large, count)))
  {
    ghost var p0 := Pos(st);
    var n := positions.Length;
    var cur := st;
    var prevcoord := large;
    var thiscoord: seq<int> := [0, 0, 0];
    var write: nat := w;
    var k := 0;
    ghost var j: nat := 0;
    while k < run
      invariant k == 3 * j && k <= run && |thiscoord| == 3 && Valid(buf, cur)
      invariant thiscoord[2] == Held(j, large, prevcoord)
      invariant j > 0 ==> 3 * write + 3 <= n
      invariant Running(positions[..], buf, p0, s, large, base, w, j, Pos(cur), write, prevcoord)
      decreases run - k
    {
      var t :- RunTurn(positions, buf, cur, s, prevcoord, thiscoord, write, k, j, p0, run, w, large, natoms, base);
      cur, prevcoord, thiscoord, write := t.0, t.1, t.2, t.3;
      k := k + 3;
      j := j + 1;
      if 3 * write + 3 > n {
        break;
      }
    }
    assert j == RunCount(run, w, natoms);
    r := Ok((cur, write));
  }

  /** One turn of the `while read_idx < natoms` loop. The slot of the
      large atom (`get_mut(write_idx * 3..).unwrap()`) always exists here. */
  method ReadStep(positions: array<int>, buf: seq<Byte>, st: DecodeState, h: Layout, small: Small,
                  run: nat, w: nat, ghost natoms: nat, ghost base: seq<int>)
    returns (r: Result<(DecodeState, Small, nat, nat)>)
    requires Valid(buf, st) && LayoutValid(h) && TallyValid(Tally(Pos(st), small, run, w))
    requires positions.Length == 3 * natoms && w < natoms && WrittenUpTo(positions[..], 3 * w, base)
    modifies positions
    ensures r.Ok? <==> Step(buf, h, Tally(Pos(st), small, run, w), natoms).Some?
    ensures r.Ok? ==> Valid(buf, r.value.0) && Stepped(Step(buf, h, Tally(Pos(st), small, run, w), natoms),
                                                      positions[..], base, Pos(r.value.0), r.value.1, r.value.2, r.value.3)
  {
    var a :- ReadLargeAtom(buf, st, h);
    var (large, st1) := a;
    r := ReadFlagged(positions, buf, st1, small, run, w, large, natoms, base);
  }

  /** The outcome of a step that the methods reached: the step of the
      specification succeeded with the same state after it, and its atoms
      are written after `base`. */
  ghost predicate Stepped(step: Option<(seq<Coord>, Tally)>, ps: seq<int>, base: seq<int>,
                          p: nat, small: Small, run: nat, w: nat)
  {
    && step.Some?
    && step.value.1 == Tally(p, small, run, w)
    && 3 * w <= |ps|
    && ps[..3 * w] == base + Flatten(step.value.0)
  }

  /** The flag bit, the run code and the rest of the step. */
  method ReadFlagged(positions: array<int>, buf: seq<Byte>, st: DecodeState, small: Small,
                     run: nat, w: nat, large: Coord, ghost natoms: nat, ghost base: seq<int>)
    returns (r: Result<(DecodeState, Small, nat, nat)>)
    requires Valid(buf, st) && SmallValid(small) && run % 3 == 0 && run <= 30
    requires positions.Length == 3 * natoms && w < natoms && WrittenUpTo(positions[..], 3 * w, base)
    modifies positions
    ensures r.Ok? <==> StepFlag(buf, small, run, w, natoms, large, Pos(st)).Some?
    ensures r.Ok? ==> Valid(buf, r.value.0) && Stepped(StepFlag(buf, small, run, w, natoms, large, Pos(st)),
                                                      positions[..], base, Pos(r.value.0), r.value.1, r.value.2, r.value.3)
  {
    var b :- ReadRunHeader(buf, st, run);
    var (run', isSmaller, st2) := b;
    r := ReadRunOrAtom(positions, buf, st2, small, run', isSmaller, w, large, natoms, base);
  }

  /** The check that the run fits, the run or the large atom alone, and
      the change of the small size. */
  method ReadRunOrAtom(positions: array<int>, buf: seq<Byte>, st: DecodeState, small: Small,
                       run: nat, isSmaller: int, w: nat, large: Coord, ghost natoms: nat, ghost base: seq<int>)
    returns (r: Result<(DecodeState, Small, nat, nat)>)
    requires Valid(buf, st) && SmallValid(small) && run % 3 == 0 && run <= 30
    requires positions.Length == 3 * natoms && w < natoms && WrittenUpTo(positions[..], 3 * w, base)
    modifies positions
    ensures r.Ok? <==> StepRun(buf, small, run, isSmaller, w, natoms, large, Pos(st)).Some?
    ensures r.Ok? ==> Valid(buf, r.value.0) && Stepped(StepRun(buf, small, run, isSmaller, w, natoms, large, Pos(st)),
                                                      positions[..], base, Pos(r.value.0), r.value.1, r.value.2, r.value.3)
  {
    var n := positions.Length;
    if run > 0 && 3 * w + run > n {
      return Err(Panic("attempt to write a run beyond the positions buffer"));
    }
    var st': DecodeState;
    var w': nat;
    if run > 0 {
      var c :- ReadRun(positions, buf, st, small, run, w, large, natoms, base);
      st', w' := c.0, c.1;
    } else {
      WriteAtom(positions, w, large, base);
      FlattenSnoc([], large);
      assert [] + [large] == [large];
      st', w' := st, w + 1;
    }
    var small' :- Adapt(small, isSmaller);
    r := Ok((st', small', run, w'));
  }
}
