# molly's XTC reader, modelled in Dafny

molly reads GROMACS XTC trajectories. An XTC file is a sequence of frames. Each frame starts with a
big-endian XDR header:

- the magic number 1995
- the atom count
- the step
- the time
- the nine floats of the box
- the atom count again

The positions follow the header. A frame of at most nine atoms stores them as plain floats. A
larger frame stores a precision, followed by a compressed block:

- the minimum and maximum integer coordinates
- a small-size index
- an opaque byte block

The block holds a bit stream of "large" atoms, optionally followed by runs of "small" atoms. Each
small atom is stored relative to the atom before it, and the first atom of a run trades places
with the large atom.

The project models:

- reading frames (`XTCReader::read_frame`);
- the whole decompressor: `read_compressed_positions`, `decodebits`, `decodeints`, the two word
  unpackers, `calc_sizeint`, `sizeofint` and `sizeofints`;
- frame and atom selections;
- the buffered and unbuffered byte sources of the compressed block;
- from the command-line tool, the selection parsers and `filter_frames`. That function chooses
  frames, rewrites their headers with the selected atom count, and copies a shortened compressed
  block.

Modules follow the source:

| module | models |
|---|---|
| `Bits` | arithmetic on unbounded naturals: `|`, `&`, shifts, `u32` truncation, bit length |
| `Errors` | `Result` and `Option` |
| `Xdr` | the `read_*` helpers of `src/reader.rs` |
| `BitStream` | `decodebits` |
| `Sizes` | `calc_sizeint`, `sizeofint` and `sizeofints` |
| `Unpack` | the word unpackers |
| `DecodeInts` | `decodeints` |
| `Coords` | the magic-int table, the small-size bookkeeping and the atoms of one step |
| `Positions` | the decode loop |
| `Compressed` | `read_compressed_positions` |
| `Selection` | `src/selection.rs` |
| `Buffers` | `src/buffer.rs` |
| `Xtc` | `src/lib.rs` |
| `Filter` | the parsers and `filter_frames` of `src/main.rs` |

How values and failures are represented:

- **Floats** are kept as their 32-bit patterns. A decoded position is the integer coordinate
  before it is scaled by `1 / precision`.
- **Panics** are an `Err(Panic(..))` outcome. Overflow is checked, as in a debug build. A panic
  can come from an overflow, an index out of bounds, an `unwrap` of `None`, an `assert!` or a
  `panic!`.
- **A read that runs out of bytes** is `Err(UnexpectedEof)`.
- **Files** are byte sequences. `Buffers.Source` is a file with a position and a fixed read size
  `chunk`. Every `read` delivers exactly as many bytes as the smallest of the slice's length, `chunk`
  and what is left of the file. The conditions under which `Buffers.Buffer.New` succeeds rest on that
  rule.

Neither `tell` has a contract of its own. Each returns the `head` field. Every `Pop` advances
`head` by exactly one, so `tell` counts the bytes popped.

Where the code does something other than its comments, its names or the XTC format lead one to expect, the model follows the code:

- A wrong magic number, a negative atom count and a mismatched repeated count are `assert!`s and
  `expect`s. They panic rather than return an error.
- The box and the time are read as 32-bit floats.
- `Range::is_included` answers `Some(false)` at `start` itself. It tests `(idx + start) % step`.
  It still answers at `idx == end`. So it disagrees with `Range::apply` at both ends of a range
  (`Selection.IncludedDiffersFromApply`).
- `AtomSelection::Until(u)` selects the `u + 1` atoms `0..=u`, whereas its doc comment says `u`
  atoms (`Selection.UntilChosen`).
- A frame list, and an atom index list, never includes its own last index
  (`Selection.FrameListDropsLast`, `Selection.IndexListDropsLast`).
- A frame selection string with an empty start such as `:100` fails to parse
  (`Filter.FrameParserEmptyStart`). Selections do not take negative indices.
- For a number of more than 64 bits, `decodeints` divides by the wrong sizes and keeps the old third
  digit (see Findings). The decode loop uses these as-written digits (`DecodeInts.DecodedNums`), so
  for a packed large atom the third coordinate is `minint[2]`, and for a small atom it is the value
  that `thiscoord[2]` held before the call (`Coords.Held`). The intended division is
  `DecodeInts.DecodeLarge`, and it is proved separately.
- `Buffer::new` on a block whose count is 0 would never return (see Findings). The model leaves
  such a block unloaded instead.

## Model

| member | source | states |
|---|---|---|
| `Xdr.FromToBeBytes` | src/reader.rs:210-214 | reading a big-endian word back from its four bytes gives the word |
| `Xdr.ToFromBeBytes` | src/reader.rs:210-214 | any four bytes are the big-endian encoding of the word read from them |
| `Xdr.AsI32` | src/reader.rs:204-208 | the `i32` reading of a word lies in the `i32` range and agrees with the word modulo `2^32` |
| `Xdr.I32Word` | src/reader.rs:204-208 | every `i32` has a word whose `i32` reading gives it back |
| `Xdr.ReadU32` | src/reader.rs:210-214 | succeeds exactly when four bytes are there; the input is then the word's encoding followed by the rest |
| `Xdr.ReadI32` | src/reader.rs:204-208 | succeeds exactly when four bytes are there; the value is an `i32` whose encoding, followed by the rest, is the input |
| `Xdr.ReadF32` | src/reader.rs:198-202 | succeeds exactly when four bytes are there; the input is the float's bit pattern followed by the rest |
| `Xdr.ReadF32s` | src/reader.rs:188-195 | succeeds exactly when `4 n` bytes are there; yields `n` words whose encodings, followed by the rest, are the input |
| `Xdr.ReadU32OfWritten` | src/reader.rs:210-214 | a written word reads back as itself and leaves what follows it |
| `Xdr.ReadI32OfWritten` | src/reader.rs:204-208 | a written `i32` reads back as itself and leaves what follows it |
| `Xdr.ReadF32sOfWritten` | src/reader.rs:188-195 | written words read back as themselves and leave what follows them |
| `Xdr.Padding` | src/reader.rs:183 | the padding is below four and brings the count to a multiple of four |
| `Xdr.PaddingLeast` | src/reader.rs:183 | no multiple of four at or above the count is below the padded count |
| `Xdr.ReadOpaque` | src/reader.rs:181-186 | succeeds exactly when a count and its padded bytes are there; the data is the padded count of bytes and the input splits into count, data and rest |
| `Xdr.Zeros` | src/main.rs:240 | the zero-filled padding of the given length |
| `Xdr.OpaqueBytes` | src/main.rs:237-242 | written opaque data takes its count word, the data and the padding |
| `Xdr.ReadOpaqueOfWritten` | src/reader.rs:181-186 | written opaque data reads back as the data and its zero padding, leaving the rest |
| `Xdr.ReadBoxvec` | src/reader.rs:171-179 | succeeds exactly when 36 bytes are there; entry `(i, j)` of the box is float `3 j + i` of the input, so the nine words are read as the columns' transpose |
| `Xdr.BoxRoundTrip` | src/reader.rs:173-178 | turning nine words into columns and back gives the words, and columns into words and back gives the columns |
| `Xdr.ReadBoxvecOfWritten` | src/reader.rs:171-179 | a box written in file order reads back as itself |
| `BitStream.StreamValue` | src/reader.rs:288-332 | the definition of the next `n` stream bits, most significant first, that `decodebits` returns; it has no contract of its own, and its bound is `StreamValueBound` |
| `BitStream.StreamValueBound` | src/reader.rs:288-332 | the number read from `n` bits is below `2^n` |
| `BitStream.StreamValueSplit` | src/reader.rs:288-332 | reading `a` bits and then `b` more reads the same number as `a + b` bits at once, the first part high |
| `BitStream.DecodeBits` | src/reader.rs:288-332 | from a reachable state with `nbits < 32` and enough bits left, the result is exactly the next `nbits` bits of the stream, most significant first; the new state is reachable and `nbits` further on |
| `BitStream.TryDecodeBits` | src/reader.rs:288-332 | `decodebits` on file data: it fails exactly when `1 << nbits` overflows or the bits run past the buffer, and otherwise is `DecodeBits` |
| `BitStream.FetchBytes` | src/reader.rs:303-308 | the byte loop leaves fewer than eight bits wanted with every fetched bit in place |
| `BitStream.DecodeTail` | src/reader.rs:310-318 | the tail gathers the last bits, fetching a byte only when the left-over bits do not suffice |
| `BitStream.Complete` | src/reader.rs:320-325 | the final mask leaves exactly the requested bits and a state holding the last byte |
| `BitStream.Finish` | src/reader.rs:320-325 | the stored state is reachable and `nbits` further on, and the masked number is the stream value |
| `Sizes.SizeInt` | src/reader.rs:223-225 | one axis's size succeeds exactly when the `i32` subtraction does not overflow and the `u32` increment does not; it is then `max - min + 1` modulo `2^32`, and exactly that when `min <= max` |
| `Sizes.CalcSizeInt` | src/reader.rs:217-238 | succeeds exactly when every axis's size does; the widths are then those `SizedBy` fixes: their own bit widths when a size exceeds 24 bits, else the bit length of the product |
| `Sizes.WidthsOfSized` | src/reader.rs:227-237 | the written-out widths meet `SizedBy` |
| `Sizes.SizedByUnique` | src/reader.rs:227-237 | `SizedBy` allows exactly one outcome |
| `Sizes.SizeOfInt` | src/reader.rs:240-250 | the result is the bit length of `size`: the least `n` with `size < 2^n`, at most 32 |
| `Sizes.MultiplyBytes` | src/reader.rs:258-276 | the little-endian number in the scratch bytes is multiplied by `size`, and its top byte stays nonzero |
| `Sizes.MultiplyLow` | src/reader.rs:259-266 | the first loop keeps value plus carry equal to the old value times `size` |
| `Sizes.CarryOut` | src/reader.rs:267-274 | the second loop writes the carry out in full and leaves the lower bytes as they were |
| `Sizes.SizeOfInts` | src/reader.rs:252-286 | for three positive sizes below `2^24`, the result is the bit length of their product |
| `Sizes.ProductBound` | src/reader.rs:252-276 | the product of sizes below `2^24` fits in three bytes per size, so the 32-byte scratch space is enough |
| `Unpack.LittleValueBound` | src/reader.rs:387-396 | the number gathered from `nbits` bits is below `2^nbits` |
| `Unpack.GatherLittle` | src/reader.rs:387-396 | the byte loops succeed exactly when the bits are there, and yield them read byte by byte, the first byte lowest |
| `Unpack.Split` | src/reader.rs:399-405 | the three digits are within their sizes and pack back to the number |
| `Unpack.SplitPack` | src/reader.rs:399-405 | splitting a packed triple gives the triple back |
| `Unpack.SplitSteps` | src/reader.rs:401-405 | the divisions and subtractions of the unpackers compute exactly the digits of `Split` |
| `Unpack.UnpackPack` | src/reader.rs:407 | digits that fit an `i32` survive the `as i32` cast unchanged |
| `Unpack.UnpackFromInt` | src/reader.rs:377-441 | succeeds exactly when the bits are there and `sz * sy` is positive and fits the word; the digits are then those of the gathered number, and the cursor is `nbits` further on |
| `DecodeInts.CollectBytes` | src/reader.rs:350-360 | succeeds exactly when the bits are there and fit 32 bytes; the bytes then hold the gathered number |
| `DecodeInts.DivideBytes` | src/reader.rs:364-370 | one pass of long division by a size of at most `2^24` leaves quotient and remainder: old value = quotient times size plus remainder |
| `DecodeInts.DivideOut` | src/reader.rs:362-372 | dividing from the top size down stores each remainder in its digit and leaves the quotient by all of them |
| `DecodeInts.DecodeLarge` | src/reader.rs:334-375 | the long path as intended; no caller uses it. It succeeds exactly when the bits are there, fit 32 bytes and the two lower sizes are positive. The digits are then those of the gathered number split by all three sizes |
| `DecodeInts.AsWrittenNums` | src/reader.rs:362-374 | the long path as written keeps the old third digit |
| `DecodeInts.DecodeLargeAsWritten` | src/reader.rs:350-374 | the long path as written: it divides by `sizes[1]` and `sizes[0]`, overwrites the first digit with the low four bytes of the quotient, and leaves the third digit as it was |
| `DecodeInts.AsWrittenLosesLastDigit` | src/reader.rs:362-374 | for three sizes of `2^22` and the value 1, the code gives `[0, 1, old]` where `[0, 0, 1]` is meant |
| `DecodeInts.DecodeInts` | src/reader.rs:334-375 | dispatches on the width. Up to 64 bits it succeeds exactly when the bits are there and `sizes[1] * sizes[2]` is positive and fits the word, and gives the `Split` digits of the next `nbits` bits. Above 64 bits it succeeds exactly when the bits are there, `nbits <= 256` and `sizes[0]`, `sizes[1]` are positive, and for sizes up to `2^24` gives the as-written digits `AsWrittenNums`, whose third is the caller's old one. The cursor moves `nbits` on |
| `DecodeInts.DecodedNumsDigits` | src/reader.rs:334-375 | the digits the decode loop receives: up to 64 bits the last two lie below their sizes, and digits that fit an `i32` pack back to the number; above 64 bits the third is what the caller's array held |
| `DecodeInts.GatherShort` | src/reader.rs:350-360 | a byte loop that runs past the buffer shows that the `nbits` bits were not there |
| `Coords.MagicIntsRange` | src/reader.rs:11-21 | the table's entries are zero exactly below `FIRSTIDX`, positive and strictly growing above it, and at most `2^24` |
| `Coords.MagicIntsFit` | src/reader.rs:11-20 | the product of two small sizes fits a `u32` up to index 32 and always a `u64` |
| `Coords.InitSmall` | src/reader.rs:34-46 | the set-up succeeds exactly when `0 < smallidx < 73`, and then yields valid halves of the sizes |
| `Coords.Adapt` | src/reader.rs:148-164 | the small index moves by the sign of `is_smaller`; the step succeeds exactly when the new index has a nonzero size, and the halves stay valid |
| `Coords.KeepSmall` | src/reader.rs:161-163 | with no change of size, only the zero-size check remains |
| `Coords.ShrinkSmall` | src/reader.rs:148-155 | going down one size succeeds exactly above `FIRSTIDX`, and the halves stay valid |
| `Coords.GrowSmall` | src/reader.rs:156-160 | going up one size succeeds exactly below the end of the table, and the halves stay valid |
| `Coords.SmallSizeOf` | src/reader.rs:161-164 | a valid size at or above `FIRSTIDX` is positive, at most `2^24`, and fits the word unpackers |
| `Coords.RunCode` | src/reader.rs:89-94 | the 5-bit code gives a run that is a multiple of three up to 30, and a change of size of -1, 0 or 1 |
| `Coords.RunCodeOf` | src/reader.rs:89-94 | every run and change of size is written by exactly one code |
| `Coords.PackedSizes` | src/reader.rs:65-77 | the sizes of a packed large atom are positive and below `2^24`, so its `decodeints` cannot fail on them |
| `Coords.LargeAtom` | src/reader.rs:65-77 | the definition of the large atom before `minint` is added: the separate widths, or the packed number as split; it has no contract of its own, and `LargeAtomRange` bounds it |
| `Coords.PackedAtom` | src/reader.rs:69-77 | the definition of the packed large atom: `decodeints`'s digits over a zeroed `thiscoord`; `PackedAtomRange` bounds it |
| `Coords.LargeAtomRange` | src/reader.rs:65-85 | each coordinate of a separate-width atom, less `minint`, is below two to its width; for a packed atom up to 64 bits the last two lie below their sizes, and above 64 bits the third is `minint[2]` |
| `Coords.SeparateAtomRange` | src/reader.rs:66-68 | each separate-width coordinate, less `minint`, is below two to its width |
| `Coords.PackedAtomRange` | src/reader.rs:69-77 | a packed atom up to 64 bits has its last two coordinates, less `minint`, below their sizes; above 64 bits its third is `minint[2]` |
| `Coords.SmallDigits` | src/reader.rs:103-109 | the three digits `decodeints` gives a small atom, over the held `thiscoord[2]` |
| `Coords.SmallDigitsRange` | src/reader.rs:103-109 | up to 64 bits the last two small digits lie below the small size; above 64 bits the third is the held value |
| `Coords.RunAtoms` | src/reader.rs:102-113 | a run's small atoms number exactly the count asked for |
| `Coords.StepOrder` | src/reader.rs:114-135 | the water swap: the first small atom is written before the large atom, and the others follow in order |
| `Positions.FlattenLength` | src/reader.rs:61-166 | `k` atoms fill `3 k` positions |
| `Positions.FlattenAppend` | src/reader.rs:61-166 | positions written in two parts are the two parts' positions in order |
| `Positions.StepOrderSnoc` | src/reader.rs:127-135 | a later small atom of a run is written at the end |
| `Positions.RunHeader` | src/reader.rs:87-94 | the flag bit and run code are read exactly when their bits are there; a clear flag keeps the previous run and no change of size |
| `Positions.RunCount` | src/reader.rs:98-140 | the run loop writes the whole run, or stops early exactly at the last of `natoms` atoms |
| `Positions.StepAtoms` | src/reader.rs:95-146 | one step writes at least one atom and never past the last |
| `Positions.Step` | src/reader.rs:61-166 | a successful turn of the loop advances: at least one atom more, none past `natoms`, a valid small size |
| `Positions.DecodeFromStep` | src/reader.rs:61-166 | the loop fails with its step, or goes on from the state that step leaves |
| `Positions.DecodeFrom` | src/reader.rs:61-166 | a decode that succeeds from `done` atoms writes exactly `natoms`, those written before it first |
| `Positions.StepFlag` | src/reader.rs:87-165 | a successful step after the large atom writes at least one atom, none past `natoms`, and its run and small size stay valid |
| `Positions.StepRun` | src/reader.rs:95-164 | the same for the run check, the run or lone atom, and the change of size |
| `Positions.WriteAtom` | src/reader.rs:142-145 | writing an atom fills its three slots and keeps the slots before it |
| `Positions.ReadLargeAtom` | src/reader.rs:65-85 | the large atom is read exactly when its bits are there. It is `LargeAtom`: the three separate widths read in a row, or the packed number as `decodeints` splits it, which above 64 bits gives the as-written digits. `minint` is then added |
| `Positions.ReadSeparate` | src/reader.rs:65-68 | three numbers of the separate widths are read in a row |
| `Positions.ReadTriple` | src/reader.rs:66-68 | three `decodebits` in a row read three consecutive stream values |
| `Positions.ReadPair` | src/reader.rs:67-68 | two `decodebits` in a row read two consecutive stream values |
| `Positions.ReadPacked` | src/reader.rs:69-77 | the packed large atom is the number `decodeints` splits by the sizes over a zeroed `thiscoord`, so above 64 bits it has the as-written digits and its third coordinate is `minint[2]` |
| `Positions.ReadRunHeader` | src/reader.rs:87-94 | the method reads exactly what `RunHeader` specifies |
| `Positions.ReadSmallAtom` | src/reader.rs:103-113 | a small atom is read exactly when its size is nonzero and its bits are there. It is its digits relative to the atom before, centred by `smallnum`. The digits are `decodeints`'s, so above 64 bits the third is the `thiscoord[2]` passed in |
| `Positions.SmallSizesFit` | src/reader.rs:103-109 | the small sizes pass `decodeints`'s checks exactly when the small size is nonzero |
| `Positions.RunAtomsNext` | src/reader.rs:102-131 | the next atom of a run is read where the previous ones end, relative to the last of them |
| `Positions.RunShort` | src/reader.rs:102-113 | a small atom that cannot be read makes the whole run fail |
| `Positions.PlaceFirst` | src/reader.rs:114-126 | the first turn writes the small atom and the large atom in swapped order, and fails exactly when the slot after them is missing |
| `Positions.PlaceTurn` | src/reader.rs:114-139 | after a turn the positions written are the step's atoms so far in `StepOrder` |
| `Positions.ReadTurnAtom` | src/reader.rs:103-113 | the atom read in turn `j`, with `thiscoord[2]` holding what the previous turn left (`Held`), is the next element of `RunAtoms`, or the run does not fit |
| `Positions.TurnOutcome` | src/reader.rs:103-113 | what `ReadSmallAtom` gives in turn `j` is the next element of `RunAtoms`, or shows that the run does not fit |
| `Positions.TurnAtomExtends` | src/reader.rs:102-113 | an atom read where the first `j` end, relative to the last of them and over the held value, extends `RunAtoms` by one |
| `Positions.TurnShort` | src/reader.rs:102-113 | a turn whose small atom cannot be read means the run does not fit |
| `Positions.RunTurn` | src/reader.rs:102-139 | one turn keeps the run loop's invariant |
| `Positions.ReadRun` | src/reader.rs:98-140 | the run loop succeeds exactly when the run fits; it then writes the large atom and the run's atoms in `StepOrder` and moves the cursor past the atoms it read |
| `Positions.ReadStep` | src/reader.rs:62-165 | one turn of the decode loop succeeds exactly when `Step` does, with the same state after it and its atoms written |
| `Positions.ReadFlagged` | src/reader.rs:87-165 | the flag, run code and rest of the step do exactly what `StepFlag` specifies |
| `Positions.ReadRunOrAtom` | src/reader.rs:95-164 | the run check, the run or lone atom, and the size change do exactly what `StepRun` specifies |
| `Compressed.ReadI32s` | src/reader.rs:32-33 | three words are read exactly when twelve bytes are there |
| `Compressed.ReadHeader` | src/reader.rs:32-46 | a header read gives a valid layout and small size and consumes 28 bytes |
| `Compressed.Decompress` | src/reader.rs:23-169 | the definition of `read_compressed_positions` on values: the header, the opaque block and the decode loop, with the errors in the source's order; it has no contract of its own, and `DecompressShape` states its shape |
| `Compressed.DecompressShape` | src/reader.rs:23-169 | a successful decompression asks for a multiple of three positions, yields one atom per three of them, and consumes the header plus the opaque block and nothing else |
| `Compressed.DecodeLoop` | src/reader.rs:61-166 | the loop succeeds exactly when `DecodeFrom` does, and then the positions are exactly the decoded atoms; every failure is a panic |
| `Compressed.ReadHeaderFrom` | src/reader.rs:28-46 | the method with `calc_sizeint` fails exactly where `ReadHeader` does, with an I/O error exactly where it has one, and otherwise gives its result |
| `Compressed.ReadCompressedPositions` | src/reader.rs:23-169 | succeeds exactly when `Decompress` does. The positions are then its atoms, including the as-written digits of numbers above 64 bits, and the result is the bytes after the block. The errors agree in kind |
| `Selection.AtomIncluded` | src/selection.rs:39-59 | the index is first truncated to `u32`. `All` answers `Some(true)`. An index list answers `None` exactly when it is empty or its last entry is at most the index, and otherwise whether it holds the index. A mask answers exactly below its length, with its entry there. `Until(u)` answers `Some(true)` exactly up to `u` and `None` after it |
| `Selection.RangeDefault` | src/selection.rs:161-168 | the default range starts at 0, has no end and steps by one |
| `Selection.RangeNew` | src/selection.rs:126-138 | the given end is kept; a given start or step replaces the default one; with nothing given the range is the default |
| `Selection.StepBy` | src/selection.rs:145 | `step_by` keeps no more items than there are, and always the first |
| `Selection.Apply` | src/selection.rs:141-146 | `apply` keeps no more items than there are, and none when the range starts beyond them |
| `Selection.RangeIncluded` | src/selection.rs:148-158 | the answer is `None` exactly beyond the end; otherwise it is `Some(start < idx && (idx + start) % step == 0)` |
| `Selection.FrameIncluded` | src/selection.rs:79-91 | `All` answers `Some(true)`; a range answers as `RangeIncluded`; a frame list answers `None` exactly when it is empty or its last entry is at most the index, and otherwise whether it holds the index |
| `Selection.StepBySpec` | src/selection.rs:145 | `step_by(k)` keeps items `0, k, 2k, ...` and no others: `ceil(len / k)` of them |
| `Selection.ApplySpec` | src/selection.rs:141-146 | `apply` keeps item `start + k step` for each `k` below the count, and every one of them lies below `end` and the length |
| `Selection.ApplyDefault` | src/selection.rs:141-146 | the default range keeps every item |
| `Selection.TestFrameCounts` | tests/selections.rs:90-122 | the frame counts the repository's selection tests expect from 1001 frames |
| `Selection.IncludedDiffersFromApply` | src/selection.rs:141-158 | `is_included` excludes `start` where `apply` keeps it, and still answers at `end` where `apply` has stopped |
| `Selection.OffsetsBelow` | src/selection.rs:141-146 | every item `apply` keeps lies below its stop |
| `Selection.AtomNoneStays` | src/selection.rs:36-59 | once an atom index is beyond the selection, every later one is too |
| `Selection.FrameNoneStays` | src/selection.rs:76-91 | once a frame index is beyond the selection, every later one is too |
| `Selection.AtomsChosen` | src/selection.rs:39-59 | the atoms selected below `n` all lie below `n` |
| `Selection.UntilChosen` | src/selection.rs:51-57 | `Until(u)` selects exactly atoms `0..=u`, so `u + 1` of them |
| `Selection.MaskChosen` | src/selection.rs:50 | a mask selects exactly its `true` positions |
| `Selection.FrameListDropsLast` | src/selection.rs:83-89 | a frame list answers `None` at its own last index |
| `Selection.IndexListDropsLast` | src/selection.rs:43-49 | an atom index list answers `None` at its own last index |
| `Buffers.Source.constructor` | src/buffer.rs:54 | a file with its bytes, position and read size |
| `Buffers.Source.Read` | src/buffer.rs:88 | one `read` fills as much of the slice as the file holds and one call hands out; it returns zero only for an empty slice or at the end, and changes nothing else |
| `Buffers.Source.Unread` | src/buffer.rs:54 | the bytes after the position |
| `Buffers.Source.ReadWord` | src/buffer.rs:97 | the count word, read exactly when four bytes are left |
| `Buffers.Source.Skip` | src/buffer.rs:143 | a forward seek moves the position by the given amount |
| `Buffers.ScratchSize` | src/buffer.rs:100 | the scratch space is the count padded to a multiple of four |
| `Buffers.LoadSteps` | src/buffer.rs:82-89 | the loop never moves `front` back |
| `Buffers.LoadStepsNext` | src/buffer.rs:82-89 | one turn of the loop reads `min(size, index + BLOCK_SIZE) - front` bytes, at most the read size and what is left, and the loop goes on from there |
| `Buffers.WholeLoad` | src/buffer.rs:82-89 | a read size of at least the scratch space loads an empty small scratch space in one turn |
| `Buffers.Refill` | src/buffer.rs:100 | `resize(size, 0xff)` keeps the old scratch bytes below `size` and fills the rest with `0xff` |
| `Buffers.EmptyBlockNeverLoads` | src/buffer.rs:111-113 | for a block of zero bytes, however many turns the loop of `read_to_include(0)` takes, `front` stays at 0, so the loop never ends |
| `Buffers.NoRoomNoLoad` | src/buffer.rs:82-89 | with nothing left to ask for below `index`, the loop makes no progress |
| `Buffers.Buffer.Make` | src/buffer.rs:102-107 | a fresh buffer has nothing loaded and nothing popped |
| `Buffers.Buffer.New` | src/buffer.rs:96-116 | runs out of bytes exactly when the count is missing. It succeeds exactly when the block is empty, larger than `MIN_BUFFERED_SIZE`, or filled by the loads of `read_to_include(count - 1)`. So a small block whose padding runs past the end of the file panics, unless its count is 0. It always succeeds when the padded block lies within the file and one read can hold it. The scratch space is the count padded; a small block is loaded whole; every byte not loaded is the caller's old scratch byte, or `0xff` beyond it. An empty block is not loaded (see Findings) |
| `Buffers.Buffer.Open` | src/buffer.rs:100-116 | the same after the count: the padded scratch space over the old one, and for a small block the loads and the check that they filled it |
| `Buffers.Buffer.LoadSmall` | src/buffer.rs:111-113 | the loads fill the scratch space exactly when `LoadSteps` ends at its size, and always when the file holds the padded block and one read can hold it |
| `Buffers.Buffer.ReadToInclude` | src/buffer.rs:81-92 | afterwards `index < front`, `front` is where `LoadSteps` ends, and every loaded byte equals the file's byte |
| `Buffers.Buffer.LoadTowards` | src/buffer.rs:82-89 | one turn of the loop moves `front` forwards and is `LoadSteps` one step on |
| `Buffers.Buffer.Load` | src/buffer.rs:87-88 | one read moves `front` by what the file delivers, bounded by `until`, the read size and what is left |
| `Buffers.Buffer.Pop` | src/buffer.rs:120-136 | pop gives the block's byte at `head`, which is the file's byte there, and advances `head` by one |
| `Buffers.Buffer.Finish` | src/buffer.rs:142-145 | finish leaves the file at the end of the block |
| `Buffers.UnBuffered.Make` | src/buffer.rs:157 | a fresh unbuffered reader holds the block with nothing popped |
| `Buffers.UnBuffered.New` | src/buffer.rs:155-158 | succeeds exactly when `read_opaque` does, holding its data, and consumes the count and the padded block |
| `Buffers.UnBuffered.Pop` | src/buffer.rs:161-170 | pop gives the byte at `head` and advances it by one |
| `Buffers.UnBuffered.Finish` | src/buffer.rs:176-178 | finish changes nothing |
| `Buffers.SameBlock` | src/buffer.rs:95-178 | both readers hand out the same bytes: the padded block after the count |
| `Xtc.HeaderBytes` | src/lib.rs:44-56 | a header takes 56 bytes |
| `Xtc.ReadFrameHeader` | src/lib.rs:44-57 | a header read consumes 56 bytes. The input is then the magic number followed by the valid header's encoding, and the repeated count matches |
| `Xtc.HeaderEofIsShort` | src/lib.rs:44-57 | a header read runs out of bytes only on fewer than 56 bytes |
| `Xtc.HeaderSplit` | src/lib.rs:44-57 | the six reads of the header together cover its 56 bytes |
| `Xtc.ReadHeaderOfWritten` | src/lib.rs:44-57 | a written header reads back as itself |
| `Xtc.ReadCompressedFrame` | src/lib.rs:66-69 | the definition of the compressed positions read: the precision, then `Decompress`; `CompressedFrameShape` states its shape |
| `Xtc.ReadPositions` | src/lib.rs:60-69 | the definition of the positions read: plain floats for at most nine atoms, compressed otherwise; `PositionsShape` states its shape |
| `Xtc.ParseFrame` | src/lib.rs:40-78 | the definition of `read_frame` on values: the header, then the positions; `FrameShape` states its shape |
| `Xtc.CompressedFrameShape` | src/lib.rs:66-69 | compressed positions fill `3 n` entries and consume at least the precision and the block's 32-byte start |
| `Xtc.PositionsShape` | src/lib.rs:60-69 | read positions fill `3 n` entries and leave the rest of the input: `12 n` bytes for at most nine atoms, at least 36 bytes otherwise |
| `Xtc.FrameShape` | src/lib.rs:40-78 | a frame read has read its header and `3 natoms` positions and leaves exactly what follows them |
| `Xtc.ReadSmallFrameOfWritten` | src/lib.rs:61-65 | a written frame of at most nine atoms reads back as its header fields and positions |
| `Xtc.Frame.constructor` | src/lib.rs:12-19 | `Frame::default()` has step 0, time 0 and no positions. Its box is glam's `Mat3::default()`, the identity: 1.0 (`0x3f80_0000`) on the diagonal and 0 elsewhere |
| `Xtc.Resize` | src/lib.rs:60 | `resize` keeps the first `n` values and zero-fills after them |
| `Xtc.XtcReader.constructor` | src/lib.rs:31-37 | a new reader holds the file, no frames and step 0 |
| `Xtc.XtcReader.ReadFrame` | src/lib.rs:40-78 | succeeds exactly when `ParseFrame` does. On success the frame holds what was read, the file is left at the next frame and `step` goes up by one. On failure the step, time, box and counter are kept, and the error kinds agree |
| `Xtc.ReadPositionsInto` | src/lib.rs:60-69 | the resize and the plain or compressed read succeed exactly when `ReadPositions` does and then hold its positions; other frame fields are kept |
| `Filter.Scan` | src/main.rs:19-20 | the digits are scanned left to right and a result is below the limit |
| `Filter.ParseUnsigned` | src/main.rs:19-20 | a parsed number is below the limit of its type |
| `Filter.ParseDecimal` | src/main.rs:19-20 | parsing a number's decimal digits gives the number when it fits and an overflow otherwise |
| `Filter.ScanDecimal` | src/main.rs:19-20 | scanning a number's digits gives the number when it fits and an overflow otherwise |
| `Filter.ScanSnoc` | src/main.rs:19-20 | scanning one more character continues where the prefix's scan ended |
| `Filter.Decimal` | src/main.rs:19-20 | a number's decimal form is nonempty and all digits |
| `Filter.Split` | src/main.rs:18 | splitting yields at least one component |
| `Filter.SplitPlain` | src/main.rs:18 | a string without the separator splits into itself |
| `Filter.SplitJoin` | src/main.rs:18 | a component followed by the separator splits off first |
| `Filter.SplitThree` | src/main.rs:18 | three components joined by `:` split back into the three |
| `Filter.SplitFour` | src/main.rs:18 | with more components, the first three split off and the rest splits on its own |
| `Filter.Component` | src/main.rs:19-20 | a present component is the parse of that piece, and a missing one is `None` |
| `Filter.ParseStep` | src/main.rs:21-24 | a step parses exactly when the string is a `u64` other than zero; zero is refused with its own error |
| `Filter.StepComponent` | src/main.rs:21-24 | with fewer than three components, no step is given |
| `Filter.FrameParserFull` | src/main.rs:17-26 | `a:b:k` gives the range from `a` to `b` by `k` |
| `Filter.FrameParserStart` | src/main.rs:17-26 | a bare number is a start with the default end and step |
| `Filter.FrameParserIgnoresRest` | src/main.rs:18-24 | components after the third are not parsed |
| `Filter.FrameParserEmptyStart` | src/main.rs:19 | an empty start, as in `:100`, fails |
| `Filter.FrameParserZeroStep` | src/main.rs:21-24 | a step of zero is refused |
| `Filter.FrameSelectionParser` | src/main.rs:17-26 | a parsed frame selection is a range; without a `:` it has no end and steps by one |
| `Filter.AtomSelectionParser` | src/main.rs:28-31 | an atom selection parses exactly when the string is a `u32`, and is then `Until` that number |
| `Filter.AtomParserDecimal` | src/main.rs:28-31 | a number is `Until` that number when it fits a `u32`, and an overflow otherwise |
| `Filter.Decide` | src/main.rs:139-145 | a frame is written exactly when it is included, and the loop stops exactly at `None` going backwards |
| `Filter.At` | src/main.rs:129-136 | every index the loop visits, forwards or backwards, is a frame of the trajectory |
| `Filter.CompressedSnoc` | src/main.rs:189 | each compressed frame written adds one to the count of step bumps |
| `Filter.FilterFrames` | src/main.rs:129-191 | the loop writes the frames `Chosen` lists, in that order, until the first whose read or write fails, and returns that failure (`Attempt`). It bumps the reader's step once per compressed frame written unless it only reports |
| `Filter.FilterTurn` | src/main.rs:129-191 | one turn of the loop either ends it with `Attempt`'s outcome or keeps the loop's invariant one frame on, bumping the step for a compressed frame written |
| `Filter.Attempt` | src/main.rs:139-191 | the frames got through are never more than those chosen |
| `Filter.AttemptFirstFailure` | src/main.rs:139-191 | the frames got through are a prefix of those chosen, each of which succeeds; all of them exactly when the outcome is `Ok`, and otherwise the outcome is the failure of the next chosen frame |
| `Filter.AttemptFromStep` | src/main.rs:129-191 | the outcome from frame `k` on: nothing at a stop, the rest at a skip, that frame's failure, or that frame followed by the rest |
| `Filter.ResumesStep` | src/main.rs:129-191 | the loop invariant survives each kind of turn, and at a stop or failure the loop's outcome is `Attempt`'s |
| `Filter.ResumesEnds` | src/main.rs:129-191 | the loop invariant holds with nothing written at the first frame, and once every frame has been asked about, what was written is all that `Attempt` gets through, with no error |
| `Filter.ChosenIncluded` | src/main.rs:129-145 | every frame written is included by the selection, and the frames come out in increasing order forwards, decreasing backwards |
| `Filter.ConsIncreasing` | src/main.rs:129-136 | a smaller frame ahead keeps the list increasing |
| `Filter.ConsDecreasing` | src/main.rs:129-136 | a larger frame ahead keeps the list decreasing |
| `Filter.ForwardChosen` | src/main.rs:139-145 | going forwards, a frame is written exactly when the selection includes it |
| `Filter.ReversedStopsAtFirst` | src/main.rs:143-144 | going backwards, a last frame beyond the selection means nothing is written |
| `Filter.ReversedChosen` | src/main.rs:139-145 | going backwards from within the selection, a frame is written exactly when included |
| `Filter.ReversedInScope` | src/main.rs:129-145 | backwards from within the selection, the frames written are exactly those included, in decreasing order |
| `Filter.ForwardInScope` | src/main.rs:129-145 | forwards, the frames written are exactly those included, in increasing order |
| `Filter.InScopeBelow` | src/selection.rs:79-91 | a frame before one within the selection is within it too |
| `Filter.Rewrite` | src/main.rs:200-205 | the rewritten header sets both atom counts and keeps every other field |
| `Filter.WriteFrame` | src/main.rs:195-243 | writing fails only for a compressed frame, and runs out of bytes exactly when the prelude or the kept bytes are missing |
| `Filter.OldCount` | src/main.rs:228-231 | the old byte count is a `u32` |
| `Filter.WriteSmallFrameReadsBack` | src/main.rs:209-213 | a small frame written reads back as the rewritten header followed by the positions |
| `Filter.WriteCompressedFrameReadsBack` | src/main.rs:214-243 | a compressed frame written reads back as the rewritten header, the copied precision and prelude, and a shortened block no larger than the old one |
| `Filter.CompressedTailReadsBack` | src/main.rs:218-242 | the copied tail keeps the prelude, and its block reads back as the first `nbytes` old bytes, zero padded |
| `Filter.CopiedBlock` | src/main.rs:237-242 | opaque data written after a prelude reads back after it |
| `Filter.ShrunkBlockFits` | src/main.rs:232-242 | a block no longer than the old one, padded, is no longer than the old one padded |

## Left out

- Floating point: the scaling of each position by `1 / precision`, `f32::from_be_bytes`, and the three-decimal formatting of times. Floats are kept as their bit patterns, and a decoded position is its integer coordinate.
- The `i32` overflow of `thiscoord[i] += minint[i]` and `+= prevcoord[i] - smallnum` in the decode loop: coordinates are unbounded integers.
- The panic messages: every panic of the decode loop is one `Panic` outcome.
- Positions on a failed read: after a failure the model only says that the positions have the resized length or are unchanged. Their contents are not specified.
- `Selection.RangeIncluded`: requires `idx + start < 2^64`. The `u64` overflow of that sum is not modelled.
- `Buffers.Buffer.ReadToInclude`: requires the file to hold the bytes up to `index`. At the end of the file a `read` delivers nothing and the source loop never ends; only that hang is left out.
- `Buffers.Buffer.New`: for a block of at most `MIN_BUFFERED_SIZE` bytes, requires its `count` data bytes to lie within the file. With fewer bytes left, `read_to_include(count - 1)` would never end. A larger block, and padding cut off by the end of the file, are modelled.
- `Buffers.Buffer.Open`: requires the same of the bytes after the count, for the same reason.
- `Buffers.Buffer.LoadSmall`: requires the `count` data bytes to lie within the file, for the same reason.
- `Buffers.Buffer.Pop`: requires `head` to lie within the block and the file, where the source would hang or panic.
- I/O errors other than running out of bytes are left out, and seeks are positions in a byte sequence. The file is a `Source` over a byte sequence; the standard library's `Read` and `Seek` are not part of this model.
- `Xtc.XtcReader.ReadFrame`: promises nothing about the file position after a failed read.
- `Filter.FilterFrames`: whether each frame's seek, reads and writes succeed is a parameter. A failing frame never bumps the reader's step, whereas the source has already bumped it when a compressed frame fails after `read_positions` (src/main.rs:181). The output already written for a failing frame is not modelled.
- `Xtc.Frame.constructor`: glam is not part of this model; its `Mat3::default()` is taken to be the identity.
- `filter_frames` calls helpers whose source is not part of this model, so their results become parameters of `Filter.FilterFrames` and `Filter.WriteFrame`:
  - `determine_offsets`: the number of frame offsets is the length of `natoms`.
  - `read_header`.
  - `read_positions` and `read_smol_positions`: the atom count of each frame and the compressed byte count `nbytes`.
  - `frame.natoms()`.
  - `Header::to_be_bytes`: taken as the header's field order.
  - `NBYTES_POSITIONS_PRELUDE`: taken as 28 bytes, the size of the block header before its byte count.
  - `padding`: taken as the same expression as in `read_opaque`.
- Printing of times and steps to standard output, and writing to the output file: the frames written are returned as values.
- The command-line argument handling of `src/main.rs` beyond the two selection parsers.
- The Python bindings, benchmarks, examples and tests. The frame counts of `tests/selections.rs` are restated in `Selection.TestFrameCounts`.
- `Selection.RangeNew`: takes the step as a positive number (`NonZeroU64`), so a zero step cannot be built. The parser's zero-step error is modelled in `Filter.ParseStep`.

## Findings

| source | as written | input that shows it | evidently intended | confidence | as-written member | corrected member |
|---|---|---|---|---|---|---|
| src/reader.rs:362-374 | for more than 64 bits `decodeints` divides by `sizes[1]` and then `sizes[0]` (`(0..2).rev()`). It overwrites `nums[0]` with the quotient and never sets `nums[2]`. The decode loop of the model keeps these digits, as the program does. | three sizes of `2^22`, which the run loop uses for `smallidx = 66` and a 66-bit number, and the value 1: the code gives `[0, 1, old]` | divide by `sizes[2]`, then `sizes[1]`, storing the remainders in `nums[2]` and `nums[1]`, with the quotient in `nums[0]`: `[0, 0, 1]` | not executed | `DecodeInts.AsWrittenLosesLastDigit` | `DecodeInts.DecodeLarge` |
| src/buffer.rs:111-113 | `Buffer::new` on a block whose count is 0 calls `read_to_include(0)` on empty scratch space. Every read is of an empty slice, so `index >= front` stays true and the loop of lines 82-89 never ends. | a compressed block with count field 0, read with the buffered reader | an empty block needs no load | not executed | `Buffers.EmptyBlockNeverLoads` | `Buffers.Buffer.New` |
