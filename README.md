# DCL decoder, modelled and verified in Dafny

`DclDecoder` (Program.cs) converts DCL picture files into 640×480 RGB images.
Each file is read as one block of 0xE1000 (921,600) bytes. The first byte is a
tag that selects one of two compressed formats. Decoding starts at byte 2.
Byte 1 is never looked at.

- **'L'** is a literal/back-reference stream. A 1 flag bit is followed by
  an 8-bit literal byte. A 0 flag bit is followed by a 16-bit offset. An
  offset of 0 ends the stream. Any other offset is followed by a 4-bit
  field: `length = field + 2`, and the copy runs `length + 1` turns. Every
  appended byte is also stored in a 65,536-byte lookup table, at the new
  output length `& 0xFFFF`. Turn `i` of a copy reads the table at
  `(i + offset) & 0xFFFF`.
- **'P'** is a run-length and colour-stamp format.
  - A 2-bit command gives the run length: 0, 1, `2 + 2 bits`, or, after
    a unary prefix, a variable-width number.
  - A width of 24 or more ends the picture.
  - Each run skips that many pixels.
  - A literal 24-bit colour is written at the next pixel.
  - A flag bit may start a stamp, which copies that colour at strides of
    1914, 1917, 1920, 1923 or 1926 bytes (about one scanline).
  - A final gap-fill pass replaces every (0,0,0) pixel with the colour
    carried from the nearest earlier pixel that is not (0,0,0).

Bits are read most-significant first through a cursor: a byte position and a
one-bit mask, `ReadBit` and `ReadBits`.

## How the model is built

**Reference functions.** Each format's meaning is written as functions on
sequences:
- `BitCursor.BitAt` and `BitCursor.BitsValue` for the bit stream;
- `FormatL.Decode` for 'L';
- the small-step `FormatP.MainTurn` and `FormatP.Main`, plus `GapFill.Filled`, for 'P';
- `Decoder.DecodeBlock` for the tag dispatch.

**Imperative methods.** The C# methods keep their imperative shape:
- the cursor methods `ReadBit` and `ReadBits`;
- the class `Decoder.DclDecoder`, with its `lookupTable` array field,
  `DecodeLFormat`, `DecodePFormat` and `DecodeFile`;
- the in-place gap-fill loop `GapFill.FillGaps`;
- the 'P' step methods in `PSteps`.

Each method is proved equal to its reference function. Its loops carry "the
rest of the decode from here equals the whole decode" invariants.

**Properties.** The format properties are lemmas about the reference
functions.

**Errors.** An out-of-range index in the C# code is an error result here:
- `StreamOverrun` when a read goes past the input block;
- `DecodeOverflow` when 'L' would write past the output buffer;
- `UnsupportedFormat` for an unknown tag, which the C# code throws as
  `InvalidDataException`.

**Behaviour of Program.cs worth knowing:**
- The gap-fill carry starts as the colour of the last literal pixel
  (`lastR/G/B`, set at lines 169-171 and read at 218-220), not as (0,0,0).
  So (0,0,0) pixels before the first coloured pixel take that last literal
  colour (`GapFill.NearestWhenAllBlack`).
- No bounds check guards the bit cursor. A 'P' block whose payload is all
  zero bits needs 27 bits per pixel and runs off the end of the block, so
  it ends in `StreamOverrun`.
- The lookup table is one field of the decoder object (line 15). It is
  zeroed when the object is created and never again. See Findings.

## Model

| member | source | states |
|---|---|---|
| BitCursor.BitAt | Program.cs:234 | the definition: bit `k` of the stream is bit `7 - k % 8` of byte `k / 8`, the order in which the mask `128, 64, ..., 1` tests a byte |
| BitCursor.Step | Program.cs:235-240 | the definition: `bitBuffer >>= 1`, and when that leaves 0, mask 128 on the next byte |
| BitCursor.ByteAt | Program.cs:98 | the definition: `(byte)ReadBits(8, ...)` is the 8-bit value `BitsValue` gives, which the cast never truncates |
| BitCursor.BitsValue | Program.cs:244-267 | the number that `n` bits read MSB-first denote is below 2^n |
| BitCursor.MaskedBitIsBitAt | Program.cs:234 | `input[position] & bitBuffer` is non-zero exactly when the stream bit at the cursor's offset is set |
| BitCursor.ReadBit | Program.cs:232-242 | fails exactly past the end of the input; otherwise returns the bit at the cursor, moves the mask one place right, and wraps to 128 at the next byte after mask 1 (offset + 1) |
| BitCursor.StepAdvancesOneBit | Program.cs:232-242 | one ReadBit step keeps the cursor valid and advances its bit offset by exactly 1 |
| BitCursor.StepNAdvances | Program.cs:232-242 | `n` ReadBit steps advance the bit offset by exactly `n` |
| BitCursor.StepNIsCursorAt | Program.cs:232-242 | `n` ReadBit steps reach the unique cursor at offset + n |
| BitCursor.EightStepsOneByte | Program.cs:232-242 | eight ReadBit steps move the position one byte on and restore the mask |
| BitCursor.SameOffsetSameCursor | Program.cs:232-242 | two valid cursors at the same bit offset are the same position and mask |
| BitCursor.ReadBits | Program.cs:244-267 | fails exactly when `count` bits are not left; otherwise returns the `count` bits MSB-first (first bit read is bit count-1), below 2^count (the bound of `BitsValue`), with the cursor `count` bits on, where `count` ReadBit calls leave it |
| FormatL.Emit | Program.cs:99-100 | the definition of one append, shared with lines 112-113: the byte goes to `output[outputPos]`, then to table slot `(outputPos + 1) & 0xFFFF` |
| FormatL.DecodeLiteral | Program.cs:96-101 | a 1 flag bit: overrun without 8 more bits, overflow into a full buffer, otherwise append the byte and go on; fails only by those two errors |
| FormatL.DecodeReference | Program.cs:103-114 | a 0 flag bit: the offset, the end at offset 0, otherwise the field and the copy, then go on; fails only by StreamOverrun or DecodeOverflow |
| FormatL.ReferenceAt | Program.cs:103-107 | the definition: the 16-bit offset after the flag, 0 meaning the end, otherwise with `length = field + 2` from the next 4 bits; a code cut short by the block's end is an overrun |
| FormatL.Expand | Program.cs:107-114 | a copy fails only by writing past the output (DecodeOverflow) and keeps the buffer and table sizes |
| FormatL.Decode | Program.cs:88-118 | the 'L' decoder from a bit offset: fails only by StreamOverrun or DecodeOverflow, keeping buffer and table sizes |
| FormatL.LiteralStep | Program.cs:96-101 | a 1 flag bit appends the next 8 bits as one byte (also stored in the table) and decoding resumes 9 bits on |
| FormatL.LiteralOverrun | Program.cs:96-98 | a 1 flag bit without 8 more bits in the block is a StreamOverrun |
| FormatL.LiteralOverflow | Program.cs:96-99 | a literal into a full output buffer is a DecodeOverflow |
| FormatL.ReferenceStep | Program.cs:103-114 | after a 0 flag bit, a cut-short code is an overrun, offset 0 ends the stream with nothing changed, and any other offset copies `field + 3` bytes, resuming 21 bits on |
| FormatL.EndStep | Program.cs:103-105 | a 0 flag bit then a 16-bit zero offset ends the decode with the output as it stands |
| FormatL.BackReferenceStep | Program.cs:103-114 | a 0 flag bit with a non-zero offset runs the copy loop for `length = field + 2` (turns 0..length) then continues after the 21 bits |
| FormatL.EmitMirrors | Program.cs:99-100 | appending a byte and storing it at the new length & 0xFFFF keeps the table a mirror of the last 65,536 output bytes |
| FormatL.ExpandAppends | Program.cs:109-114 | a copy of turns i..last appends exactly last+1-i bytes, fails with DecodeOverflow exactly when they do not fit, and leaves the other bytes alone |
| FormatL.ExpandMirrors | Program.cs:109-114 | the copy loop keeps the table a mirror of the output |
| FormatL.ExpandCopiesFromOutput | Program.cs:111-113 | a copy turn whose table slot belongs to an earlier output byte copies that byte, even one the same copy wrote |
| FormatL.ExpandCopiesStaleSlot | Program.cs:111-113 | a copy turn whose slot no output length has reached yet copies the table's old contents |
| FormatL.ExpandIsBackReference | Program.cs:103-114 | every byte of a copy repeats the byte `dist = ((len - offset) mod 65536) + 1` places back in the output, or the old table byte when that lies before the output start |
| FormatL.DecodeMirrors | Program.cs:88-118 | however the stream runs, a successful decode leaves the table mirroring the output's last 65,536 bytes |
| FormatL.DecodeAppends | Program.cs:88-118 | decoding only appends: bytes before the start length and from the final length on are unchanged |
| FormatL.DecodeEndsAtZeroOffset | Program.cs:94-115 | a decode that succeeds returns exactly the progress that some sequence of decoder turns (literals and non-zero-offset back-references, per `Reaches`) leads to, at a flag bit holding the end code (a 0 flag bit and a 16-bit zero offset) |
| FormatL.ReachedEndCodeDecodes | Program.cs:94-115 | conversely, turns that reach a flag bit holding the end code make the decode succeed with the progress they reached |
| FormatP.Ones | Program.cs:141-143 | the unary prefix counted by the `bits++` loop lies within the block |
| FormatP.RunCodeAt | Program.cs:130-154 | a run-length code read at k ends after k and within the block; the only failure is StreamOverrun |
| FormatP.ExtendedRun | Program.cs:139-149 | the command-3 code ends within the block; the only failure is StreamOverrun |
| FormatP.StampCodeAt | Program.cs:179-197 | a stamp code ends within the block; the only failure is StreamOverrun |
| FormatP.Colour | Program.cs:161-163 | the definition: red, green and blue as three consecutive 8-bit values |
| FormatP.PutPixel | Program.cs:165-167 | writing a pixel keeps the buffer size |
| FormatP.Stamp | Program.cs:173-208 | the stamp loop keeps the buffer size, ends within the block, and fails only by StreamOverrun |
| FormatP.MainTurn | Program.cs:128-171 | one main-loop turn keeps the buffer at 640·480·3 bytes and `outputPos` a multiple of 3; a turn that goes on has read bits and moved `outputPos` forward |
| FormatP.PixelTurn | Program.cs:161-171 | a literal pixel turn reads bits and moves `outputPos` one pixel on |
| FormatP.FlagTurn | Program.cs:173-210 | the stamp flag turn moves `outputPos` exactly one pixel, whatever the stamp did, and keeps the last colour |
| FormatP.Main | Program.cs:128-211 | the main loop leaves a whole-pixel `outputPos` no earlier than it started, and fails only by StreamOverrun |
| FormatP.DecodeP | Program.cs:120-231 | the 'P' decoder yields exactly 640·480·3 bytes or a StreamOverrun |
| FormatP.RunCodeMeaning | Program.cs:130-154 | commands 0/1 are lengths 0/1, command 2 exactly the lengths 2..5, command 3 the lengths ≥ 6 with 2^bits ≤ length+2 < 2^(bits+1); width ≥ 24 is exactly the end-of-image code |
| FormatP.StampStrides | Program.cs:179-197 | every stamp stride is one of 1914, 1917, 1920, 1923, 1926: a whole pixel count within two pixels of a 640-pixel line; a stamp code takes 2 to 4 bits |
| FormatP.StampWrites | Program.cs:173-208 | a stamp changes only bytes at least 1914 past the pixel, and there writes the stamp colour's component matching the byte's place in its pixel |
| FormatP.MainContinues | Program.cs:128-211 | a turn that goes on leaves the rest of the main loop to decide the result |
| FormatP.MainFinishes | Program.cs:145-159 | a turn that ends the loop (end code or run past the picture) gives the main loop's result |
| FormatP.MainFails | Program.cs:128-211 | an overrun in a turn is the main loop's overrun |
| FormatP.MainLeftPicture | Program.cs:128 | once `outputPos` has reached the picture's end the loop stops with the state as it is |
| GapFill.Nearest | Program.cs:213-228 | the definition of the carry `lastR/G/B` on reaching pixel `j`: the last earlier pixel that is not (0,0,0), or the starting carry |
| GapFill.Filled | Program.cs:213-228 | the reference picture after the pass, built pixel by pixel; it keeps the buffer length (its meaning is stated by `FilledPixel`) |
| GapFill.FilledPixel | Program.cs:213-228 | after the pass, a (0,0,0) pixel holds the colour of the nearest earlier non-(0,0,0) pixel (or the starting carry), and every other pixel is unchanged |
| GapFill.NearestWhenAllBlack | Program.cs:213-228 | with only (0,0,0) pixels before it, a gap takes the starting carry (the last literal colour) |
| GapFill.NearestIsLastColour | Program.cs:213-228 | otherwise a gap takes the colour of the last earlier pixel that is not (0,0,0) |
| GapFill.NearestNotBlack | Program.cs:213-228 | with a coloured starting carry, the carried colour is never (0,0,0) |
| GapFill.NoGapsLeft | Program.cs:213-228 | started with a colour other than (0,0,0), the pass leaves no (0,0,0) pixel |
| GapFill.NearestOfFilled | Program.cs:213-228 | the pass does not change the colour carried into any pixel |
| GapFill.FilledIdempotent | Program.cs:213-228 | a second pass with the same carry changes nothing |
| GapFill.RepairPixel | Program.cs:216-227 | one turn: a (0,0,0) pixel takes the carry, any other pixel is kept and becomes the carry; no other byte changes |
| GapFill.FillGaps | Program.cs:213-228 | the in-place loop leaves the buffer equal to the gap-filled picture of its old contents |
| PSteps.ReadRunCode | Program.cs:130-154 | reads the run-length code the reference defines, the cursor left at its end |
| PSteps.ReadExtendedRun | Program.cs:139-149 | reads the command-3 code the reference defines, the cursor left at its end |
| PSteps.ReadWidth | Program.cs:141-146 | the `bits++` loop yields 3 plus the number of leading 1 bits, consuming them and the 0 after them; fails exactly when that 0 is missing |
| PSteps.ReadStampCode | Program.cs:179-197 | reads the stamp code the reference defines, the cursor left at its end |
| PSteps.Paint | Program.cs:203-205 | writes the three colour bytes at the position and nothing else |
| PSteps.StampLoop | Program.cs:173-208 | the in-place stamp loop does what the reference stamp does, to the buffer and the cursor |
| PSteps.ReadColour | Program.cs:161-163 | reads r, g, b as three 8-bit fields, failing exactly when 24 bits are not left |
| PSteps.LiteralPixel | Program.cs:161-210 | a literal pixel turn in place equals the reference turn |
| PSteps.FlagAndStamp | Program.cs:173-210 | the flag-and-stamp turn in place equals the reference turn |
| PSteps.MainTurnStep | Program.cs:128-210 | one main-loop turn in place equals the reference turn: state, cursor and whether the loop ends |
| PSteps.Clear | Program.cs:122 | `Array.Clear` leaves every byte 0 |
| HeaderFrame.DecodePPayload | Program.cs:120-231 | two blocks that agree from byte 2 on give the same 'P' decode |
| HeaderFrame.DecodeLPayload | Program.cs:88-118 | two blocks that agree from byte 2 on give the same 'L' decode, for any start state |
| HeaderFrame.MainPayload | Program.cs:128-211 | the 'P' main loop reads nothing before byte 2 |
| Decoder.DecodeBlock | Program.cs:52-65 | a successful decode gives a 921,600-byte buffer and a 65,536-byte table; anything but 'L' leaves the table unchanged |
| Decoder.UnsupportedExactlyForOtherTags | Program.cs:52-65 | the result is UnsupportedFormat exactly when the tag is neither 'L' nor 'P' |
| Decoder.ByteOneIgnored | Program.cs:52-65 | changing byte 1 of the block never changes the result of decoding it |
| Decoder.DclDecoder.constructor | Program.cs:15 | a new decoder has a zeroed 65,536-byte lookup table |
| Decoder.DclDecoder.Literal | Program.cs:98-99 | one turn of the literal loop after a 1 flag bit equals the reference literal step: the 8-bit read, its overrun and overflow cases, and the append |
| Decoder.DclDecoder.Put | Program.cs:98-100 | storing a literal is exactly the reference append: output byte and table slot at the new length |
| Decoder.DclDecoder.CopyBackReference | Program.cs:109-114 | the in-place copy loop equals the reference copy, including its DecodeOverflow case |
| Decoder.DclDecoder.LiteralRun | Program.cs:96-101 | the inner literal loop leaves the rest of the decode unchanged and stops at a 0 flag bit |
| Decoder.DclDecoder.ReadReference | Program.cs:103-107 | reads the offset and length field the reference defines, the cursor 17 or 21 bits past the flag |
| Decoder.DclDecoder.BackReference | Program.cs:103-114 | the back-reference step in place leaves the rest of the decode unchanged and says when the stream has ended |
| Decoder.DclDecoder.DecodeLFormat | Program.cs:88-118 | the decoder's result, output buffer and lookup table are those of the reference 'L' decode from byte 2 |
| Decoder.DclDecoder.DecodePFormat | Program.cs:120-231 | the decoder's result and buffer are those of the reference 'P' decode (main loop, then gap-fill) |
| Decoder.DclDecoder.DecodeFile | Program.cs:42-65 | dispatches on the tag byte into a fresh zeroed buffer: the result and new table are the block's decode with the table the earlier files left; a non-'L' file leaves the table alone |
| Decoder.DclDecoder.DecodeFileFresh | Program.cs:15 | with the table zeroed first, the result is the block's decode from a zeroed table, whatever was decoded before |
| WorkedCases.EndCodeFirst | Program.cs:103-105 | an 'L' block that opens with a 0 flag and a zero offset decodes to the all-zero buffer, with the table unchanged |
| WorkedCases.EmptyLFileDecodesToZeros | Program.cs:44-65 | the 'L' block of the header and an immediate end code decodes without error to 921,600 zero bytes |
| WorkedCases.GapsTakeEarlierColour | Program.cs:213-228 | pixels (10,20,30), (0,0,0), (0,0,0), (40,50,60) fill to (10,20,30) three times, then (40,50,60) |
| WorkedCases.LeadingGapTakesCarry | Program.cs:213-228 | a (0,0,0) pixel before any coloured pixel takes the starting carry, not (0,0,0) |
| TableLeak.OneLiteralFillsSlotOne | Program.cs:96-101 | an 'L' file whose stream is one non-zero literal and an end code leaves a non-zero byte in table slot 1 |
| TableLeak.CopyOfSlotOne | Program.cs:103-114 | an 'L' file whose stream is a back-reference of offset 1 then an end code decodes its first byte from table slot 1 |
| TableLeak.TableLeaksAcrossFiles | Program.cs:15 | the same file decodes to different bytes after another file than from a zeroed table |

## Left out

- `ConvertDirectory` (Program.cs:17-40) is not modelled: the directory listing, the per-file try/catch and log line, the vertical flip and the `.bmp` save are file-system and ImageSharp I/O. The class `Program` and its entry point are left out for the same reason.
- Reading the file (Program.cs:44-50) is I/O. The block is a parameter of exactly 0xE1000 bytes. A shorter file, which `fs.Read` leaves zero-padded, is whatever block the caller passes.
- Building the `Image<Rgb24>` with its BGR-to-RGB swap (Program.cs:67-84) is image-library code and is left out. `DecodeFile` returns the decoded buffer.
- Decoder.DclDecoder.DecodeFile: on an error it states only the error. After a failed 'L' decode the lookup table is left unstated, although in the C# code the partly updated table carries over to the next file.
- Decoder.DclDecoder.DecodeLFormat: on an error it states only the error, not the partial output or lookup-table contents left when the C# code throws part-way.
- Decoder.DclDecoder.DecodePFormat: on an error it states only the error, not the partial output (which the C# caller discards with the exception).
- `Decoder.DclDecoder.DecodePFormat`: requires an output buffer of 640·480·3 bytes. That is the only buffer `DecodeFile` passes (BUFFER_SIZE equals it). Other buffer lengths are not modelled.
- `PSteps.ReadStampCode`: the `default: goto EndLoop` case (Program.cs:195-196) cannot be reached, because a 2-bit field is below 4. The model has no such branch.
- `BitCursor.ReadBits`: its ensures gives the returned cursor by its bit offset. That this is the cursor `count` calls to `ReadBit` reach follows from `BitCursor.StepNAdvances` and `BitCursor.SameOffsetSameCursor`; it is not restated in the ensures.
- `FormatP.StampWrites`: bounds which bytes a stamp may change and what it writes there. It does not list the exact positions written.
- The C# `int` arithmetic is modelled with unbounded integers. No value in the decoders comes near 2^31: `outputPos` stays below 921,600 + 3·2^24 (a run of up to 2^24 − 3 pixels added to a position inside the picture), the stamp position below 921,600 plus one stride, and run lengths below 2^24.
- The input block is read-only in the C# code, so it is modelled as an immutable sequence rather than an array.

## Findings

| source | as written | input that shows it | evidently intended | confidence | as-written member | corrected member |
|---|---|---|---|---|---|---|
| Program.cs:15 | the lookup table is a field of the decoder, zeroed only when the decoder is created; `ConvertDirectory` decodes every file with the same decoder, so each 'L' file starts from the table the previous files left | `TableLeak.LeakingFile` (tag 'L', one literal byte 0x01 then an end code), then `TableLeak.ReadingFile` (tag 'L', a back-reference with offset 1 and field 0, then an end code): the reading file's first byte is 0x01 after the leaking file but 0 from a zeroed table | every file decoded from a freshly zeroed lookup table, so a file's pixels depend on its own bytes alone | high; not executed | TableLeak.TableLeaksAcrossFiles | Decoder.DclDecoder.DecodeFileFresh |
