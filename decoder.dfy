/** The decoder object: the tag dispatch of `DecodeFile` and the two
    decoders as they run in place on the C# buffers. Each method is proved
    to compute what the reference functions of FormatL and FormatP say. */
module Decoder {
  import opened DclTypes
  import opened BitCursor
  import FormatL
  import FormatP
  import PSteps
  import GapFill
  import HeaderFrame

  /** `BUFFER_SIZE`: the size of the block read from a file and of the
      decoded pixel buffer. */
  const BufferSize := 0xE1000

  /** The tag byte values: `'L'` and `'P'`. */
  const TagL: Byte := 76
  const TagP: Byte := 80

  /** A decoded file: the pixel buffer `DecodeFile` hands on, and the lookup
      table as the decode leaves it for the next file. */
  datatype Decoded = Decoded(data: seq<Byte>, table: seq<Byte>)

  /** `DecodeFile` on a block read from a file, given the lookup table as
      earlier files left it: the tag byte 0 selects the decoder, which
      writes into a fresh zeroed buffer of `BufferSize` bytes; any other tag
      is an unsupported format. */
  function DecodeBlock(input: seq<Byte>, table: seq<Byte>): (r: Result<Decoded>)
    requires |input| == BufferSize && |table| == FormatL.TableSize
    ensures r.Ok? ==> |r.value.data| == BufferSize && |r.value.table| == FormatL.TableSize
    ensures r.Ok? && input[0] != TagL ==> r.value.table == table
  {
    if input[0] == TagL then
      match FormatL.Decode(input, Offset(Start), FormatL.Progress(Zeros(BufferSize), 0, table))
      case Err(e) => Err(e)
      case Ok(p) => Ok(Decoded(p.out, p.table))
    else if input[0] == TagP then
      match FormatP.DecodeP(input)
      case Err(e) => Err(e)
      case Ok(d) => Ok(Decoded(d, table))
    else Err(UnsupportedFormat)
  }

  /** A file is rejected as unsupported exactly when its tag is neither 'L'
      nor 'P': neither decoder reports that error. */
  lemma UnsupportedExactlyForOtherTags(input: seq<Byte>, table: seq<Byte>)
    requires |input| == BufferSize && |table| == FormatL.TableSize
    ensures DecodeBlock(input, table) == Err(UnsupportedFormat) <==> input[0] != TagL && input[0] != TagP
  {
  }

  /** Byte 1 of the block is never read: changing it changes nothing. */
  lemma ByteOneIgnored(input: seq<Byte>, table: seq<Byte>, v: Byte)
    requires |input| == BufferSize && |table| == FormatL.TableSize
    ensures DecodeBlock(input[1 := v], table) == DecodeBlock(input, table)
  {
    var other := input[1 := v];
    HeaderFrame.HeaderUpdate(input, 1, v);
    HeaderFrame.DecodePPayload(input, other);
    HeaderFrame.DecodeLPayload(input, other, Offset(Start), FormatL.Progress(Zeros(BufferSize), 0, table));
  }

  class DclDecoder {
    /** The back-reference table of the 'L' format. As in the C# code it is
        allocated once per decoder and never cleared, so it carries bytes
        from one file to the next. */
    const lookupTable: array<Byte>

    ghost predicate Valid()
    {
      lookupTable.Length == FormatL.TableSize
    }

    constructor ()
      ensures Valid() && fresh(lookupTable)
      ensures lookupTable[..] == Zeros(FormatL.TableSize)
    {
      lookupTable := new Byte[FormatL.TableSize](_ => 0);
    }

    /** The 'L' decoder's two-step write, shared by literals and copies:
        `output[outputPos++] = v` and then `lookupTable[outputPos & 0xFFFF] = v`. */
    method Put(output: array<Byte>, outputPos: nat, v: Byte)
      requires Valid() && output != lookupTable && outputPos < output.Length
      modifies output, lookupTable
      ensures FormatL.Progress(output[..], outputPos + 1, lookupTable[..])
           == FormatL.Emit(FormatL.Progress(old(output[..]), outputPos, old(lookupTable[..])), v)
    {
      output[outputPos] := v;
      lookupTable[(outputPos + 1) % FormatL.TableSize] := v;
    }

    /** The copy loop of a back-reference: `length + 1` bytes, the i-th read
        from table slot `(i + offset) & 0xFFFF` just before it is written. */
    method CopyBackReference(output: array<Byte>, outputPos: nat, offset: nat, length: nat)
      returns (r: Result<nat>)
      requires Valid() && output != lookupTable && outputPos <= output.Length
      modifies output, lookupTable
      ensures var want := FormatL.Expand(FormatL.Progress(old(output[..]), outputPos, old(lookupTable[..])), offset, 0, length);
              && (want.Err? ==> r == Err(want.error))
              && (want.Ok? ==> r == Ok(want.value.len) && output[..] == want.value.out
                                && lookupTable[..] == want.value.table)
      ensures r.Ok? ==> r.value <= output.Length
    {
      ghost var expanded := FormatL.Expand(FormatL.Progress(output[..], outputPos, lookupTable[..]), offset, 0, length);
      var pos: nat := outputPos;
      for i := 0 to length + 1
        invariant pos <= output.Length
        invariant FormatL.Expand(FormatL.Progress(output[..], pos, lookupTable[..]), offset, i, length) == expanded
      {
        if pos >= output.Length {
          return Err(DecodeOverflow);
        }
        var value := lookupTable[(i + offset) % FormatL.TableSize];
        Put(output, pos, value);
        pos := pos + 1;
      }
      r := Ok(pos);
    }

    /** The inner loop of `DecodeLFormat`: while the next bit is 1, append
        the 8-bit value after it. On success the cursor stands just past the
        0 flag bit that ended the run, and what is left to decode is the
        same as before the run. */
    method LiteralRun(input: seq<Byte>, output: array<Byte>, c: Cursor, outputPos: nat)
      returns (r: Result<()>, next: Cursor, pos: nat)
      requires Valid() && output != lookupTable && ValidCursor(c) && outputPos <= output.Length
      modifies output, lookupTable
      ensures var want := FormatL.Decode(input, Offset(c), FormatL.Progress(old(output[..]), outputPos, old(lookupTable[..])));
              && (r.Err? ==> want == Err(r.error))
              && (r.Ok? ==> && ValidCursor(next) && Offset(c) < Offset(next) <= 8 * |input|
                             && !BitAt(input, Offset(next) - 1) && pos <= output.Length
                             && FormatL.Decode(input, Offset(next) - 1, FormatL.Progress(output[..], pos, lookupTable[..])) == want)
    {
      ghost var want := FormatL.Decode(input, Offset(c), FormatL.Progress(output[..], outputPos, lookupTable[..]));
      next, pos := c, outputPos;
      while true
        invariant ValidCursor(next) && pos <= output.Length && Offset(next) >= Offset(c)
        invariant FormatL.Decode(input, Offset(next), FormatL.Progress(output[..], pos, lookupTable[..])) == want
        decreases 8 * |input| - Offset(next)
      {
        var flag, afterFlag := ReadBit(input, next);
        if flag.Err? {
          return Err(flag.error), next, pos;
        }
        if !flag.value {
          assert Offset(afterFlag) - 1 == Offset(next);
          return Ok(()), afterFlag, pos;
        }
        var lit;
        lit, next := Literal(input, output, afterFlag, pos, Offset(next));
        if lit.Err? {
          return Err(lit.error), next, pos;
        }
        pos := pos + 1;
      }
    }

    /** The body of the literal loop after a 1 flag bit at `flagAt`: the
        8-bit value after it, appended by `Put`. */
    method Literal(input: seq<Byte>, output: array<Byte>, c: Cursor, pos: nat, ghost flagAt: nat)
      returns (r: Result<()>, next: Cursor)
      requires Valid() && output != lookupTable && ValidCursor(c) && pos <= output.Length
      requires Offset(c) == flagAt + 1 <= 8 * |input| && BitAt(input, flagAt)
      modifies output, lookupTable
      ensures var want := FormatL.Decode(input, flagAt, FormatL.Progress(old(output[..]), pos, old(lookupTable[..])));
              && (r.Err? ==> want == Err(r.error))
              && (r.Ok? ==> && ValidCursor(next) && Offset(next) == flagAt + 9 && pos < output.Length
                             && FormatL.Decode(input, Offset(next), FormatL.Progress(output[..], pos + 1, lookupTable[..])) == want)
    {
      ghost var st := FormatL.Progress(output[..], pos, lookupTable[..]);
      var value;
      value, next := ReadBits(input, 8, c);
      if value.Err? {
        FormatL.LiteralOverrun(input, flagAt, st);
        return Err(value.error), next;
      }
      if pos >= output.Length {
        FormatL.LiteralOverflow(input, flagAt, st);
        return Err(DecodeOverflow), next;
      }
      Pow2Small();
      FormatL.LiteralStep(input, flagAt, st);
      Put(output, pos, value.value);
      r := Ok(());
    }

    /** What follows a literal run in `DecodeLFormat`: the 16-bit offset
        (0 ends the stream, `done` is then true), the 4-bit length field and
        the copy. `flagAt` is the 0 flag bit just before the cursor. */
    method BackReference(input: seq<Byte>, output: array<Byte>, c: Cursor, outputPos: nat, ghost flagAt: nat)
      returns (r: Result<bool>, next: Cursor, pos: nat)
      requires Valid() && output != lookupTable && ValidCursor(c) && outputPos <= output.Length
      requires Offset(c) == flagAt + 1 <= 8 * |input| && !BitAt(input, flagAt)
      modifies output, lookupTable
      ensures var want := FormatL.Decode(input, flagAt, FormatL.Progress(old(output[..]), outputPos, old(lookupTable[..])));
              && (r.Err? ==> want == Err(r.error))
              && (r == Ok(true) ==> want == Ok(FormatL.Progress(output[..], pos, lookupTable[..])))
              && (r == Ok(false) ==> && ValidCursor(next) && Offset(next) == flagAt + 21 && pos <= output.Length
                                     && FormatL.Decode(input, Offset(next), FormatL.Progress(output[..], pos, lookupTable[..])) == want)
    {
      ghost var st := FormatL.Progress(output[..], outputPos, lookupTable[..]);
      FormatL.ReferenceStep(input, flagAt, st);
      var code;
      code, next := ReadReference(input, c, flagAt);
      pos := outputPos;
      if code.Err? {
        return Err(code.error), next, pos;
      }
      if code.value.EndOfStream? {
        return Ok(true), next, pos;
      }
      ghost var expanded := FormatL.Expand(st, code.value.offset, 0, code.value.length);
      var copied := CopyBackReference(output, outputPos, code.value.offset, code.value.length);
      if copied.Err? {
        return Err(copied.error), next, pos;
      }
      assert expanded == Ok(FormatL.Progress(output[..], copied.value, lookupTable[..]));
      return Ok(false), next, copied.value;
    }

    /** The code after the 0 flag bit at `flagAt`: `offset = ReadBits(16)`,
        and unless it is 0, `length = ReadBits(4) + 2`. */
    static method ReadReference(input: seq<Byte>, c: Cursor, ghost flagAt: nat)
      returns (r: Result<FormatL.Reference>, next: Cursor)
      requires ValidCursor(c) && Offset(c) == flagAt + 1
      ensures r == FormatL.ReferenceAt(input, flagAt)
      ensures r.Ok? ==> ValidCursor(next) && Offset(next) == flagAt + (if r.value.EndOfStream? then 17 else 21)
    {
      ghost var want := FormatL.ReferenceAt(input, flagAt);
      var offset, afterOffset := ReadBits(input, 16, c);
      if offset.Err? {
        assert want == Err(StreamOverrun);
        return Err(offset.error), c;
      }
      ghost var v := BitsValue(input, flagAt + 1, 16);
      assert offset.value == v;
      if offset.value == 0 {
        assert want == Ok(FormatL.EndOfStream);
        return Ok(FormatL.EndOfStream), afterOffset;
      }
      var field, afterField := ReadBits(input, 4, afterOffset);
      if field.Err? {
        assert want == Err(StreamOverrun);
        return Err(field.error), c;
      }
      assert want == Ok(FormatL.Copy(v, BitsValue(input, flagAt + 17, 4) + 2));
      return Ok(FormatL.Copy(offset.value, field.value + 2)), afterField;
    }

    /** `DecodeLFormat`: decodes the 'L' stream of `input` into `output`,
        updating the lookup table as it goes. */
    method DecodeLFormat(input: seq<Byte>, output: array<Byte>) returns (r: Result<()>)
      requires Valid() && output != lookupTable
      modifies output, lookupTable
      ensures var want := FormatL.Decode(input, Offset(Start),
                            FormatL.Progress(old(output[..]), 0, old(lookupTable[..])));
              && (want.Err? ==> r == Err(want.error))
              && (want.Ok? ==> r == Ok(()) && output[..] == want.value.out && lookupTable[..] == want.value.table)
    {
      ghost var want := FormatL.Decode(input, Offset(Start), FormatL.Progress(output[..], 0, lookupTable[..]));
      var c := Start;
      var outputPos: nat := 0;
      while true
        invariant ValidCursor(c) && outputPos <= output.Length
        invariant FormatL.Decode(input, Offset(c), FormatL.Progress(output[..], outputPos, lookupTable[..])) == want
        decreases 8 * |input| - Offset(c)
      {
        var run;
        run, c, outputPos := LiteralRun(input, output, c, outputPos);
        if run.Err? {
          return Err(run.error);
        }
        var done;
        done, c, outputPos := BackReference(input, output, c, outputPos, Offset(c) - 1);
        if done.Err? {
          return Err(done.error);
        }
        if done.value {
          return Ok(());
        }
      }
    }

    /** `DecodePFormat`: clears `output`, runs the main loop of run-length
        codes, literal pixels and stamps, then the gap-fill pass carrying
        the last literal colour. */
    method DecodePFormat(input: seq<Byte>, output: array<Byte>) returns (r: Result<()>)
      requires output.Length == FormatP.Capacity
      modifies output
      ensures var want := FormatP.DecodeP(input);
              && (want.Err? ==> r == Err(want.error))
              && (want.Ok? ==> r == Ok(()) && output[..] == want.value)
    {
      PSteps.Clear(output);
      ghost var want := FormatP.Main(input, Offset(Start), FormatP.PState(output[..], 0, Black));
      var c := Start;
      var outputPos: nat := 0;
      var last := Black;
      while outputPos < FormatP.Capacity
        invariant ValidCursor(c) && outputPos % 3 == 0
        invariant FormatP.Main(input, Offset(c), FormatP.PState(output[..], outputPos, last)) == want
        decreases 8 * |input| - Offset(c)
      {
        ghost var s := FormatP.PState(output[..], outputPos, last);
        ghost var k := Offset(c);
        var done, c', outputPos', last' := PSteps.MainTurnStep(input, output, c, outputPos, last);
        if done.Err? {
          FormatP.MainFails(input, k, s);
          return Err(done.error);
        }
        outputPos, last := outputPos', last';
        if done.value {
          FormatP.MainFinishes(input, k, s, FormatP.PState(output[..], outputPos, last));
          break;
        }
        c := c';
        FormatP.MainContinues(input, k, s, Offset(c), FormatP.PState(output[..], outputPos, last));
      }
      if outputPos >= FormatP.Capacity {
        FormatP.MainLeftPicture(input, Offset(c), FormatP.PState(output[..], outputPos, last));
      }
      assert want == Ok(FormatP.PState(output[..], outputPos, last));
      FormatP.WholePixels();
      GapFill.FillGaps(output, last);
      r := Ok(());
    }

    /** `DecodeFile` on a block already read from a file: dispatch on the
        tag byte, decoding into a new zeroed buffer. The lookup table is
        taken as the previous files left it. */
    method DecodeFile(input: seq<Byte>) returns (r: Result<seq<Byte>>)
      requires Valid() && |input| == BufferSize
      modifies lookupTable
      ensures var want := DecodeBlock(input, old(lookupTable[..]));
              && (want.Err? ==> r == Err(want.error))
              && (want.Ok? ==> r == Ok(want.value.data) && lookupTable[..] == want.value.table)
      ensures input[0] != TagL ==> lookupTable[..] == old(lookupTable[..])
    {
      var output := new Byte[BufferSize](_ => 0);
      assert output[..] == Zeros(BufferSize);
      var header := input[0];
      if header == TagL {
        var decoded := DecodeLFormat(input, output);
        if decoded.Err? {
          return Err(decoded.error);
        }
      } else if header == TagP {
        var decoded := DecodePFormat(input, output);
        if decoded.Err? {
          return Err(decoded.error);
        }
      } else {
        return Err(UnsupportedFormat);
      }
      r := Ok(output[..]);
    }

    /** `DecodeFile` with the lookup table zeroed first, so that every file
        starts from the same table: the result depends on the block alone,
        whatever files were decoded before. */
    method DecodeFileFresh(input: seq<Byte>) returns (r: Result<seq<Byte>>)
      requires Valid() && |input| == BufferSize
      modifies lookupTable
      ensures var want := DecodeBlock(input, Zeros(FormatL.TableSize));
              && (want.Err? ==> r == Err(want.error))
              && (want.Ok? ==> r == Ok(want.value.data) && lookupTable[..] == want.value.table)
    {
      PSteps.Clear(lookupTable);
      r := DecodeFile(input);
    }
  }
}
