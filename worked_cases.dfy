/** Small blocks and pictures whose decoding is worked out in full: the
    shortest 'L' stream, and the gap-fill pass on a few pixels. */
module WorkedCases {
  import opened DclTypes
  import opened BitCursor
  import FormatL
  import GapFill
  import Decoder
  import TableLeak

  /** An 'L' block whose payload is the end code alone: every byte after
      the tag is 0. */
  const EmptyLFile: seq<Byte> := Zeros(Decoder.BufferSize)[0 := Decoder.TagL]

  /** Its bits: a 0 flag at bit 16 and a zero offset after it. */
  lemma EmptyLFileBits()
    ensures |EmptyLFile| == Decoder.BufferSize && EmptyLFile[0] == Decoder.TagL
    ensures !BitAt(EmptyLFile, 16) && BitsValue(EmptyLFile, 17, 16) == 0
  {
    var input := EmptyLFile;
    forall j | 16 <= j < 33
      ensures !BitAt(input, j)
    {
      TableLeak.BitAtSparse(input, j);
    }
    TableLeak.ZeroRun(input, 17, 16);
  }

  /** An 'L' block that opens with the end code decodes, whatever the
      table, to the all-zero buffer `DecodeFile` allocates, and leaves the
      table as it was. */
  lemma EndCodeFirst(input: seq<Byte>, table: seq<Byte>)
    requires |input| == Decoder.BufferSize && input[0] == Decoder.TagL && |table| == FormatL.TableSize
    requires !BitAt(input, 16) && BitsValue(input, 17, 16) == 0
    ensures Decoder.DecodeBlock(input, table) == Ok(Decoder.Decoded(Zeros(Decoder.BufferSize), table))
  {
    var p := FormatL.Progress(Zeros(Decoder.BufferSize), 0, table);
    FormatL.EndStep(input, 16, p);
    assert Offset(Start) == 16;
  }

  /** The empty 'L' block decodes to 921,600 zero bytes. */
  lemma EmptyLFileDecodesToZeros(table: seq<Byte>)
    requires |table| == FormatL.TableSize
    ensures Decoder.DecodeBlock(EmptyLFile, table) == Ok(Decoder.Decoded(Zeros(Decoder.BufferSize), table))
  {
    EmptyLFileBits();
    EndCodeFirst(EmptyLFile, table);
  }

  /** Two gaps between two colours take the earlier colour; the later pixel
      is kept. */
  lemma GapsTakeEarlierColour()
    ensures GapFill.Filled([10, 20, 30, 0, 0, 0, 0, 0, 0, 40, 50, 60], Black)
         == [10, 20, 30, 10, 20, 30, 10, 20, 30, 40, 50, 60]
  {
    var s: seq<Byte> := [10, 20, 30, 0, 0, 0, 0, 0, 0, 40, 50, 60];
    var f := GapFill.Filled(s, Black);
    var first := Rgb(10, 20, 30);
    GapFill.FilledPixel(s, Black, 0);
    GapFill.FilledPixel(s, Black, 1);
    GapFill.NearestIsLastColour(s, 1, Black, 0);
    GapFill.FilledPixel(s, Black, 2);
    GapFill.NearestIsLastColour(s, 2, Black, 0);
    GapFill.FilledPixel(s, Black, 3);
    assert GapFill.TripleAt(f, 0) == first && GapFill.TripleAt(f, 1) == first && GapFill.TripleAt(f, 2) == first;
    assert GapFill.TripleAt(f, 3) == Rgb(40, 50, 60);
  }

  /** A gap before any coloured pixel takes the starting carry, which in
      `DecodePFormat` is the last literal colour. */
  lemma LeadingGapTakesCarry(c: Rgb)
    ensures GapFill.Filled([0, 0, 0, 10, 20, 30], c) == [c.r, c.g, c.b, 10, 20, 30]
  {
    var s: seq<Byte> := [0, 0, 0, 10, 20, 30];
    var f := GapFill.Filled(s, c);
    GapFill.FilledPixel(s, c, 0);
    GapFill.FilledPixel(s, c, 1);
    assert GapFill.TripleAt(f, 0) == c && GapFill.TripleAt(f, 1) == Rgb(10, 20, 30);
  }
}
