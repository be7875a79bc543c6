/** The lookup table outlives a file. `DclDecoder` allocates it once and
    never clears it, so a back-reference in one file can copy a byte that an
    earlier file left in the table. Two small 'L' files show it: the first
    leaves a non-zero byte in slot 1, the second copies slot 1 into its
    first output byte. */
module TableLeak {
  import opened DclTypes
  import opened BitCursor
  import FormatL
  import Decoder

  /** An 'L' file holding one literal with its last bit set, then the end
      code: bytes 2 and 3 are 128, the rest after the tag is 0. */
  const LeakingFile: seq<Byte> := Zeros(Decoder.BufferSize)[0 := Decoder.TagL][2 := 128][3 := 128]

  /** An 'L' file holding one back-reference with offset 1 and field 0 (a
      copy of three bytes from slots 1, 2 and 3), then the end code: byte 4
      is 128, the rest after the tag is 0. */
  const ReadingFile: seq<Byte> := Zeros(Decoder.BufferSize)[0 := Decoder.TagL][4 := 128]

  lemma {:induction false} BitOfZero(j: nat)
    ensures !BitOf(0, j)
    decreases j
  {
    if j > 0 {
      BitOfZero(j - 1);
    }
  }

  /** Bit `j` of `2^m` is set exactly when `j == m`. */
  lemma {:induction false} BitOfPow2(m: nat, j: nat)
    ensures BitOf(Pow2(m), j) <==> j == m
    decreases j
  {
    if j > 0 {
      if m == 0 {
        BitOfZero(j - 1);
      } else {
        assert Pow2(m) / 2 == Pow2(m - 1);
        BitOfPow2(m - 1, j - 1);
      }
    }
  }

  /** In a byte that is 0 or 128, only the first bit read is set. */
  lemma BitAtSparse(input: seq<Byte>, j: nat)
    requires j < 8 * |input| && (input[j / 8] == 0 || input[j / 8] == 128)
    ensures BitAt(input, j) <==> input[j / 8] == 128 && j % 8 == 0
  {
    BitOfZero(7 - j % 8);
    Pow2Small();
    BitOfPow2(7, 7 - j % 8);
  }

  /** A run of 0 bits reads as the value 0. */
  lemma {:induction false} ZeroRun(input: seq<Byte>, k: nat, n: nat)
    requires k + n <= 8 * |input|
    requires forall j :: k <= j < k + n ==> !BitAt(input, j)
    ensures BitsValue(input, k, n) == 0
    decreases n
  {
    if n > 0 {
      ZeroRun(input, k, n - 1);
    }
  }

  /** The leaking file: an 'L' block whose bits are a 1 flag, a literal
      whose last bit is set, a 0 flag and a zero offset. */
  lemma LeakingFileBits()
    ensures |LeakingFile| == Decoder.BufferSize && LeakingFile[0] == Decoder.TagL
    ensures BitAt(LeakingFile, 16) && !BitAt(LeakingFile, 25)
    ensures ByteAt(LeakingFile, 17) != 0 && BitsValue(LeakingFile, 26, 16) == 0
  {
    var input := LeakingFile;
    BitAtSparse(input, 16);
    BitAtSparse(input, 24);
    assert ByteAt(input, 17) == 2 * BitsValue(input, 17, 7) + 1;
    BitAtSparse(input, 25);
    forall j | 26 <= j < 42
      ensures !BitAt(input, j)
    {
      BitAtSparse(input, j);
    }
    ZeroRun(input, 26, 16);
  }

  /** An 'L' block holding one non-zero literal and the end code decodes,
      whatever the table, and leaves that literal in slot 1. */
  lemma OneLiteralFillsSlotOne(input: seq<Byte>, table: seq<Byte>)
    requires |input| == Decoder.BufferSize && input[0] == Decoder.TagL && |table| == FormatL.TableSize
    requires BitAt(input, 16) && !BitAt(input, 25)
    requires ByteAt(input, 17) != 0 && BitsValue(input, 26, 16) == 0
    ensures Decoder.DecodeBlock(input, table).Ok?
    ensures Decoder.DecodeBlock(input, table).value.table[1] != 0
  {
    var p := FormatL.Progress(Zeros(Decoder.BufferSize), 0, table);
    var v := ByteAt(input, 17);
    FormatL.LiteralStep(input, 16, p);
    var q := FormatL.Emit(p, v);
    assert q.table == table[1 := v];
    FormatL.EndStep(input, 25, q);
    assert Offset(Start) == 16;
    assert Decoder.DecodeBlock(input, table) == Ok(Decoder.Decoded(q.out, q.table));
  }

  /** The reading file: an 'L' block whose bits are a 0 flag, offset 1,
      field 0, a 0 flag and a zero offset. */
  lemma ReadingFileBits()
    ensures |ReadingFile| == Decoder.BufferSize && ReadingFile[0] == Decoder.TagL
    ensures !BitAt(ReadingFile, 16) && !BitAt(ReadingFile, 37)
    ensures BitsValue(ReadingFile, 17, 16) == 1 && BitsValue(ReadingFile, 33, 4) == 0
    ensures BitsValue(ReadingFile, 38, 16) == 0
  {
    var input := ReadingFile;
    BitAtSparse(input, 16);
    forall j | 17 <= j < 32
      ensures !BitAt(input, j)
    {
      BitAtSparse(input, j);
    }
    ZeroRun(input, 17, 15);
    BitAtSparse(input, 32);
    assert BitsValue(input, 17, 16) == 2 * BitsValue(input, 17, 15) + 1;
    forall j | 33 <= j < 37
      ensures !BitAt(input, j)
    {
      BitAtSparse(input, j);
    }
    ZeroRun(input, 33, 4);
    BitAtSparse(input, 37);
    forall j | 38 <= j < 54
      ensures !BitAt(input, j)
    {
      BitAtSparse(input, j);
    }
    ZeroRun(input, 38, 16);
  }

  /** An 'L' block holding one back-reference with offset 1 and field 0,
      then the end code, decodes whatever the table, and its first output
      byte is the table's slot 1. */
  lemma CopyOfSlotOne(input: seq<Byte>, table: seq<Byte>)
    requires |input| == Decoder.BufferSize && input[0] == Decoder.TagL && |table| == FormatL.TableSize
    requires !BitAt(input, 16) && !BitAt(input, 37)
    requires BitsValue(input, 17, 16) == 1 && BitsValue(input, 33, 4) == 0
    requires BitsValue(input, 38, 16) == 0
    ensures Decoder.DecodeBlock(input, table).Ok?
    ensures Decoder.DecodeBlock(input, table).value.data[0] == table[1]
  {
    var p := FormatL.Progress(Zeros(Decoder.BufferSize), 0, table);
    FormatL.BackReferenceStep(input, 16, p);
    FormatL.ExpandAppends(p, 1, 0, 2);
    FormatL.ExpandCopiesStaleSlot(p, 1, 0, 2, 0);
    var q := FormatL.Expand(p, 1, 0, 2).value;
    FormatL.EndStep(input, 37, q);
    assert FormatL.Decode(input, 16, p) == Ok(q);
    assert Offset(Start) == 16;
    assert Decoder.DecodeBlock(input, table) == Ok(Decoder.Decoded(q.out, q.table));
  }

  /** The reading file decodes differently after the leaking file than
      from a zeroed table: what `DecodeFile` returns for a file depends on
      the files decoded before it. */
  lemma TableLeaksAcrossFiles()
    ensures Decoder.DecodeBlock(LeakingFile, Zeros(FormatL.TableSize)).Ok?
    ensures var after := Decoder.DecodeBlock(LeakingFile, Zeros(FormatL.TableSize)).value.table;
            && Decoder.DecodeBlock(ReadingFile, after).Ok?
            && Decoder.DecodeBlock(ReadingFile, Zeros(FormatL.TableSize)).Ok?
            && Decoder.DecodeBlock(ReadingFile, after).value.data[0]
               != Decoder.DecodeBlock(ReadingFile, Zeros(FormatL.TableSize)).value.data[0]
  {
    var zeroed := Zeros(FormatL.TableSize);
    LeakingFileBits();
    OneLiteralFillsSlotOne(LeakingFile, zeroed);
    var after := Decoder.DecodeBlock(LeakingFile, zeroed).value.table;
    ReadingFileBits();
    CopyOfSlotOne(ReadingFile, after);
    CopyOfSlotOne(ReadingFile, zeroed);
  }
}
