/** The bit cursor shared by both decoders: it reads the input buffer one bit
    at a time, most significant bit first. Its state is the pair the C# code
    passes by `ref` (`position`, a byte index, and `bitBuffer`, a one-bit
    mask that starts at 128); here it is a value passed in and returned. */
module BitCursor {
  import opened DclTypes

  function Pow2(n: nat): (r: nat)
    ensures r >= 1
  {
    if n == 0 then 1 else 2 * Pow2(n - 1)
  }

  lemma Pow2Small()
    ensures Pow2(1) == 2 && Pow2(2) == 4 && Pow2(3) == 8 && Pow2(4) == 16
    ensures Pow2(5) == 32 && Pow2(6) == 64 && Pow2(7) == 128 && Pow2(8) == 256
  {
    assert Pow2(1) == 2 * Pow2(0);
    assert Pow2(2) == 2 * Pow2(1);
    assert Pow2(3) == 2 * Pow2(2);
    assert Pow2(4) == 2 * Pow2(3);
    assert Pow2(5) == 2 * Pow2(4);
    assert Pow2(6) == 2 * Pow2(5);
    assert Pow2(7) == 2 * Pow2(6);
    assert Pow2(8) == 2 * Pow2(7);
  }

  /** Bit `j` of `b`, bit 0 being the least significant: `(b >> j) & 1`. */
  function BitOf(b: nat, j: nat): bool
    decreases j
  {
    if j == 0 then b % 2 == 1 else BitOf(b / 2, j - 1)
  }

  /** Bit `k` of the stream: bit `7 - k % 8` of byte `k / 8`, so that each
      byte is delivered most significant bit first. This is the reference
      order in which the cursor delivers bits. */
  function BitAt(input: seq<Byte>, k: nat): bool
    requires k < 8 * |input|
  {
    BitOf(input[k / 8], 7 - k % 8)
  }

  /** The `n` bits from bit `k` on, read as an unsigned number whose first bit
      is the most significant one. */
  function BitsValue(input: seq<Byte>, k: nat, n: nat): (v: nat)
    requires n == 0 || k + n <= 8 * |input|
    ensures v < Pow2(n)
  {
    if n == 0 then 0
    else 2 * BitsValue(input, k, n - 1) + (if BitAt(input, k + n - 1) then 1 else 0)
  }

  /** The 8-bit value at bit `k`: `(byte)ReadBits(8, ...)`, where the cast
      never truncates because 8 bits are always below 256. */
  function ByteAt(input: seq<Byte>, k: nat): Byte
    requires k + 8 <= 8 * |input|
  {
    Pow2Small();
    BitsValue(input, k, 8)
  }

  /** The cursor: `position` is a byte index, `mask` the one-bit `bitBuffer`. */
  datatype Cursor = Cursor(position: int, mask: int)

  /** Where both decoders start: byte 2 (after the tag byte and the unused
      byte 1), most significant bit. */
  const Start := Cursor(2, 128)

  /** A mask with exactly one of the eight low bits set: `2^j` for some
      `j` up to 7. */
  predicate IsMask(m: int)
  {
    m == 128 || m == 64 || m == 32 || m == 16 || m == 8 || m == 4 || m == 2 || m == 1
  }

  predicate ValidCursor(c: Cursor)
  {
    c.position >= 0 && IsMask(c.mask)
  }

  /** How many bits of its byte a mask has already passed: 0 for 128, 7 for 1. */
  function MaskIndex(m: int): (j: nat)
    requires IsMask(m)
    ensures j < 8 && Pow2(7 - j) == m
  {
    Pow2Small();
    if m == 128 then 0 else if m == 64 then 1 else if m == 32 then 2
    else if m == 16 then 3 else if m == 8 then 4 else if m == 4 then 5
    else if m == 2 then 6 else 7
  }

  /** The number of bits read before the cursor: the bit it reads next. */
  function Offset(c: Cursor): nat
    requires ValidCursor(c)
  {
    8 * c.position + MaskIndex(c.mask)
  }

  /** The cursor that stands before bit `k`. */
  function CursorAt(k: nat): Cursor
  {
    Cursor(k / 8, Pow2(7 - k % 8))
  }

  /** A valid cursor is fixed by its offset, and every offset has one: so two
      ways of reading the same number of bits leave the cursor in the same
      place. */
  lemma CursorOfOffset(c: Cursor)
    requires ValidCursor(c)
    ensures CursorAt(Offset(c)) == c
  {
    var j := MaskIndex(c.mask);
    assert (8 * c.position + j) / 8 == c.position && (8 * c.position + j) % 8 == j;
  }

  lemma OffsetOfCursor(k: nat)
    ensures ValidCursor(CursorAt(k)) && Offset(CursorAt(k)) == k
  {
    Pow2Small();
  }

  lemma SameOffsetSameCursor(c: Cursor, d: Cursor)
    requires ValidCursor(c) && ValidCursor(d) && Offset(c) == Offset(d)
    ensures c == d
  {
    CursorOfOffset(c);
    CursorOfOffset(d);
  }

  /** The byte-and-mask test `(b & mask) != 0`: for the one-bit mask
      `2^(7 - j)` it is bit `7 - j` of `b`. */
  predicate MaskedBitSet(b: Byte, mask: int)
    requires IsMask(mask)
  {
    BitOf(b, 7 - MaskIndex(mask))
  }

  /** The mask step both readers share: `mask >>= 1`, and when the mask runs
      out, back to 128 on the next byte. */
  function Step(c: Cursor): Cursor
  {
    if c.mask / 2 == 0 then Cursor(c.position + 1, 128) else Cursor(c.position, c.mask / 2)
  }

  lemma StepAdvancesOneBit(c: Cursor)
    requires ValidCursor(c)
    ensures ValidCursor(Step(c)) && Offset(Step(c)) == Offset(c) + 1
  {
  }

  /** The cursor after `n` steps. */
  function StepN(c: Cursor, n: nat): Cursor
    decreases n
  {
    if n == 0 then c else StepN(Step(c), n - 1)
  }

  lemma {:induction false} StepNAdvances(c: Cursor, n: nat)
    requires ValidCursor(c)
    ensures ValidCursor(StepN(c, n)) && Offset(StepN(c, n)) == Offset(c) + n
    decreases n
  {
    if n > 0 {
      StepAdvancesOneBit(c);
      StepNAdvances(Step(c), n - 1);
    }
  }

  /** `n` steps from a valid cursor reach the cursor `n` bits further on,
      the one `ReadBits` leaves after reading `n` bits. */
  lemma StepNIsCursorAt(c: Cursor, n: nat)
    requires ValidCursor(c)
    ensures StepN(c, n) == CursorAt(Offset(c) + n)
  {
    StepNAdvances(c, n);
    CursorOfOffset(StepN(c, n));
  }

  /** Eight reads from any cursor land on the same mask one byte further on. */
  lemma EightStepsOneByte(c: Cursor)
    requires ValidCursor(c)
    ensures StepN(c, 8) == Cursor(c.position + 1, c.mask)
  {
    StepNAdvances(c, 8);
    SameOffsetSameCursor(StepN(c, 8), Cursor(c.position + 1, c.mask));
  }

  lemma MaskedBitIsBitAt(input: seq<Byte>, c: Cursor)
    requires ValidCursor(c) && 0 <= c.position < |input|
    ensures Offset(c) < 8 * |input|
    ensures MaskedBitSet(input[c.position], c.mask) == BitAt(input, Offset(c))
  {
    CursorOfOffset(c);
  }

  /** `ReadBit`: the bit under the cursor, which then moves on by one bit. */
  method ReadBit(input: seq<Byte>, c: Cursor) returns (bit: Result<bool>, next: Cursor)
    requires ValidCursor(c)
    ensures bit.Ok? <==> Offset(c) < 8 * |input|
    ensures bit.Err? ==> bit.error == StreamOverrun
    ensures bit.Ok? ==> bit.value == BitAt(input, Offset(c))
    ensures bit.Ok? ==> ValidCursor(next) && Offset(next) == Offset(c) + 1
    ensures bit.Ok? ==> next == Step(c)
  {
    if c.position >= |input| {
      return Err(StreamOverrun), c;
    }
    MaskedBitIsBitAt(input, c);
    StepAdvancesOneBit(c);
    bit := Ok(MaskedBitSet(input[c.position], c.mask));
    next := Step(c);
  }

  /** The partial result of `ReadBits` after `done` of its bits, with `n` still to come. */
  function PartialValue(input: seq<Byte>, k: nat, done: nat, n: nat): nat
    requires done == 0 || k + done <= 8 * |input|
  {
    BitsValue(input, k, done) * Pow2(n)
  }

  lemma PartialValueStep(input: seq<Byte>, k: nat, done: nat, n: nat)
    requires n >= 1 && k + done + 1 <= 8 * |input|
    ensures PartialValue(input, k, done, n) + (if BitAt(input, k + done) then Pow2(n - 1) else 0)
         == PartialValue(input, k, done + 1, n - 1)
  {
    var v := BitsValue(input, k, done);
    var q := Pow2(n - 1);
    var b := if BitAt(input, k + done) then 1 else 0;
    assert BitsValue(input, k, done + 1) == 2 * v + b;
    assert Pow2(n) == 2 * q;
    assert PartialValue(input, k, done, n) == v * (2 * q);
    assert PartialValue(input, k, done + 1, n - 1) == (2 * v + b) * q;
    ShiftInBit(v, b, q);
  }

  lemma ShiftInBit(v: nat, b: nat, q: nat)
    ensures v * (2 * q) + b * q == (2 * v + b) * q
  {
  }

  /** One turn of `ReadBits`' loop keeps its invariant. */
  lemma ReadBitsStep(input: seq<Byte>, k0: nat, done: nat, n: nat, next: Cursor, result: nat, mask: nat)
    requires ValidCursor(next) && Offset(next) == k0 + done && next.position < |input|
    requires n >= 1 && mask == Pow2(n - 1) && (done == 0 || k0 + done <= 8 * |input|)
    requires result == PartialValue(input, k0, done, n)
    ensures ValidCursor(Step(next)) && Offset(Step(next)) == k0 + done + 1 && k0 + done + 1 <= 8 * |input|
    ensures n >= 2 ==> mask / 2 == Pow2(n - 2)
    ensures (if MaskedBitSet(input[next.position], next.mask) then result + mask else result)
         == PartialValue(input, k0, done + 1, n - 1)
  {
    MaskedBitIsBitAt(input, next);
    PartialValueStep(input, k0, done, n);
    StepAdvancesOneBit(next);
  }

  /** `ReadBits`: the next `count` bits, the first one read the most
      significant, leaving the cursor `count` bits further on. */
  method ReadBits(input: seq<Byte>, count: nat, c: Cursor) returns (value: Result<nat>, next: Cursor)
    requires ValidCursor(c) && count >= 1
    ensures value.Ok? <==> Offset(c) + count <= 8 * |input|
    ensures value.Err? ==> value.error == StreamOverrun
    ensures value.Ok? ==> value.value == BitsValue(input, Offset(c), count)
    ensures value.Ok? ==> ValidCursor(next) && Offset(next) == Offset(c) + count

  {
    ghost var k0 := Offset(c);
    var result := 0;
    var mask := Pow2(count) / 2;  // 1 << (count - 1)
    var n := count;
    next := c;
    ghost var done := 0;
    while n > 0
      invariant 0 <= n <= count && done == count - n
      invariant ValidCursor(next) && Offset(next) == k0 + done
      invariant done == 0 || k0 + done <= 8 * |input|
      invariant n >= 1 ==> mask == Pow2(n - 1)
      invariant result == PartialValue(input, k0, done, n)
    {
      if next.position >= |input| {
        return Err(StreamOverrun), next;
      }
      ReadBitsStep(input, k0, done, n, next, result, mask);
      if MaskedBitSet(input[next.position], next.mask) {
        result := result + mask;
      }
      mask := mask / 2;
      next := Step(next);
      done := done + 1;
      n := n - 1;
    }
    assert done == count && Pow2(0) == 1;
    assert result == BitsValue(input, k0, count) * 1;

    value := Ok(result);
  }
}
