/** The 'P' sub-format: a run-length coded picture. Each step reads a run
    length (pixels to skip), then one literal colour written at the pixel
    reached, then a flag bit; a 1 flag starts a "stamp" that repeats the same
    colour at strides of 638 to 642 pixels, close to one 640-pixel scanline
    further down each time. Skipped pixels stay (0,0,0) until the gap-fill
    pass of module GapFill gives them the colour carried from the left.

    This module gives the decoder's meaning as functions on sequences; the
    imperative decoder in module Decoder is proved equal to `DecodeP`. */
module FormatP {
  import opened DclTypes
  import opened BitCursor
  import GapFill

  /** `WIDTH * HEIGHT * 3`: three bytes for each pixel of a 640x480 picture. */
  const Capacity := 640 * 480 * 3

  /** The picture is a whole number of pixels. */
  lemma WholePixels()
    ensures Capacity % 3 == 0
  {
    assert Capacity == 3 * (640 * 480);
  }

  /** The number of consecutive 1 bits from bit `k` on, stopping at the first
      0 bit or at the end of the input. */
  function Ones(input: seq<Byte>, k: nat): (n: nat)
    ensures n == 0 || k + n <= 8 * |input|
    decreases 8 * |input| - k
  {
    if k >= 8 * |input| then 0
    else if BitAt(input, k) then 1 + Ones(input, k + 1)
    else 0
  }

  /** A decoded run-length code, with `end` the bit offset just after it:
      either a run of `length` pixels to skip, or the end-of-image code
      (an extended code whose width reaches 24). */
  datatype RunCode = Run(length: nat, end: nat) | EndOfImage(end: nat)

  /** The run-length code at bit `k`. A 2-bit command 0 or 1 is the length
      itself; 2 is followed by 2 bits `v`, length `v + 2`; 3 is followed by
      an extended code. */
  function RunCodeAt(input: seq<Byte>, k: nat): (r: Result<RunCode>)
    ensures r.Ok? ==> k < r.value.end <= 8 * |input|
    ensures r.Err? ==> r.error == StreamOverrun
  {
    if k + 2 > 8 * |input| then Err(StreamOverrun)
    else
      var command := BitsValue(input, k, 2);
      if command <= 1 then Ok(Run(command, k + 2))
      else if command == 2 then
        if k + 4 > 8 * |input| then Err(StreamOverrun)
        else Ok(Run(BitsValue(input, k + 2, 2) + 2, k + 4))
      else ExtendedRun(input, k + 2)
  }

  /** The rest of a run-length code with command 3, from bit `k` on: the
      unary count of 1 bits ended by a 0 bit gives the width
      `bits = 3 + count`; a width of 24 or more is the end-of-image code,
      otherwise `bits` bits `v` give the length `(2^bits - 1) + v - 1`. */
  function ExtendedRun(input: seq<Byte>, k: nat): (r: Result<RunCode>)
    ensures r.Ok? ==> k < r.value.end <= 8 * |input|
    ensures r.Err? ==> r.error == StreamOverrun
  {
    var n := Ones(input, k);
    var bits := 3 + n;
    var at := k + 1 + n;
    if k + n >= 8 * |input| then Err(StreamOverrun)
    else if bits >= 24 then Ok(EndOfImage(at))
    else if at + bits > 8 * |input| then Err(StreamOverrun)
    else Ok(Run(Pow2(bits) - 2 + BitsValue(input, at, bits), at + bits))
  }

  /** A decoded stamp code, with `end` the bit offset just after it: a
      stride to the next copy of the colour, or the end of the stamp. */
  datatype StampCode = Advance(increment: nat, end: nat) | StopStamp(end: nat)

  /** The stamp code at bit `k`: 2 bits, 1 to 3 giving strides 1917, 1920
      and 1923 bytes; 0 followed by a 0 bit ends the stamp, and 0 followed by
      1 takes one more bit choosing 1926 (1) or 1914 (0). */
  function StampCodeAt(input: seq<Byte>, k: nat): (r: Result<StampCode>)
    ensures r.Ok? ==> k < r.value.end <= 8 * |input|
    ensures r.Err? ==> r.error == StreamOverrun
  {
    if k + 2 > 8 * |input| then Err(StreamOverrun)
    else
      var code := BitsValue(input, k, 2);
      if code == 0 then
        if k + 2 >= 8 * |input| then Err(StreamOverrun)
        else if !BitAt(input, k + 2) then Ok(StopStamp(k + 3))
        else if k + 3 >= 8 * |input| then Err(StreamOverrun)
        else Ok(Advance(if BitAt(input, k + 3) then 1926 else 1914, k + 4))
      else if code == 1 then Ok(Advance(1917, k + 2))
      else if code == 2 then Ok(Advance(1920, k + 2))
      else Ok(Advance(1923, k + 2))
  }

  /** Writes colour `c` at byte `pos`: red, green, blue. */
  function PutPixel(out: seq<Byte>, pos: nat, c: Rgb): (r: seq<Byte>)
    requires pos + 2 < |out|
    ensures |r| == |out|
  {
    out[pos := c.r][pos + 1 := c.g][pos + 2 := c.b]
  }

  /** The literal colour at bit `k`: red, green and blue, 8 bits each. */
  function Colour(input: seq<Byte>, k: nat): Rgb
    requires k + 24 <= 8 * |input|
  {
    Rgb(ByteAt(input, k), ByteAt(input, k + 8), ByteAt(input, k + 16))
  }

  /** The result of a stamp: the buffer and the bit offset after it. */
  datatype Stamped = Stamped(out: seq<Byte>, end: nat)

  /** The stamp loop from bit `k` on, the last copy of `c` being at byte
      `pos`: each stride moves `pos` on; the loop ends at a stop code or
      when the next copy would not fit, `pos + 2 >= |out|`. */
  function Stamp(input: seq<Byte>, k: nat, out: seq<Byte>, pos: nat, c: Rgb): (r: Result<Stamped>)
    ensures r.Ok? ==> |r.value.out| == |out| && k < r.value.end <= 8 * |input|
    ensures r.Err? ==> r.error == StreamOverrun
    decreases 8 * |input| - k
  {
    match StampCodeAt(input, k)
    case Err(e) => Err(e)
    case Ok(StopStamp(e)) => Ok(Stamped(out, e))
    case Ok(Advance(increment, e)) =>
      if pos + increment + 2 >= |out| then Ok(Stamped(out, e))
      else Stamp(input, e, PutPixel(out, pos + increment, c), pos + increment, c)
  }

  /** The state of the main loop: the buffer, `outputPos` and the last
      literal colour (`lastR`, `lastG`, `lastB`). */
  datatype PState = PState(out: seq<Byte>, pos: nat, last: Rgb)

  /** The outcome of one turn of the main loop: go on from bit `k` in state
      `s`, or leave the loop in state `s`. */
  datatype Turn = Continue(k: nat, s: PState) | Finished(s: PState)

  /** Moving on by whole pixels keeps a position on a pixel boundary. */
  lemma AddPixels(pos: nat, n: nat)
    requires pos % 3 == 0
    ensures (pos + n * 3) % 3 == 0
  {
    assert pos + n * 3 == 3 * (pos / 3 + n);
  }

  /** One turn of the main loop from bit `k`, with `pos` inside the
      picture: the run-length code; the end-of-image code ends the loop, a
      run moves `pos` on by three bytes per pixel and, if that leaves the
      picture, ends the loop too; otherwise a literal pixel follows.
      `outputPos` stays a multiple of 3 and never goes back, and a turn
      that goes on has read at least one bit. */
  function MainTurn(input: seq<Byte>, k: nat, s: PState): (r: Result<Turn>)
    requires |s.out| == Capacity && s.pos % 3 == 0 && s.pos < Capacity
    ensures r.Ok? && r.value.Continue? ==>
              && k < r.value.k <= 8 * |input| && s.pos < r.value.s.pos
              && |r.value.s.out| == Capacity && r.value.s.pos % 3 == 0
    ensures r.Ok? && r.value.Finished? ==>
              && s.pos <= r.value.s.pos && |r.value.s.out| == Capacity && r.value.s.pos % 3 == 0
    ensures r.Err? ==> r.error == StreamOverrun
  {
    match RunCodeAt(input, k)
    case Err(e) => Err(e)
    case Ok(EndOfImage(_)) => Ok(Finished(s))
    case Ok(Run(n, e)) =>
      AddPixels(s.pos, n);
      var pos := s.pos + n * 3;
      if pos >= Capacity then Ok(Finished(PState(s.out, pos, s.last)))
      else
        AddPixels(pos, 1);
        PixelTurn(input, e, PState(s.out, pos, s.last))
  }

  /** A literal pixel at bit `k`, with `pos` inside the picture: its colour
      is written at `pos` and becomes the last colour, and the flag bit
      after it decides what follows. */
  function PixelTurn(input: seq<Byte>, k: nat, s: PState): (r: Result<Turn>)
    requires |s.out| == Capacity && s.pos % 3 == 0 && s.pos < Capacity
    ensures r.Ok? ==> && r.value.Continue? && k < r.value.k <= 8 * |input|
                      && |r.value.s.out| == Capacity && r.value.s.pos == s.pos + 3
    ensures r.Err? ==> r.error == StreamOverrun
  {
    if k + 24 > 8 * |input| then Err(StreamOverrun)
    else
      var c := Colour(input, k);
      FlagTurn(input, k + 24, PState(PutPixel(s.out, s.pos, c), s.pos, c))
  }

  /** The flag bit at `k` after the literal pixel at `s.pos` (already
      written, its colour `s.last`): a 1 runs a stamp from the pixel; then
      the main loop goes on one pixel further, `outputPos` untouched by the
      stamp. */
  function FlagTurn(input: seq<Byte>, k: nat, s: PState): (r: Result<Turn>)
    requires |s.out| == Capacity
    ensures r.Ok? ==> && r.value.Continue? && k < r.value.k <= 8 * |input|
                      && |r.value.s.out| == Capacity && r.value.s.pos == s.pos + 3
                      && r.value.s.last == s.last
    ensures r.Err? ==> r.error == StreamOverrun
  {
    if k >= 8 * |input| then Err(StreamOverrun)
    else if !BitAt(input, k) then Ok(Continue(k + 1, PState(s.out, s.pos + 3, s.last)))
    else match Stamp(input, k + 1, s.out, s.pos, s.last)
      case Err(e) => Err(e)
      case Ok(st) => Ok(Continue(st.end, PState(st.out, s.pos + 3, s.last)))
  }

  /** The main loop from bit `k`: turns until one ends the loop or `pos`
      has left the picture. */
  function Main(input: seq<Byte>, k: nat, s: PState): (r: Result<PState>)
    requires |s.out| == Capacity && s.pos % 3 == 0
    ensures r.Ok? ==> |r.value.out| == Capacity && r.value.pos % 3 == 0 && r.value.pos >= s.pos
    ensures r.Err? ==> r.error == StreamOverrun
    decreases 8 * |input| - k
  {
    if s.pos >= Capacity then Ok(s)
    else match MainTurn(input, k, s)
      case Err(e) => Err(e)
      case Ok(Finished(t)) => Ok(t)
      case Ok(Continue(k', t)) => Main(input, k', t)
  }

  /** `DecodePFormat`: a cleared buffer, the main loop from byte 2, then the
      gap-fill pass started with the last literal colour. */
  function DecodeP(input: seq<Byte>): (r: Result<seq<Byte>>)
    ensures r.Ok? ==> |r.value| == Capacity
    ensures r.Err? ==> r.error == StreamOverrun
  {
    match Main(input, Offset(Start), PState(Zeros(Capacity), 0, Black))
    case Err(e) => Err(e)
    case Ok(s) => Ok(GapFill.Filled(s.out, s.last))
  }

  /** What a run-length code means. The command alone fixes the class of
      the length: 0 and 1 are themselves, 2 gives 2 to 5, 3 gives a length
      of at least 6 whose width `bits` is the one with
      `2^bits <= length + 2 < 2^(bits + 1)`, so every length has exactly one
      code class and width. Widths of 24 and more are the end-of-image
      code. */
  lemma RunCodeMeaning(input: seq<Byte>, k: nat)
    requires k + 2 <= 8 * |input| && RunCodeAt(input, k).Ok?
    ensures var command := BitsValue(input, k, 2);
            var code := RunCodeAt(input, k).value;
            && (code.EndOfImage? <==> command == 3 && Ones(input, k + 2) >= 21)
            && (code.Run? ==>
                 && (command <= 1 <==> code.length <= 1)
                 && (command <= 1 ==> code.length == command && code.end == k + 2)
                 && (command == 2 <==> 2 <= code.length <= 5)
                 && (command == 2 ==> code.end == k + 4)
                 && (command == 3 <==> code.length >= 6)
                 && (command == 3 ==>
                       var bits := 3 + Ones(input, k + 2);
                       && bits < 24 && code.end == k + 3 + Ones(input, k + 2) + bits
                       && Pow2(bits) <= code.length + 2 < 2 * Pow2(bits)))
  {
    Pow2Small();
    var command := BitsValue(input, k, 2);
    assert command < 4;
    if command == 3 && RunCodeAt(input, k).value.Run? {
      var bits := 3 + Ones(input, k + 2);
      var at := k + 3 + Ones(input, k + 2);
      Pow2Monotone(3, bits);
      assert BitsValue(input, at, bits) < Pow2(bits);
    }
  }

  lemma {:induction false} Pow2Monotone(a: nat, b: nat)
    requires a <= b
    ensures Pow2(a) <= Pow2(b)
    decreases b
  {
    if a < b {
      Pow2Monotone(a, b - 1);
    }
  }

  /** Every stamp stride is a whole number of pixels within two pixels of
      one 640-pixel scanline, and a stamp code takes 2 to 4 bits. */
  lemma StampStrides(input: seq<Byte>, k: nat)
    requires StampCodeAt(input, k).Ok?
    ensures var code := StampCodeAt(input, k).value;
            && (code.Advance? ==>
                  && code.increment in {1914, 1917, 1920, 1923, 1926}
                  && code.increment % 3 == 0 && 1920 - 6 <= code.increment <= 1920 + 6)
            && k + 2 <= code.end <= k + 4
  {
  }

  /** A stamp changes only bytes at least 1914 past `pos`, and writes there
      only the stamp colour, each byte the component its distance from
      `pos` selects: every copy lies a whole number of pixels after `pos`. */
  lemma {:induction false} StampWrites(input: seq<Byte>, k: nat, out: seq<Byte>, pos: nat, c: Rgb, i: nat)
    requires Stamp(input, k, out, pos, c).Ok? && i < |out|
    ensures var after := Stamp(input, k, out, pos, c).value.out;
            after[i] != out[i] ==> pos + 1914 <= i && after[i] == Component(c, (i - pos) % 3)
    decreases 8 * |input| - k
  {
    match StampCodeAt(input, k)
    case Ok(Advance(increment, e)) =>
      if pos + increment + 2 < |out| {
        StampStrides(input, k);
        var p := pos + increment;
        var out' := PutPixel(out, p, c);
        StampWrites(input, e, out', p, c, i);
        if pos + increment <= i {
          SameComponent(i, pos, increment);
        }
      }
    case _ =>
  }

  /** Moving on by a whole number of pixels keeps the component index. */
  lemma SameComponent(i: nat, pos: nat, increment: nat)
    requires increment % 3 == 0 && pos + increment <= i
    ensures (i - (pos + increment)) % 3 == (i - pos) % 3
  {
    assert i - pos == (i - (pos + increment)) + 3 * (increment / 3);
  }

  /** How `Main` proceeds from a turn inside the picture. */
  lemma MainContinues(input: seq<Byte>, k: nat, s: PState, k': nat, t: PState)
    requires |s.out| == Capacity && s.pos % 3 == 0 && s.pos < Capacity
    requires MainTurn(input, k, s) == Ok(Continue(k', t))
    ensures |t.out| == Capacity && t.pos % 3 == 0
    ensures Main(input, k, s) == Main(input, k', t)
  {
  }

  lemma MainFinishes(input: seq<Byte>, k: nat, s: PState, t: PState)
    requires |s.out| == Capacity && s.pos % 3 == 0 && s.pos < Capacity
    requires MainTurn(input, k, s) == Ok(Finished(t))
    ensures Main(input, k, s) == Ok(t)
  {
  }

  lemma MainFails(input: seq<Byte>, k: nat, s: PState)
    requires |s.out| == Capacity && s.pos % 3 == 0 && s.pos < Capacity
    requires MainTurn(input, k, s).Err?
    ensures Main(input, k, s) == Err(StreamOverrun)
  {
  }

  lemma MainLeftPicture(input: seq<Byte>, k: nat, s: PState)
    requires |s.out| == Capacity && s.pos % 3 == 0 && s.pos >= Capacity
    ensures Main(input, k, s) == Ok(s)
  {
  }
}
