/** The pieces of `DecodePFormat`'s main loop as they run on the cursor and
    the output buffer: reading a run-length code, reading a stamp code, the
    stamp loop and the literal pixel. Each is proved to do what the matching
    function of FormatP says. */
module PSteps {
  import opened DclTypes
  import opened BitCursor
  import opened FormatP

  /** The run-length code under the cursor: the 2-bit command, then for 2
      a 2-bit value, for 3 the unary width count and the value. */
  method ReadRunCode(input: seq<Byte>, c: Cursor) returns (r: Result<RunCode>, next: Cursor)
    requires ValidCursor(c)
    ensures r == RunCodeAt(input, Offset(c))
    ensures r.Ok? ==> ValidCursor(next) && Offset(next) == r.value.end
  {
    ghost var k := Offset(c);
    var command, afterCommand := ReadBits(input, 2, c);
    if command.Err? {
      return Err(command.error), c;
    }
    Pow2Small();
    if command.value <= 1 {
      return Ok(Run(command.value, Offset(afterCommand))), afterCommand;
    }
    if command.value == 2 {
      var v, afterValue := ReadBits(input, 2, afterCommand);
      if v.Err? {
        return Err(v.error), c;
      }
      return Ok(Run(v.value + 2, Offset(afterValue))), afterValue;
    }
    r, next := ReadExtendedRun(input, afterCommand);
  }

  /** The rest of a command-3 code: the width, then unless it is 24 or
      more the value. */
  method ReadExtendedRun(input: seq<Byte>, c: Cursor) returns (r: Result<RunCode>, next: Cursor)
    requires ValidCursor(c)
    ensures r == ExtendedRun(input, Offset(c))
    ensures r.Ok? ==> ValidCursor(next) && Offset(next) == r.value.end
  {
    var width, afterWidth := ReadWidth(input, c);
    if width.Err? {
      return Err(width.error), c;
    }
    var bits := width.value;
    next := afterWidth;
    if bits >= 24 {
      return Ok(EndOfImage(Offset(next))), next;
    }
    var v, afterValue := ReadBits(input, bits, next);
    if v.Err? {
      return Err(v.error), next;
    }
    return Ok(Run((Pow2(bits) - 1) + v.value - 1, Offset(afterValue))), afterValue;
  }

  /** The width of an extended run-length code: 3 plus one for each 1 bit
      before the first 0 bit, which is read too. */
  method ReadWidth(input: seq<Byte>, c: Cursor) returns (r: Result<nat>, next: Cursor)
    requires ValidCursor(c)
    ensures r.Ok? <==> Offset(c) + Ones(input, Offset(c)) < 8 * |input|
    ensures r.Err? ==> r.error == StreamOverrun
    ensures r.Ok? ==> && r.value == 3 + Ones(input, Offset(c))
                      && ValidCursor(next) && Offset(next) == Offset(c) + Ones(input, Offset(c)) + 1
  {
    ghost var k := Offset(c);
    var bits: nat := 3;
    next := c;
    while true
      invariant ValidCursor(next) && bits >= 3 && Offset(next) == k + (bits - 3)
      invariant Ones(input, k) == (bits - 3) + Ones(input, Offset(next))
      decreases 8 * |input| - Offset(next)
    {
      var bit, afterBit := ReadBit(input, next);
      if bit.Err? {
        return Err(bit.error), next;
      }
      next := afterBit;
      if !bit.value {
        return Ok(bits), next;
      }
      bits := bits + 1;
    }
  }

  /** The stamp code under the cursor. */
  method ReadStampCode(input: seq<Byte>, c: Cursor) returns (r: Result<StampCode>, next: Cursor)
    requires ValidCursor(c)
    ensures r == StampCodeAt(input, Offset(c))
    ensures r.Ok? ==> ValidCursor(next) && Offset(next) == r.value.end
  {
    var code, afterCode := ReadBits(input, 2, c);
    if code.Err? {
      return Err(code.error), c;
    }
    Pow2Small();
    next := afterCode;
    if code.value == 0 {
      var more, afterMore := ReadBit(input, next);
      if more.Err? {
        return Err(more.error), next;
      }
      next := afterMore;
      if !more.value {
        return Ok(StopStamp(Offset(next))), next;
      }
      var wide, afterWide := ReadBit(input, next);
      if wide.Err? {
        return Err(wide.error), next;
      }
      next := afterWide;
      r := Ok(Advance(if wide.value then 1926 else 1914, Offset(next)));
    } else if code.value == 1 {
      r := Ok(Advance(1917, Offset(next)));
    } else if code.value == 2 {
      r := Ok(Advance(1920, Offset(next)));
    } else {
      r := Ok(Advance(1923, Offset(next)));
    }
  }

  /** The three byte writes of one pixel, red first. */
  method Paint(output: array<Byte>, pos: nat, colour: Rgb)
    requires pos + 2 < output.Length
    modifies output
    ensures output[..] == PutPixel(old(output[..]), pos, colour)
  {
    output[pos] := colour.r;
    output[pos + 1] := colour.g;
    output[pos + 2] := colour.b;
  }

  /** The stamp loop: from the pixel at `pos`, repeat `colour` at each
      stride read until a stop code or until the next copy would not fit. */
  method StampLoop(input: seq<Byte>, output: array<Byte>, c: Cursor, pos: nat, colour: Rgb)
    returns (r: Result<()>, next: Cursor)
    requires ValidCursor(c)
    modifies output
    ensures var want := Stamp(input, Offset(c), old(output[..]), pos, colour);
            && (want.Err? ==> r == Err(want.error))
            && (want.Ok? ==> && r == Ok(()) && output[..] == want.value.out
                             && ValidCursor(next) && Offset(next) == want.value.end)
  {
    ghost var want := Stamp(input, Offset(c), output[..], pos, colour);
    var currentPos: nat := pos;
    next := c;
    while true
      invariant ValidCursor(next)
      invariant Stamp(input, Offset(next), output[..], currentPos, colour) == want
      decreases 8 * |input| - Offset(next)
    {
      var code, afterCode := ReadStampCode(input, next);
      if code.Err? {
        return Err(code.error), next;
      }
      next := afterCode;
      if code.value.StopStamp? {
        return Ok(()), next;
      }
      currentPos := currentPos + code.value.increment;
      if currentPos + 2 >= output.Length {
        return Ok(()), next;
      }
      Paint(output, currentPos, colour);
    }
  }

  /** The three colour bytes under the cursor. */
  method ReadColour(input: seq<Byte>, c: Cursor) returns (r: Result<Rgb>, next: Cursor)
    requires ValidCursor(c)
    ensures r.Ok? <==> Offset(c) + 24 <= 8 * |input|
    ensures r.Err? ==> r.error == StreamOverrun
    ensures r.Ok? ==> && r.value == Colour(input, Offset(c))
                      && ValidCursor(next) && Offset(next) == Offset(c) + 24
  {
    Pow2Small();
    var red, afterRed := ReadBits(input, 8, c);
    if red.Err? {
      return Err(red.error), c;
    }
    var green, afterGreen := ReadBits(input, 8, afterRed);
    if green.Err? {
      return Err(green.error), c;
    }
    var blue, afterBlue := ReadBits(input, 8, afterGreen);
    if blue.Err? {
      return Err(blue.error), c;
    }
    return Ok(Rgb(red.value, green.value, blue.value)), afterBlue;
  }

  /** One literal pixel at `pos`, which the run has left inside the
      picture: its three bytes, written at `pos` and on, then the flag bit
      and what it selects. */
  method LiteralPixel(input: seq<Byte>, output: array<Byte>, c: Cursor, pos: nat, ghost last: Rgb)
    returns (r: Result<Rgb>, next: Cursor)
    requires ValidCursor(c) && output.Length == Capacity && pos % 3 == 0 && pos < Capacity
    modifies output
    ensures var want := PixelTurn(input, Offset(c), PState(old(output[..]), pos, last));
            && (r.Err? ==> want == Err(r.error))
            && (r.Ok? ==> ValidCursor(next)
                          && want == Ok(Continue(Offset(next), PState(output[..], pos + 3, r.value))))
  {
    var colour, afterColour := ReadColour(input, c);
    if colour.Err? {
      return Err(colour.error), c;
    }
    Paint(output, pos, colour.value);
    var done;
    done, next := FlagAndStamp(input, output, afterColour, pos, colour.value);
    if done.Err? {
      return Err(done.error), next;
    }
    r := Ok(colour.value);
  }

  /** The flag bit after a literal pixel and, when it is 1, the stamp. */
  method FlagAndStamp(input: seq<Byte>, output: array<Byte>, c: Cursor, pos: nat, colour: Rgb)
    returns (r: Result<()>, next: Cursor)
    requires ValidCursor(c) && output.Length == Capacity
    modifies output
    ensures var want := FlagTurn(input, Offset(c), PState(old(output[..]), pos, colour));
            && (r.Err? ==> want == Err(r.error))
            && (r.Ok? ==> ValidCursor(next)
                          && want == Ok(Continue(Offset(next), PState(output[..], pos + 3, colour))))
  {
    var flag;
    flag, next := ReadBit(input, c);
    if flag.Err? {
      return Err(flag.error), next;
    }
    if flag.value {
      var stamped;
      stamped, next := StampLoop(input, output, next, pos, colour);
      if stamped.Err? {
        return Err(stamped.error), next;
      }
    }
    r := Ok(());
  }

  /** One turn of the main loop from `pos`, inside the picture: a run
      code, then unless the code or the run ends the loop a literal pixel.
      `done` says the loop ends here (the end-of-image code, or a run that
      leaves the picture). */
  method MainTurnStep(input: seq<Byte>, output: array<Byte>, c: Cursor, pos: nat, last: Rgb)
    returns (r: Result<bool>, next: Cursor, pos': nat, last': Rgb)
    requires ValidCursor(c) && output.Length == Capacity && pos % 3 == 0 && pos < Capacity
    modifies output
    ensures var want := MainTurn(input, Offset(c), PState(old(output[..]), pos, last));
            && (r.Err? ==> want == Err(r.error))
            && (r == Ok(true) ==> want == Ok(Finished(PState(output[..], pos', last'))))
            && (r == Ok(false) ==> ValidCursor(next)
                                   && want == Ok(Continue(Offset(next), PState(output[..], pos', last'))))
  {
    next, pos', last' := c, pos, last;
    var code, afterCode := ReadRunCode(input, c);
    if code.Err? {
      return Err(code.error), next, pos', last';
    }
    if code.value.EndOfImage? {
      return Ok(true), next, pos', last';
    }
    pos' := pos + code.value.length * 3;
    if pos' >= Capacity {
      return Ok(true), afterCode, pos', last';
    }
    AddPixels(pos, code.value.length);
    var colour;
    colour, next := LiteralPixel(input, output, afterCode, pos', last);
    if colour.Err? {
      return Err(colour.error), next, pos', last';
    }
    return Ok(false), next, pos' + 3, colour.value;
  }

  /** The cleared buffer of `Array.Clear`. */
  method Clear(output: array<Byte>)
    modifies output
    ensures output[..] == Zeros(output.Length)
  {
    forall i | 0 <= i < output.Length {
      output[i] := 0;
    }
  }
}
