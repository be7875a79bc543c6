/** Both decoders start reading at byte 2: the tag byte 0 and the unused
    byte 1 never reach them. Each lemma here says that a reference function
    gives the same result on two buffers that agree from byte 2 on. */
module HeaderFrame {
  import opened DclTypes
  import opened BitCursor
  import FormatL
  import FormatP

  /** `a` and `b` have the same length and the same bytes from byte 2 on. */
  predicate SamePayload(a: seq<Byte>, b: seq<Byte>)
  {
    |a| == |b| && forall i :: 2 <= i < |a| ==> a[i] == b[i]
  }

  /** Changing the header bytes keeps the payload. */
  lemma HeaderUpdate(a: seq<Byte>, i: nat, v: Byte)
    requires i < 2 && i < |a|
    ensures SamePayload(a, a[i := v])
  {
  }

  lemma BitAtPayload(a: seq<Byte>, b: seq<Byte>, k: nat)
    requires SamePayload(a, b) && 16 <= k < 8 * |a|
    ensures BitAt(a, k) == BitAt(b, k)
  {
    assert a[k / 8] == b[k / 8];
  }

  lemma {:induction false} BitsValuePayload(a: seq<Byte>, b: seq<Byte>, k: nat, n: nat)
    requires SamePayload(a, b) && k >= 16 && (n == 0 || k + n <= 8 * |a|)
    ensures BitsValue(a, k, n) == BitsValue(b, k, n)
    decreases n
  {
    if n > 0 {
      BitsValuePayload(a, b, k, n - 1);
      BitAtPayload(a, b, k + n - 1);
    }
  }

  lemma ByteAtPayload(a: seq<Byte>, b: seq<Byte>, k: nat)
    requires SamePayload(a, b) && k >= 16 && k + 8 <= 8 * |a|
    ensures ByteAt(a, k) == ByteAt(b, k)
  {
    BitsValuePayload(a, b, k, 8);
  }

  lemma {:induction false} OnesPayload(a: seq<Byte>, b: seq<Byte>, k: nat)
    requires SamePayload(a, b) && k >= 16
    ensures FormatP.Ones(a, k) == FormatP.Ones(b, k)
    decreases 8 * |a| - k
  {
    if k < 8 * |a| {
      BitAtPayload(a, b, k);
      OnesPayload(a, b, k + 1);
    }
  }

  lemma ExtendedRunPayload(a: seq<Byte>, b: seq<Byte>, k: nat)
    requires SamePayload(a, b) && k >= 16
    ensures FormatP.ExtendedRun(a, k) == FormatP.ExtendedRun(b, k)
  {
    OnesPayload(a, b, k);
    var n := FormatP.Ones(a, k);
    if k + n < 8 * |a| && 3 + n < 24 && k + 1 + n + 3 + n <= 8 * |a| {
      BitsValuePayload(a, b, k + 1 + n, 3 + n);
    }
  }

  lemma RunCodePayload(a: seq<Byte>, b: seq<Byte>, k: nat)
    requires SamePayload(a, b) && k >= 16
    ensures FormatP.RunCodeAt(a, k) == FormatP.RunCodeAt(b, k)
  {
    if k + 2 <= 8 * |a| {
      BitsValuePayload(a, b, k, 2);
      if k + 4 <= 8 * |a| {
        BitsValuePayload(a, b, k + 2, 2);
      }
      ExtendedRunPayload(a, b, k + 2);
    }
  }

  lemma StampCodePayload(a: seq<Byte>, b: seq<Byte>, k: nat)
    requires SamePayload(a, b) && k >= 16
    ensures FormatP.StampCodeAt(a, k) == FormatP.StampCodeAt(b, k)
  {
    if k + 2 <= 8 * |a| {
      BitsValuePayload(a, b, k, 2);
      if k + 2 < 8 * |a| {
        BitAtPayload(a, b, k + 2);
      }
      if k + 3 < 8 * |a| {
        BitAtPayload(a, b, k + 3);
      }
    }
  }

  lemma {:induction false} StampPayload(a: seq<Byte>, b: seq<Byte>, k: nat, out: seq<Byte>, pos: nat, c: Rgb)
    requires SamePayload(a, b) && k >= 16
    ensures FormatP.Stamp(a, k, out, pos, c) == FormatP.Stamp(b, k, out, pos, c)
    decreases 8 * |a| - k
  {
    StampCodePayload(a, b, k);
    match FormatP.StampCodeAt(a, k)
    case Err(_) =>
    case Ok(StopStamp(_)) =>
    case Ok(Advance(increment, e)) =>
      if pos + increment + 2 < |out| {
        StampPayload(a, b, e, FormatP.PutPixel(out, pos + increment, c), pos + increment, c);
      }
  }

  lemma MainTurnPayload(a: seq<Byte>, b: seq<Byte>, k: nat, s: FormatP.PState)
    requires SamePayload(a, b) && k >= 16
    requires |s.out| == FormatP.Capacity && s.pos % 3 == 0 && s.pos < FormatP.Capacity
    ensures FormatP.MainTurn(a, k, s) == FormatP.MainTurn(b, k, s)
  {
    RunCodePayload(a, b, k);
    match FormatP.RunCodeAt(a, k)
    case Err(_) =>
    case Ok(EndOfImage(_)) =>
    case Ok(Run(n, e)) =>
      FormatP.AddPixels(s.pos, n);
      var pos := s.pos + n * 3;
      if pos < FormatP.Capacity {
        FormatP.AddPixels(pos, 1);
        PixelTurnPayload(a, b, e, FormatP.PState(s.out, pos, s.last));
      }
  }

  lemma PixelTurnPayload(a: seq<Byte>, b: seq<Byte>, k: nat, s: FormatP.PState)
    requires SamePayload(a, b) && k >= 16
    requires |s.out| == FormatP.Capacity && s.pos % 3 == 0 && s.pos < FormatP.Capacity
    ensures FormatP.PixelTurn(a, k, s) == FormatP.PixelTurn(b, k, s)
  {
    if k + 24 <= 8 * |a| {
      ByteAtPayload(a, b, k);
      ByteAtPayload(a, b, k + 8);
      ByteAtPayload(a, b, k + 16);
      var c := FormatP.Colour(a, k);
      FlagTurnPayload(a, b, k + 24, FormatP.PState(FormatP.PutPixel(s.out, s.pos, c), s.pos, c));
    }
  }

  lemma FlagTurnPayload(a: seq<Byte>, b: seq<Byte>, k: nat, s: FormatP.PState)
    requires SamePayload(a, b) && k >= 16 && |s.out| == FormatP.Capacity
    ensures FormatP.FlagTurn(a, k, s) == FormatP.FlagTurn(b, k, s)
  {
    if k < 8 * |a| {
      BitAtPayload(a, b, k);
      if BitAt(a, k) {
        StampPayload(a, b, k + 1, s.out, s.pos, s.last);
      }
    }
  }

  lemma {:induction false} MainPayload(a: seq<Byte>, b: seq<Byte>, k: nat, s: FormatP.PState)
    requires SamePayload(a, b) && k >= 16 && |s.out| == FormatP.Capacity && s.pos % 3 == 0
    ensures FormatP.Main(a, k, s) == FormatP.Main(b, k, s)
    decreases 8 * |a| - k
  {
    if s.pos < FormatP.Capacity {
      MainTurnPayload(a, b, k, s);
      match FormatP.MainTurn(a, k, s)
      case Err(_) =>
      case Ok(Finished(_)) =>
      case Ok(Continue(k', t)) =>
        MainPayload(a, b, k', t);
    }
  }

  /** The 'P' decoder's result depends on bytes 2 and on only. */
  lemma DecodePPayload(a: seq<Byte>, b: seq<Byte>)
    requires SamePayload(a, b)
    ensures FormatP.DecodeP(a) == FormatP.DecodeP(b)
  {
    MainPayload(a, b, Offset(Start), FormatP.PState(Zeros(FormatP.Capacity), 0, Black));
  }

  lemma ReferenceAtPayload(a: seq<Byte>, b: seq<Byte>, k: nat)
    requires SamePayload(a, b) && k >= 16
    ensures FormatL.ReferenceAt(a, k) == FormatL.ReferenceAt(b, k)
  {
    if k + 17 <= 8 * |a| {
      BitsValuePayload(a, b, k + 1, 16);
      if k + 21 <= 8 * |a| {
        BitsValuePayload(a, b, k + 17, 4);
      }
    }
  }

  lemma {:induction false} DecodeLPayload(a: seq<Byte>, b: seq<Byte>, k: nat, p: FormatL.Progress)
    requires SamePayload(a, b) && k >= 16 && |p.table| == FormatL.TableSize
    ensures FormatL.Decode(a, k, p) == FormatL.Decode(b, k, p)
    decreases 8 * |a| - k, 1
  {
    if k < 8 * |a| {
      BitAtPayload(a, b, k);
      if BitAt(a, k) {
        LiteralPayload(a, b, k, p);
        assert FormatL.Decode(a, k, p) == FormatL.DecodeLiteral(a, k, p);
      } else {
        FormatL.ReferenceStep(a, k, p);
        FormatL.ReferenceStep(b, k, p);
        ReferenceAtPayload(a, b, k);
        match FormatL.ReferenceAt(a, k)
        case Err(_) =>
        case Ok(EndOfStream) =>
        case Ok(Copy(offset, length)) =>
          var e := FormatL.Expand(p, offset, 0, length);
          if e.Ok? {
            DecodeLPayload(a, b, k + 21, e.value);
          }
      }
    }
  }

  lemma {:induction false} LiteralPayload(a: seq<Byte>, b: seq<Byte>, k: nat, p: FormatL.Progress)
    requires SamePayload(a, b) && k >= 16 && |p.table| == FormatL.TableSize && k < 8 * |a|
    ensures FormatL.DecodeLiteral(a, k, p) == FormatL.DecodeLiteral(b, k, p)
    decreases 8 * |a| - k, 0
  {
    if k + 9 <= 8 * |a| && p.len < |p.out| {
      ByteAtPayload(a, b, k + 1);
      DecodeLPayload(a, b, k + 9, FormatL.Emit(p, ByteAt(a, k + 1)));
    }
  }
}
