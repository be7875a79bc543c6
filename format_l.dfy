/** The 'L' sub-format: a stream of literal bytes and back-references. Every
    byte the decoder appends to the output is also stored in a 65,536-byte
    lookup table, at the new output length modulo 65,536; a back-reference
    copies bytes out of that table.

    This module gives the decoder's meaning as functions on sequences; the
    imperative decoder in module Decoder is proved equal to `Decode`. */
module FormatL {
  import opened DclTypes
  import opened BitCursor

  /** `lookupTable.Length`; indices into it are taken `& 0xFFFF`. */
  const TableSize := 65536

  /** What the decoder has produced so far: the output buffer, `outputPos`
      (the number of bytes appended) and the lookup table. */
  datatype Progress = Progress(out: seq<Byte>, len: nat, table: seq<Byte>)

  /** Appends `v`: `output[outputPos++] = v; lookupTable[outputPos & 0xFFFF] = v;` */
  function Emit(p: Progress, v: Byte): Progress
    requires p.len < |p.out| && |p.table| == TableSize
  {
    Progress(p.out[p.len := v], p.len + 1, p.table[(p.len + 1) % TableSize := v])
  }

  /** Turns `i` to `last` of a back-reference's copy loop: turn `i` appends
      the table byte at `(i + offset) & 0xFFFF` as the table stands then. */
  function Expand(p: Progress, offset: nat, i: nat, last: nat): (r: Result<Progress>)
    requires |p.table| == TableSize
    ensures r.Ok? ==> |r.value.table| == TableSize && |r.value.out| == |p.out|
    ensures r.Err? ==> r.error == DecodeOverflow
    decreases last + 1 - i
  {
    if i > last then Ok(p)
    else if p.len >= |p.out| then Err(DecodeOverflow)
    else Expand(Emit(p, p.table[(i + offset) % TableSize]), offset, i + 1, last)
  }

  /** The decoder from bit `k` on. Each step reads a flag bit: 1 is a
      literal, 0 a back-reference or the end of the stream. */
  function Decode(input: seq<Byte>, k: nat, p: Progress): (r: Result<Progress>)
    requires |p.table| == TableSize
    ensures r.Ok? ==> |r.value.table| == TableSize && |r.value.out| == |p.out|
    ensures r.Err? ==> r.error == StreamOverrun || r.error == DecodeOverflow
    decreases 8 * |input| - k, 1
  {
    if k >= 8 * |input| then Err(StreamOverrun)
    else if BitAt(input, k) then DecodeLiteral(input, k, p)
    else DecodeReference(input, k, p)
  }

  /** A 1 flag bit at `k`: the 8 bits after it are appended as one byte. */
  function DecodeLiteral(input: seq<Byte>, k: nat, p: Progress): (r: Result<Progress>)
    requires |p.table| == TableSize && k < 8 * |input|
    ensures r.Ok? ==> |r.value.table| == TableSize && |r.value.out| == |p.out|
    ensures r.Err? ==> r.error == StreamOverrun || r.error == DecodeOverflow
    decreases 8 * |input| - k, 0
  {
    if k + 9 > 8 * |input| then Err(StreamOverrun)
    else if p.len >= |p.out| then Err(DecodeOverflow)
    else Decode(input, k + 9, Emit(p, ByteAt(input, k + 1)))
  }

  /** A 0 flag bit at `k`: a 16-bit offset follows. An offset of 0 ends the
      stream; any other is a back-reference whose 4-bit field gives
      `length = field + 2`, and `length + 1` bytes are copied. */
  function DecodeReference(input: seq<Byte>, k: nat, p: Progress): (r: Result<Progress>)
    requires |p.table| == TableSize && k < 8 * |input|
    ensures r.Ok? ==> |r.value.table| == TableSize && |r.value.out| == |p.out|
    ensures r.Err? ==> r.error == StreamOverrun || r.error == DecodeOverflow
    decreases 8 * |input| - k, 0
  {
    if k + 17 > 8 * |input| then Err(StreamOverrun)
    else if BitsValue(input, k + 1, 16) == 0 then Ok(p)
    else if k + 21 > 8 * |input| then Err(StreamOverrun)
    else match Expand(p, BitsValue(input, k + 1, 16), 0, BitsValue(input, k + 17, 4) + 2)
      case Err(e) => Err(e)
      case Ok(q) => Decode(input, k + 21, q)
  }

  /** One literal: a 1 bit and the 8-bit value after it append that value. */
  lemma LiteralStep(input: seq<Byte>, k: nat, p: Progress)
    requires |p.table| == TableSize && k + 9 <= 8 * |input| && BitAt(input, k) && p.len < |p.out|
    ensures Decode(input, k, p) == Decode(input, k + 9, Emit(p, ByteAt(input, k + 1)))
  {
    assert Decode(input, k, p) == DecodeLiteral(input, k, p);
  }

  /** A 1 flag bit without 8 bits after it overruns the input. */
  lemma LiteralOverrun(input: seq<Byte>, k: nat, p: Progress)
    requires |p.table| == TableSize && k < 8 * |input| < k + 9 && BitAt(input, k)
    ensures Decode(input, k, p) == Err(StreamOverrun)
  {
    assert Decode(input, k, p) == DecodeLiteral(input, k, p);
  }

  /** A literal with no room left in the output overflows it. */
  lemma LiteralOverflow(input: seq<Byte>, k: nat, p: Progress)
    requires |p.table| == TableSize && k + 9 <= 8 * |input| && BitAt(input, k) && p.len >= |p.out|
    ensures Decode(input, k, p) == Err(DecodeOverflow)
  {
    assert Decode(input, k, p) == DecodeLiteral(input, k, p);
  }

  /** The code after a 0 flag bit at `k`: the 16-bit offset, where 0 ends
      the stream, and after any other offset the 4-bit field, giving
      `length = field + 2`. */
  datatype Reference = EndOfStream | Copy(offset: nat, length: nat)

  function ReferenceAt(input: seq<Byte>, k: nat): Result<Reference>
  {
    if k + 17 > 8 * |input| then Err(StreamOverrun)
    else if BitsValue(input, k + 1, 16) == 0 then Ok(EndOfStream)
    else if k + 21 > 8 * |input| then Err(StreamOverrun)
    else Ok(Copy(BitsValue(input, k + 1, 16), BitsValue(input, k + 17, 4) + 2))
  }

  /** A 0 flag bit: the code after it ends the stream, or its copy is made
      and decoding goes on after the code; a code cut short is an overrun. */
  lemma ReferenceStep(input: seq<Byte>, k: nat, p: Progress)
    requires |p.table| == TableSize && k < 8 * |input| && !BitAt(input, k)
    ensures Decode(input, k, p) ==
      match ReferenceAt(input, k)
      case Err(e) => Err(e)
      case Ok(EndOfStream) => Ok(p)
      case Ok(Copy(offset, length)) =>
        match Expand(p, offset, 0, length)
        case Err(e) => Err(e)
        case Ok(q) => Decode(input, k + 21, q)
  {
    assert Decode(input, k, p) == DecodeReference(input, k, p);
  }

  /** A 0 flag bit followed by a zero offset ends the stream. */
  lemma EndStep(input: seq<Byte>, k: nat, p: Progress)
    requires |p.table| == TableSize && k + 17 <= 8 * |input| && !BitAt(input, k)
    requires BitsValue(input, k + 1, 16) == 0
    ensures Decode(input, k, p) == Ok(p)
  {
    assert Decode(input, k, p) == DecodeReference(input, k, p);
  }

  /** A 0 flag bit, a non-zero offset and a 4-bit field: a back-reference. */
  lemma BackReferenceStep(input: seq<Byte>, k: nat, p: Progress)
    requires |p.table| == TableSize && k + 21 <= 8 * |input| && !BitAt(input, k)
    requires BitsValue(input, k + 1, 16) != 0
    ensures Decode(input, k, p) ==
      match Expand(p, BitsValue(input, k + 1, 16), 0, BitsValue(input, k + 17, 4) + 2)
      case Err(e) => Err(e)
      case Ok(q) => Decode(input, k + 21, q)
  {
    assert Decode(input, k, p) == DecodeReference(input, k, p);
  }

  /** The lookup table holds, at each output length `m` of the last 65,536,
      the byte appended when the output grew to `m`. */
  ghost predicate Mirrors(p: Progress)
  {
    && p.len <= |p.out| && |p.table| == TableSize
    && forall m :: 1 <= m <= p.len && p.len < m + TableSize ==> p.table[m % TableSize] == p.out[m - 1]
  }

  lemma EmitMirrors(p: Progress, v: Byte)
    requires Mirrors(p) && p.len < |p.out|
    ensures Mirrors(Emit(p, v))
  {
    var q := Emit(p, v);
    forall m | 1 <= m <= q.len && q.len < m + TableSize
      ensures q.table[m % TableSize] == q.out[m - 1]
    {
      if m < q.len {
        assert m % TableSize != q.len % TableSize;
      }
    }
  }

  /** A back-reference appends exactly `last + 1 - i` bytes, fails with
      DecodeOverflow exactly when they do not fit, and leaves the bytes
      before and after the appended ones alone. */
  lemma {:induction false} ExpandAppends(p: Progress, offset: nat, i: nat, last: nat)
    requires |p.table| == TableSize && p.len <= |p.out| && i <= last + 1
    ensures Expand(p, offset, i, last).Ok? <==> p.len + (last + 1 - i) <= |p.out|
    ensures Expand(p, offset, i, last).Err? ==> Expand(p, offset, i, last).error == DecodeOverflow
    ensures Expand(p, offset, i, last).Ok? ==>
      var q := Expand(p, offset, i, last).value;
      && q.len == p.len + (last + 1 - i)
      && q.out[..p.len] == p.out[..p.len]
      && q.out[q.len..] == p.out[q.len..]
    decreases last + 1 - i
  {
    if i <= last && p.len < |p.out| {
      var p' := Emit(p, p.table[(i + offset) % TableSize]);
      ExpandAppends(p', offset, i + 1, last);
      if Expand(p, offset, i, last).Ok? {
        var q := Expand(p, offset, i, last).value;
        assert q.out[..p.len] == p'.out[..p'.len][..p.len];
      }
    }
  }

  lemma {:induction false} ExpandMirrors(p: Progress, offset: nat, i: nat, last: nat)
    requires Mirrors(p)
    ensures Expand(p, offset, i, last).Ok? ==> Mirrors(Expand(p, offset, i, last).value)
    decreases last + 1 - i
  {
    if i <= last && p.len < |p.out| {
      var p' := Emit(p, p.table[(i + offset) % TableSize]);
      EmitMirrors(p, p.table[(i + offset) % TableSize]);
      ExpandMirrors(p', offset, i + 1, last);
    }
  }

  /** Turn `i` of a back-reference that started at `j` copies the byte the
      output already holds at `src`, whenever `src + 1` is the output length
      of the last 65,536 whose table slot turn `i` reads. */
  lemma {:induction false} ExpandCopiesFromOutput(p: Progress, offset: nat, j: nat, last: nat, i: nat, src: nat)
    requires Mirrors(p) && j <= i <= last && Expand(p, offset, j, last).Ok?
    requires src < p.len + (i - j) <= src + TableSize
    requires (src + 1) % TableSize == (i + offset) % TableSize
    ensures p.len + (i - j) < |p.out|
    ensures Expand(p, offset, j, last).value.out[p.len + (i - j)] == Expand(p, offset, j, last).value.out[src]
    decreases last + 1 - j
  {
    if i == j {
      ExpandCopiesFirst(p, offset, j, last, src);
    } else {
      ExpandAppends(p, offset, j, last);
      var v := p.table[(j + offset) % TableSize];
      assert Expand(p, offset, j, last) == Expand(Emit(p, v), offset, j + 1, last);
      EmitMirrors(p, v);
      ExpandCopiesFromOutput(Emit(p, v), offset, j + 1, last, i, src);
    }
  }

  /** The first turn of `ExpandCopiesFromOutput`. */
  lemma ExpandCopiesFirst(p: Progress, offset: nat, j: nat, last: nat, src: nat)
    requires Mirrors(p) && j <= last && Expand(p, offset, j, last).Ok?
    requires src < p.len <= src + TableSize
    requires (src + 1) % TableSize == (j + offset) % TableSize
    ensures p.len < |p.out|
    ensures Expand(p, offset, j, last).value.out[p.len] == Expand(p, offset, j, last).value.out[src]
  {
    ExpandAppends(p, offset, j, last);
    var v := p.table[(j + offset) % TableSize];
    var p' := Emit(p, v);
    var q := Expand(p, offset, j, last).value;
    assert Expand(p', offset, j + 1, last) == Ok(q);
    ExpandAppends(p', offset, j + 1, last);
    assert q.out[..p'.len][p.len] == p'.out[..p'.len][p.len];
    assert q.out[..p.len][src] == p.out[..p.len][src];
  }

  /** When no output length so far maps to the slot turn `i` reads, the byte
      copied is the one the table held before the back-reference began. */
  lemma {:induction false} ExpandCopiesStaleSlot(p: Progress, offset: nat, j: nat, last: nat, i: nat)
    requires |p.table| == TableSize && p.len <= |p.out|
    requires j <= i <= last && Expand(p, offset, j, last).Ok?
    requires p.len + (i - j) < TableSize
    requires (i + offset) % TableSize == 0 || (i + offset) % TableSize > p.len + (i - j)
    ensures p.len + (i - j) < |p.out|
    ensures Expand(p, offset, j, last).value.out[p.len + (i - j)] == p.table[(i + offset) % TableSize]
    decreases last + 1 - j
  {
    if i == j {
      ExpandCopiesSlot(p, offset, j, last);
    } else {
      ExpandAppends(p, offset, j, last);
      var p' := Emit(p, p.table[(j + offset) % TableSize]);
      EmitKeepsSlot(p, p.table[(j + offset) % TableSize], (i + offset) % TableSize);
      ExpandCopiesStaleSlot(p', offset, j + 1, last, i);
    }
  }

  /** An append leaves every table slot but the new length's alone. */
  lemma EmitKeepsSlot(p: Progress, v: Byte, slot: nat)
    requires |p.table| == TableSize && p.len < |p.out| && p.len + 1 < TableSize
    requires slot == 0 || p.len + 1 < slot < TableSize
    ensures Emit(p, v).table[slot] == p.table[slot]
  {
    assert (p.len + 1) % TableSize == p.len + 1;
  }

  /** The first turn of a back-reference copies the table slot it reads. */
  lemma ExpandCopiesSlot(p: Progress, offset: nat, j: nat, last: nat)
    requires |p.table| == TableSize && p.len <= |p.out|
    requires j <= last && Expand(p, offset, j, last).Ok?
    ensures p.len < |p.out|
    ensures Expand(p, offset, j, last).value.out[p.len] == p.table[(j + offset) % TableSize]
  {
    ExpandAppends(p, offset, j, last);
    var v := p.table[(j + offset) % TableSize];
    var p' := Emit(p, v);
    var q := Expand(p, offset, j, last).value;
    assert Expand(p', offset, j + 1, last) == Ok(q);
    ExpandAppends(p', offset, j + 1, last);
    assert q.out[..p'.len][p.len] == p'.out[..p'.len][p.len];
  }

  lemma ModShift(a: int, d: int)
    ensures (a + TableSize * d) % TableSize == a % TableSize
  {
  }

  /** What a back-reference means: with `dist = ((outputPos - offset) mod
      65,536) + 1`, fixed for the whole copy, each appended byte repeats the
      byte `dist` places earlier in the output, as a sliding-window
      back-reference does, and a byte that would lie before the start of the
      output comes from the lookup table as it stood before the copy. */
  lemma ExpandIsBackReference(p: Progress, offset: nat, last: nat, i: nat)
    requires Mirrors(p) && i <= last && Expand(p, offset, 0, last).Ok?
    ensures var q := Expand(p, offset, 0, last).value;
            var dist := (p.len - offset) % TableSize + 1;
            && q.len == p.len + last + 1 <= |q.out|
            && (p.len + i >= dist ==> q.out[p.len + i] == q.out[p.len + i - dist])
            && (p.len + i < dist ==> q.out[p.len + i] == p.table[(i + offset) % TableSize])
  {
    ExpandAppends(p, offset, 0, last);
    if p.len + i >= (p.len - offset) % TableSize + 1 {
      BackReferenceFromOutput(p, offset, last, i);
    } else {
      BackReferenceFromTable(p, offset, last, i);
    }
  }

  /** The case of `ExpandIsBackReference` where the byte `dist` back lies
      in the output. */
  lemma BackReferenceFromOutput(p: Progress, offset: nat, last: nat, i: nat)
    requires Mirrors(p) && i <= last && Expand(p, offset, 0, last).Ok?
    requires p.len + i >= (p.len - offset) % TableSize + 1
    ensures var q := Expand(p, offset, 0, last).value;
            var src := p.len + i - ((p.len - offset) % TableSize + 1);
            p.len + i < |q.out| && q.out[p.len + i] == q.out[src]
  {
    var d := (p.len - offset) % TableSize;
    BackReferenceSlot(p.len, offset, i);
    ExpandCopiesFromOutput(p, offset, 0, last, i, p.len + i - d - 1);
  }

  /** The case of `ExpandIsBackReference` where it would lie before the
      output's start. */
  lemma BackReferenceFromTable(p: Progress, offset: nat, last: nat, i: nat)
    requires Mirrors(p) && i <= last && Expand(p, offset, 0, last).Ok?
    requires p.len + i < (p.len - offset) % TableSize + 1
    ensures var q := Expand(p, offset, 0, last).value;
            p.len + i < |q.out| && q.out[p.len + i] == p.table[(i + offset) % TableSize]
  {
    BackReferenceSlot(p.len, offset, i);
    ExpandCopiesStaleSlot(p, offset, 0, last, i);
  }

  /** The slot turn `i` reads is the output length `dist` bytes back,
      modulo 65,536; when that would lie before the output's start, it is
      0 or a slot beyond the current length. */
  lemma BackReferenceSlot(len: nat, offset: nat, i: nat)
    ensures var d := (len - offset) % TableSize;
            var slot := (i + offset) % TableSize;
            && (len + i - d) % TableSize == slot
            && (len + i < d + 1 ==> slot == 0 || slot > len + i)
  {
    var d := (len - offset) % TableSize;
    var w := (len - offset) / TableSize;
    assert len - offset == TableSize * w + d;
    ModShift(i + offset, w);
  }

  /** Whatever the stream, decoding keeps the lookup table a mirror of the
      output's last 65,536 bytes. */
  lemma {:induction false} DecodeMirrors(input: seq<Byte>, k: nat, p: Progress)
    requires Mirrors(p)
    ensures Decode(input, k, p).Ok? ==> Mirrors(Decode(input, k, p).value)
    decreases 8 * |input| - k
  {
    if k < 8 * |input| {
      if BitAt(input, k) {
        if k + 9 <= 8 * |input| && p.len < |p.out| {
          EmitMirrors(p, ByteAt(input, k + 1));
          DecodeMirrors(input, k + 9, Emit(p, ByteAt(input, k + 1)));
        }
      } else {
        ReferenceStep(input, k, p);
        match ReferenceAt(input, k)
        case Err(_) =>
        case Ok(EndOfStream) =>
        case Ok(Copy(offset, length)) =>
          ExpandMirrors(p, offset, 0, length);
          if Expand(p, offset, 0, length).Ok? {
            DecodeMirrors(input, k + 21, Expand(p, offset, 0, length).value);
          }
      }
    }
  }

  /** `q` is `p` with bytes appended: same buffer size, the bytes before
      `p.len` and from `q.len` on unchanged. */
  ghost predicate Extends(p: Progress, q: Progress)
  {
    && p.len <= q.len <= |q.out| == |p.out|
    && q.out[..p.len] == p.out[..p.len]
    && q.out[q.len..] == p.out[q.len..]
  }

  lemma ExtendsTransitive(p: Progress, q: Progress, r: Progress)
    requires Extends(p, q) && Extends(q, r)
    ensures Extends(p, r)
  {
    assert r.out[..p.len] == r.out[..q.len][..p.len];
    assert r.out[r.len..] == q.out[q.len..][r.len - q.len..];
  }

  lemma EmitExtends(p: Progress, v: Byte)
    requires |p.table| == TableSize && p.len < |p.out|
    ensures Extends(p, Emit(p, v))
  {
  }

  /** Decoding only appends: the bytes before the starting length and those
      at or after the final length are untouched. */
  lemma {:induction false} DecodeAppends(input: seq<Byte>, k: nat, p: Progress)
    requires |p.table| == TableSize && p.len <= |p.out|
    ensures Decode(input, k, p).Ok? ==> Extends(p, Decode(input, k, p).value)
    decreases 8 * |input| - k
  {
    if k < 8 * |input| && Decode(input, k, p).Ok? {
      var q := Decode(input, k, p).value;
      if BitAt(input, k) {
        assert Decode(input, k, p) == DecodeLiteral(input, k, p);
        var p' := Emit(p, ByteAt(input, k + 1));
        EmitExtends(p, ByteAt(input, k + 1));
        DecodeAppends(input, k + 9, p');
        ExtendsTransitive(p, p', q);
      } else {
        ReferenceStep(input, k, p);
        match ReferenceAt(input, k)
        case Err(_) =>
        case Ok(EndOfStream) =>
        case Ok(Copy(offset, length)) =>
          ExpandAppends(p, offset, 0, length);
          var p' := Expand(p, offset, 0, length).value;
          DecodeAppends(input, k + 21, p');
          ExtendsTransitive(p, p', q);
      }
    }
  }

  /** Decoding from the flag bit `k` with progress `p` stands at the flag
      bit `e` with progress `q` after `n` turns of the outer loop, each turn
      a literal (a 1 flag bit and 8 bits, as in `LiteralStep`) or a
      back-reference with a non-zero offset (a 0 flag bit, 16 + 4 bits and
      the copy, as in `BackReferenceStep`) that succeeds. */
  ghost predicate Reaches(input: seq<Byte>, k: nat, p: Progress, n: nat, e: nat, q: Progress)
    decreases n
  {
    if n == 0 then e == k && q == p
    else
      && |p.table| == TableSize && k < 8 * |input|
      && if BitAt(input, k) then
           && k + 9 <= 8 * |input| && p.len < |p.out|
           && Reaches(input, k + 9, Emit(p, ByteAt(input, k + 1)), n - 1, e, q)
         else
           && k + 21 <= 8 * |input| && BitsValue(input, k + 1, 16) != 0
           && var x := Expand(p, BitsValue(input, k + 1, 16), 0, BitsValue(input, k + 17, 4) + 2);
              x.Ok? && Reaches(input, k + 21, x.value, n - 1, e, q)
  }

  /** What a first turn needs: the bits of its code, and room for a literal. */
  lemma ReachesFirstTurn(input: seq<Byte>, k: nat, p: Progress, n: nat, e: nat, q: Progress)
    requires n > 0 && Reaches(input, k, p, n, e, q)
    ensures |p.table| == TableSize && k < 8 * |input|
    ensures BitAt(input, k) ==> k + 9 <= 8 * |input| && p.len < |p.out|
    ensures !BitAt(input, k) ==> k + 21 <= 8 * |input| && BitsValue(input, k + 1, 16) != 0
  {
  }

  /** A first turn that is a literal. */
  lemma ReachesByLiteral(input: seq<Byte>, k: nat, p: Progress, n: nat, e: nat, q: Progress)
    requires n > 0 && |p.table| == TableSize && k + 9 <= 8 * |input| && BitAt(input, k) && p.len < |p.out|
    ensures Reaches(input, k, p, n, e, q) <==> Reaches(input, k + 9, Emit(p, ByteAt(input, k + 1)), n - 1, e, q)
  {
  }

  /** A first turn that is a back-reference. */
  lemma ReachesByReference(input: seq<Byte>, k: nat, p: Progress, n: nat, e: nat, q: Progress)
    requires n > 0 && |p.table| == TableSize && k + 21 <= 8 * |input| && !BitAt(input, k)
    requires BitsValue(input, k + 1, 16) != 0
    ensures var x := Expand(p, BitsValue(input, k + 1, 16), 0, BitsValue(input, k + 17, 4) + 2);
            Reaches(input, k, p, n, e, q) <==> x.Ok? && Reaches(input, k + 21, x.value, n - 1, e, q)
  {
  }

  /** The end code: a 0 flag bit at `e` followed by a 16-bit zero offset. */
  ghost predicate EndCodeAt(input: seq<Byte>, e: nat)
  {
    e + 17 <= 8 * |input| && !BitAt(input, e) && BitsValue(input, e + 1, 16) == 0
  }

  /** A successful decode is the progress at the first end code the decoder
      reaches: some number of literal and back-reference turns lead from
      `k` to a flag bit `e` holding the end code, with exactly the result's
      progress. */
  lemma {:induction false} DecodeEndsAtZeroOffset(input: seq<Byte>, k: nat, p: Progress)
    requires |p.table| == TableSize
    ensures Decode(input, k, p).Ok? ==>
      exists n: nat, e: nat :: Reaches(input, k, p, n, e, Decode(input, k, p).value) && EndCodeAt(input, e)
    decreases 8 * |input| - k, 1
  {
    if k < 8 * |input| && Decode(input, k, p).Ok? {
      if BitAt(input, k) {
        assert Decode(input, k, p) == DecodeLiteral(input, k, p);
        EndsAfterLiteral(input, k, p);
      } else {
        ReferenceStep(input, k, p);
        match ReferenceAt(input, k)
        case Err(_) =>
        case Ok(EndOfStream) =>
          assert Reaches(input, k, p, 0, k, p) && EndCodeAt(input, k);
        case Ok(Copy(offset, length)) =>
          EndsAfterReference(input, k, p);
      }
    }
  }

  lemma {:induction false} EndsAfterLiteral(input: seq<Byte>, k: nat, p: Progress)
    requires |p.table| == TableSize && k + 9 <= 8 * |input| && BitAt(input, k) && p.len < |p.out|
    requires Decode(input, k, p).Ok?
    ensures exists n: nat, e: nat :: Reaches(input, k, p, n, e, Decode(input, k, p).value) && EndCodeAt(input, e)
    decreases 8 * |input| - k, 0
  {
    var r := Decode(input, k, p).value;
    LiteralStep(input, k, p);
    var p' := Emit(p, ByteAt(input, k + 1));
    DecodeEndsAtZeroOffset(input, k + 9, p');
    var n: nat, e: nat :| Reaches(input, k + 9, p', n, e, r) && EndCodeAt(input, e);
    ReachesByLiteral(input, k, p, n + 1, e, r);
  }

  lemma {:induction false} EndsAfterReference(input: seq<Byte>, k: nat, p: Progress)
    requires |p.table| == TableSize && k + 21 <= 8 * |input| && !BitAt(input, k)
    requires BitsValue(input, k + 1, 16) != 0 && Decode(input, k, p).Ok?
    ensures exists n: nat, e: nat :: Reaches(input, k, p, n, e, Decode(input, k, p).value) && EndCodeAt(input, e)
    decreases 8 * |input| - k, 0
  {
    var r := Decode(input, k, p).value;
    BackReferenceStep(input, k, p);
    var x := Expand(p, BitsValue(input, k + 1, 16), 0, BitsValue(input, k + 17, 4) + 2);
    assert x.Ok?;
    DecodeEndsAtZeroOffset(input, k + 21, x.value);
    var n: nat, e: nat :| Reaches(input, k + 21, x.value, n, e, r) && EndCodeAt(input, e);
    ReachesByReference(input, k, p, n + 1, e, r);
  }

  /** Conversely, turns that reach an end code decode to the progress they
      reach. */
  lemma {:induction false} ReachedEndCodeDecodes(input: seq<Byte>, k: nat, p: Progress, n: nat, e: nat, q: Progress)
    requires |p.table| == TableSize && Reaches(input, k, p, n, e, q) && EndCodeAt(input, e)
    ensures Decode(input, k, p) == Ok(q)
    decreases n, 1
  {
    if n == 0 {
      EndStep(input, k, p);
    } else {
      ReachesFirstTurn(input, k, p, n, e, q);
      if BitAt(input, k) {
        ReachedAfterLiteral(input, k, p, n, e, q);
      } else {
        ReachedAfterReference(input, k, p, n, e, q);
      }
    }
  }

  lemma {:induction false} ReachedAfterLiteral(input: seq<Byte>, k: nat, p: Progress, n: nat, e: nat, q: Progress)
    requires n > 0 && |p.table| == TableSize && k + 9 <= 8 * |input| && BitAt(input, k) && p.len < |p.out|
    requires Reaches(input, k, p, n, e, q) && EndCodeAt(input, e)
    ensures Decode(input, k, p) == Ok(q)
    decreases n, 0
  {
    var p' := Emit(p, ByteAt(input, k + 1));
    ReachesByLiteral(input, k, p, n, e, q);
    LiteralStep(input, k, p);
    ReachedEndCodeDecodes(input, k + 9, p', n - 1, e, q);
  }

  lemma {:induction false} ReachedAfterReference(input: seq<Byte>, k: nat, p: Progress, n: nat, e: nat, q: Progress)
    requires n > 0 && |p.table| == TableSize && k + 21 <= 8 * |input| && !BitAt(input, k)
    requires BitsValue(input, k + 1, 16) != 0
    requires Reaches(input, k, p, n, e, q) && EndCodeAt(input, e)
    ensures Decode(input, k, p) == Ok(q)
    decreases n, 0
  {
    var x := Expand(p, BitsValue(input, k + 1, 16), 0, BitsValue(input, k + 17, 4) + 2);
    ReachesByReference(input, k, p, n, e, q);
    BackReferenceStep(input, k, p);
    ReachedEndCodeDecodes(input, k + 21, x.value, n - 1, e, q);
  }
}
