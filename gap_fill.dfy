/** The last stage of the 'P' decoder: a forward pass over the picture, three
    bytes per pixel, that replaces every (0,0,0) pixel by the colour carried
    from the nearest earlier pixel that is not (0,0,0), and carries each such
    pixel's colour on. Before the first such pixel the carry is the colour
    the caller starts it with. */
module GapFill {
  import opened DclTypes

  /** Pixel `j` of `s`: bytes `3j`, `3j + 1` and `3j + 2`. */
  function TripleAt(s: seq<Byte>, j: nat): Rgb
    requires 3 * j + 3 <= |s|
  {
    Rgb(s[3 * j], s[3 * j + 1], s[3 * j + 2])
  }

  /** A colour as it is stored: red, green, blue. */
  function Bytes(c: Rgb): seq<Byte>
  {
    [c.r, c.g, c.b]
  }

  /** The colour carried into pixel `j`: that of the last pixel before `j`
      that is not (0,0,0), or `carry` when there is none. */
  function Nearest(s: seq<Byte>, j: nat, carry: Rgb): Rgb
    requires 3 * j <= |s|
    decreases j
  {
    if j == 0 then carry
    else if TripleAt(s, j - 1) == Black then Nearest(s, j - 1, carry)
    else TripleAt(s, j - 1)
  }

  /** Pixel `j` after the pass: the carried colour if it was (0,0,0),
      unchanged otherwise. */
  function Repaired(s: seq<Byte>, j: nat, carry: Rgb): Rgb
    requires 3 * j + 3 <= |s|
  {
    if TripleAt(s, j) == Black then Nearest(s, j, carry) else TripleAt(s, j)
  }

  /** The first `j` pixels after the pass. */
  function FilledPrefix(s: seq<Byte>, carry: Rgb, j: nat): (r: seq<Byte>)
    requires 3 * j <= |s|
    ensures |r| == 3 * j
    decreases j
  {
    if j == 0 then [] else FilledPrefix(s, carry, j - 1) + Bytes(Repaired(s, j - 1, carry))
  }

  /** The whole picture after the pass. */
  function Filled(s: seq<Byte>, carry: Rgb): (r: seq<Byte>)
    requires |s| % 3 == 0
    ensures |r| == |s|
  {
    FilledPrefix(s, carry, |s| / 3)
  }

  lemma {:induction false} PrefixPixel(s: seq<Byte>, carry: Rgb, n: nat, j: nat)
    requires 3 * n <= |s| && j < n
    ensures TripleAt(FilledPrefix(s, carry, n), j) == Repaired(s, j, carry)
    decreases n
  {
    var p := FilledPrefix(s, carry, n - 1);
    assert FilledPrefix(s, carry, n) == p + Bytes(Repaired(s, n - 1, carry));
    if j < n - 1 {
      PrefixPixel(s, carry, n - 1, j);
      assert TripleAt(p, j) == TripleAt(FilledPrefix(s, carry, n), j);
    }
  }

  /** Pixel by pixel: a (0,0,0) pixel becomes the carried colour, any
      other pixel is left as it was. */
  lemma FilledPixel(s: seq<Byte>, carry: Rgb, j: nat)
    requires |s| % 3 == 0 && 3 * j + 3 <= |s|
    ensures TripleAt(Filled(s, carry), j)
         == if TripleAt(s, j) == Black then Nearest(s, j, carry) else TripleAt(s, j)
  {
    PrefixPixel(s, carry, |s| / 3, j);
  }

  /** With only (0,0,0) pixels before pixel `j`, the carried colour is the
      starting carry. */
  lemma {:induction false} NearestWhenAllBlack(s: seq<Byte>, j: nat, carry: Rgb)
    requires 3 * j <= |s|
    requires forall m :: 0 <= m < j ==> TripleAt(s, m) == Black
    ensures Nearest(s, j, carry) == carry
    decreases j
  {
    if j > 0 {
      NearestWhenAllBlack(s, j - 1, carry);
    }
  }

  /** Otherwise it is the colour of the last pixel `m` before `j` that is
      not (0,0,0). */
  lemma {:induction false} NearestIsLastColour(s: seq<Byte>, j: nat, carry: Rgb, m: nat)
    requires 3 * j <= |s| && m < j && TripleAt(s, m) != Black
    requires forall m' :: m < m' < j ==> TripleAt(s, m') == Black
    ensures Nearest(s, j, carry) == TripleAt(s, m)
    decreases j
  {
    if m < j - 1 {
      assert TripleAt(s, j - 1) == Black;
      NearestIsLastColour(s, j - 1, carry, m);
    }
  }

  /** The carried colour is (0,0,0) only if the starting carry is. */
  lemma {:induction false} NearestNotBlack(s: seq<Byte>, j: nat, carry: Rgb)
    requires 3 * j <= |s| && carry != Black
    ensures Nearest(s, j, carry) != Black
    decreases j
  {
    if j > 0 {
      NearestNotBlack(s, j - 1, carry);
    }
  }

  /** Started with a colour other than (0,0,0), the pass leaves no
      (0,0,0) pixel behind. */
  lemma NoGapsLeft(s: seq<Byte>, carry: Rgb, j: nat)
    requires |s| % 3 == 0 && carry != Black && 3 * j + 3 <= |s|
    ensures TripleAt(Filled(s, carry), j) != Black
  {
    FilledPixel(s, carry, j);
    NearestNotBlack(s, j, carry);
  }

  /** The pass does not change the carried colours. */
  lemma {:induction false} NearestOfFilled(s: seq<Byte>, j: nat, carry: Rgb)
    requires |s| % 3 == 0 && 3 * j <= |s|
    ensures Nearest(Filled(s, carry), j, carry) == Nearest(s, j, carry)
    decreases j
  {
    if j > 0 {
      FilledPixel(s, carry, j - 1);
      NearestOfFilled(s, j - 1, carry);
    }
  }

  /** A second pass with the same starting carry changes nothing. */
  lemma FilledIdempotent(s: seq<Byte>, carry: Rgb)
    requires |s| % 3 == 0
    ensures Filled(Filled(s, carry), carry) == Filled(s, carry)
  {
    var f := Filled(s, carry);
    forall j | 0 <= j && 3 * j + 3 <= |s|
      ensures TripleAt(Filled(f, carry), j) == TripleAt(f, j)
    {
      FilledPixel(s, carry, j);
      FilledPixel(f, carry, j);
      NearestOfFilled(s, j, carry);
    }
    forall m | 0 <= m < |s|
      ensures Filled(f, carry)[m] == f[m]
    {
      var j := m / 3;
      assert 3 * j + 3 <= |s| && m == 3 * j + m % 3;
      assert TripleAt(Filled(f, carry), j) == TripleAt(f, j);
    }
  }

  /** The pass as `DecodePFormat` runs it, in place, from the first pixel to
      the last, with `last` the carried colour. */
  method FillGaps(output: array<Byte>, carry: Rgb)
    requires output.Length % 3 == 0
    modifies output
    ensures output[..] == Filled(old(output[..]), carry)
  {
    ghost var s := output[..];
    var last := carry;
    var i := 0;
    ghost var j := 0;
    while i < output.Length
      invariant i == 3 * j <= output.Length
      invariant last == Nearest(s, j, carry)
      invariant output[i..] == s[i..]
      invariant output[..i] == FilledPrefix(s, carry, j)
    {
      assert output[i..][..3] == s[i..][..3];
      ghost var prefix := output[..i];
      last := RepairPixel(output, i, last);
      assert output[..i + 3] == prefix + Bytes(Repaired(s, j, carry)) by {
        assert output[..i + 3] == output[..i] + output[i..i + 3];
      }
      assert output[i + 3..] == s[i + 3..] by {
        assert s[i + 3..] == s[i..][3..];
      }
      i := i + 3;
      j := j + 1;
    }
    assert output[..] == output[..i];
  }

  /** One turn of the pass at byte `i`: a (0,0,0) pixel takes the carried
      colour `last`, any other pixel is kept and becomes the new carry. */
  method RepairPixel(output: array<Byte>, i: nat, last: Rgb) returns (next: Rgb)
    requires i + 3 <= output.Length
    modifies output
    ensures var t := Rgb(old(output[i]), old(output[i + 1]), old(output[i + 2]));
            && next == (if t == Black then last else t)
            && output[..i] == old(output[..i]) && output[i + 3..] == old(output[i + 3..])
            && output[i..i + 3] == Bytes(next)
  {
    if output[i] == 0 && output[i + 1] == 0 && output[i + 2] == 0 {
      output[i] := last.r;
      output[i + 1] := last.g;
      output[i + 2] := last.b;
      next := last;
    } else {
      next := Rgb(output[i], output[i + 1], output[i + 2]);
    }
  }
}
