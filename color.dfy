/** Colour blending: blend colour `b` into colour `a` in place by a factor,
    on 8-bit samples (rounded) and on float samples in [0, 255]. */
module Color {
  import opened Common

  function Max(a: int, b: int): int { if a >= b then a else b }

  /** `x` lies between `p` and `q`, whichever is larger. */
  predicate Between(x: int, p: int, q: int)
  {
    Min(p, q) <= x <= Max(p, q)
  }

  predicate BetweenReal(x: real, p: real, q: real)
  {
    (p <= x <= q) || (q <= x <= p)
  }

  /** `x.round() as u8`: the nearest integer, halves away from zero, then
      the saturating cast to 0..255. For every x in [0, 255] it is the
      integer nearest to x. */
  function RoundToByte(x: real): (b: byte)
    ensures 0.0 <= x <= 255.0 ==> b as real - 0.5 <= x < b as real + 0.5
    ensures x <= 0.0 ==> b == 0
    ensures x >= 255.0 ==> b == 255
  {
    var r := (x + 0.5).Floor;
    if r < 0 then 0 else if r > 255 then 255 else r
  }

  /** Rounding keeps a value that lies between two samples between them. */
  lemma RoundBetween(x: real, p: byte, q: byte)
    requires BetweenReal(x, p as real, q as real)
    ensures Between(RoundToByte(x), p, q)
  {
  }

  /** One channel of an 8-bit blend: `(a + (b - a) * blend).round() as u8`. */
  function BlendChannel(a: byte, b: byte, blend: real): (c: byte)
    requires 0.0 <= blend <= 1.0
    ensures Between(c, a, b)
  {
    var x := a as real + (b as real - a as real) * blend;
    assert BetweenReal(x, a as real, b as real) by {
      BlendBetween(a as real, b as real, blend);
    }
    RoundBetween(x, a, b);
    RoundToByte(x)
  }

  /** `a + (b - a) * blend` lies between `a` and `b` for a factor in [0, 1]. */
  lemma BlendBetween(a: real, b: real, blend: real)
    requires 0.0 <= blend <= 1.0
    ensures BetweenReal(a + (b - a) * blend, a, b)
  {
    var d := (b - a) * blend;
    if a <= b {
      ScaleDown(b - a, blend, d);
    } else {
      ScaleDown(a - b, blend, -d);
    }
  }

  /** Scaling a non-negative width `w` by a factor in [0, 1] gives a product
      `p` within [0, w]. */
  lemma ScaleDown(w: real, t: real, p: real)
    requires w >= 0.0 && 0.0 <= t <= 1.0 && p == w * t
    ensures 0.0 <= p <= w
  {
    assert w - w * t == w * (1.0 - t);
  }

  /** What `blend_into_u8` leaves in `a`: unchanged for a factor up to 0; a
      copy of `b` over the front of `a` for a factor from 1; otherwise every
      channel both colours have moves to the rounded blend. */
  function BlendU8(a: seq<byte>, b: seq<byte>, blend: real): (r: seq<byte>)
    requires blend >= 1.0 ==> |b| <= |a|
    ensures |r| == |a|
    ensures blend <= 0.0 ==> r == a
    ensures blend >= 1.0 ==> r[..|b|] == b
    ensures forall i :: |b| <= i < |a| ==> r[i] == a[i]
    ensures forall i :: 0 <= i < |a| && i < |b| ==> Between(r[i], a[i], b[i])
  {
    if blend <= 0.0 then a
    else if blend >= 1.0 then b + a[|b|..]
    else seq(|a|, i requires 0 <= i < |a| =>
               if i < |b| then BlendChannel(a[i], b[i], blend) else a[i])
  }

  /** A colour longer than the pixel blends like its front, unless the blend
      is full: then the copy runs past the pixel. */
  lemma BlendU8Prefix(a: seq<byte>, b: seq<byte>, blend: real)
    requires |a| <= |b| && (blend >= 1.0 ==> |b| <= |a|)
    ensures BlendU8(a, b, blend) == BlendU8(a, b[..|a|], blend)
  {
    if blend >= 1.0 {
      assert b[..|a|] == b;
    }
  }

  /** Blending fully twice is blending fully once. */
  lemma BlendU8FullIdempotent(a: seq<byte>, b: seq<byte>, blend: real)
    requires blend >= 1.0 && |b| <= |a|
    ensures BlendU8(BlendU8(a, b, blend), b, blend) == BlendU8(a, b, blend)
  {
  }

  /** `blend_into_u8`. Copying indexes `a` at every index of `b`, so a full
      blend needs `a` at least as long as `b`; the partial blend zips the two. */
  method BlendIntoU8(a: array<byte>, b: seq<byte>, blend: real)
    requires blend >= 1.0 ==> |b| <= a.Length
    modifies a
    ensures a[..] == BlendU8(old(a[..]), b, blend)
  {
    if blend <= 0.0 {
    } else if blend >= 1.0 {
      for i := 0 to |b|
        invariant a[..] == b[..i] + old(a[..])[i..]
      {
        a[i] := b[i];
        assert a[..] == b[..i + 1] + old(a[..])[i + 1..];
      }
    } else {
      for i := 0 to Min(a.Length, |b|)
        invariant forall k :: 0 <= k < i ==> a[k] == BlendChannel(old(a[k]), b[k], blend)
        invariant forall k :: i <= k < a.Length ==> a[k] == old(a[k])
      {
        a[i] := BlendChannel(a[i], b[i], blend);
      }
    }
  }

  /** What `blend_into_f32` leaves in `a`: the same three cases without rounding. */
  function BlendF32(a: seq<real>, b: seq<real>, blend: real): (r: seq<real>)
    requires blend >= 1.0 ==> |b| <= |a|
    ensures |r| == |a|
    ensures blend <= 0.0 ==> r == a
    ensures blend >= 1.0 ==> r[..|b|] == b
    ensures forall i :: |b| <= i < |a| ==> r[i] == a[i]
    ensures forall i :: 0 <= i < |a| && i < |b| ==> BetweenReal(r[i], a[i], b[i])
  {
    if blend <= 0.0 then a
    else if blend >= 1.0 then b + a[|b|..]
    else
      var r := seq(|a|, i requires 0 <= i < |a| =>
                    if i < |b| then a[i] + (b[i] - a[i]) * blend else a[i]);
      assert forall i :: 0 <= i < |a| && i < |b| ==> BetweenReal(r[i], a[i], b[i]) by {
        forall i | 0 <= i < |a| && i < |b| {
          BlendBetween(a[i], b[i], blend);
        }
      }
      r
  }

  /** `blend_into_f32`. */
  method BlendIntoF32(a: array<real>, b: seq<real>, blend: real)
    requires blend >= 1.0 ==> |b| <= a.Length
    modifies a
    ensures a[..] == BlendF32(old(a[..]), b, blend)
  {
    if blend <= 0.0 {
    } else if blend >= 1.0 {
      for i := 0 to |b|
        invariant forall k :: 0 <= k < i ==> a[k] == b[k]
        invariant forall k :: i <= k < a.Length ==> a[k] == old(a[k])
      {
        a[i] := b[i];
      }
      assert forall k :: 0 <= k < a.Length ==> a[k] == BlendF32(old(a[..]), b, blend)[k];
    } else {
      for i := 0 to Min(a.Length, |b|)
        invariant forall k :: 0 <= k < i ==> a[k] == old(a[k]) + (b[k] - old(a[k])) * blend
        invariant forall k :: i <= k < a.Length ==> a[k] == old(a[k])
      {
        a[i] := a[i] + (b[i] - a[i]) * blend;
      }
      assert forall k :: 0 <= k < a.Length ==> a[k] == BlendF32(old(a[..]), b, blend)[k];
    }
  }

  /** An 8-bit colour read as float samples. */
  function Widen(b: seq<byte>): (w: seq<real>)
    ensures |w| == |b| && forall i :: 0 <= i < |b| ==> w[i] == b[i] as real
  {
    seq(|b|, i requires 0 <= i < |b| => b[i] as real)
  }

  /** `blend_into_f32_u8`. It blends exactly as `blend_into_f32` does with
      `b` widened to floats. */
  method BlendIntoF32U8(a: array<real>, b: seq<byte>, blend: real)
    requires blend >= 1.0 ==> |b| <= a.Length
    modifies a
    ensures a[..] == BlendF32(old(a[..]), Widen(b), blend)
  {
    ghost var w := Widen(b);
    if blend <= 0.0 {
    } else if blend >= 1.0 {
      for i := 0 to |b|
        invariant forall k :: 0 <= k < i ==> a[k] == w[k]
        invariant forall k :: i <= k < a.Length ==> a[k] == old(a[k])
      {
        a[i] := b[i] as real;
      }
      assert forall k :: 0 <= k < a.Length ==> a[k] == BlendF32(old(a[..]), w, blend)[k];
    } else {
      for i := 0 to Min(a.Length, |b|)
        invariant forall k :: 0 <= k < i ==> a[k] == old(a[k]) + (w[k] - old(a[k])) * blend
        invariant forall k :: i <= k < a.Length ==> a[k] == old(a[k])
      {
        a[i] := a[i] + (b[i] as real - a[i]) * blend;
      }
      assert forall k :: 0 <= k < a.Length ==> a[k] == BlendF32(old(a[..]), w, blend)[k];
    }
  }
}
