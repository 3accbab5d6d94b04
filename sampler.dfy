/** The texture sampler: nearest, bilinear and trilinear lookups into a mip
    pyramid at normalised coordinates (u, v). Colours are exact reals; the
    level-of-detail value of the trilinear lookup is an input. */
module Sampler {
  import opened Common
  import opened Compositor
  import opened Mipmap

  /** The sentinel returned for coordinates outside [0,1] x [0,1]. */
  const Magenta := Color(1.0, 0.0, 1.0, 1.0)

  predicate InUnitSquare(u: real, v: real)
  {
    0.0 <= u <= 1.0 && 0.0 <= v <= 1.0
  }

  /** floor(t * size): the texel index of coordinate t along an axis. */
  function TexelIndex(size: int, t: real): int
  {
    (t * size as real).Floor
  }

  /** For t in [0,1] the nearest index lies in [0, size], and below size
      when t < 1. */
  lemma TexelIndexRange(size: int, t: real)
    requires size >= 1 && 0.0 <= t <= 1.0
    ensures 0 <= TexelIndex(size, t) <= size
    ensures t < 1.0 ==> TexelIndex(size, t) < size
    ensures t == 1.0 ==> TexelIndex(size, t) == size
  {
    MulNonneg(t, size as real);
    MulAtMost(size as real, t);
    assert t * size as real == size as real * t;
    if t < 1.0 {
      assert size as real * t < size as real;
    }
  }

  /** sample_nearest as written: the texel at (floor(u*width), floor(v*height))
      of the level, read through color_at_tex. */
  function SampleNearest(mipmap: seq<MipLevel>, u: real, v: real, level: int): (r: Option<Color>)
    requires 0 <= level < |mipmap| && WellFormed(mipmap[level])
  {
    if !InUnitSquare(u, v) then Some(Magenta)
    else
      var mip := mipmap[level];
      TexelIndexRange(mip.width, u);
      TexelIndexRange(mip.height, v);
      ColorAtTex(mip, TexelIndex(mip.width, u), TexelIndex(mip.height, v))
  }

  /** Outside the unit square the lookup is magenta whatever the texture. */
  lemma NearestSentinel(mipmap: seq<MipLevel>, u: real, v: real, level: int)
    requires 0 <= level < |mipmap| && WellFormed(mipmap[level]) && !InUnitSquare(u, v)
    ensures SampleNearest(mipmap, u, v, level) == Some(Magenta)
  {
  }

  /** Strictly inside the square the lookup reads the texel under (u, v). */
  lemma NearestInside(mipmap: seq<MipLevel>, u: real, v: real, level: int)
    requires 0 <= level < |mipmap| && WellFormed(mipmap[level])
    requires 0.0 <= u < 1.0 && 0.0 <= v < 1.0
    ensures 0 <= TexelIndex(mipmap[level].width, u) < mipmap[level].width
    ensures 0 <= TexelIndex(mipmap[level].height, v) < mipmap[level].height
    ensures SampleNearest(mipmap, u, v, level) ==
            Some(TexelAt(mipmap[level], TexelIndex(mipmap[level].width, u), TexelIndex(mipmap[level].height, v)))
  {
    var mip := mipmap[level];
    TexelIndexRange(mip.width, u);
    TexelIndexRange(mip.height, v);
    ColorAtTexInside(mip, TexelIndex(mip.width, u), TexelIndex(mip.height, v));
  }

  /** At v = 1 the row index is the height, and color_at_tex's assertion fails. */
  lemma {:induction false} NearestFailsAtVOne(mipmap: seq<MipLevel>, u: real, level: int)
    requires 0 <= level < |mipmap| && WellFormed(mipmap[level]) && 0.0 <= u <= 1.0
    ensures SampleNearest(mipmap, u, 1.0, level) == None
  {
    var mip := mipmap[level];
    TexelIndexRange(mip.width, u);
    TexelIndexRange(mip.height, 1.0);
    ColorAtTexPastEnd(mip, TexelIndex(mip.width, u), mip.height);
  }

  /** At u = 1 the column index is the width: above the last row the lookup
      returns the first texel of the next row, on the last row it fails. */
  lemma {:induction false} NearestAtUOne(mipmap: seq<MipLevel>, v: real, level: int)
    requires 0 <= level < |mipmap| && WellFormed(mipmap[level]) && 0.0 <= v < 1.0
    ensures var y := TexelIndex(mipmap[level].height, v);
            (y + 1 < mipmap[level].height ==>
               SampleNearest(mipmap, 1.0, v, level) == Some(TexelAt(mipmap[level], 0, y + 1))) &&
            (y + 1 == mipmap[level].height ==> SampleNearest(mipmap, 1.0, v, level) == None)
  {
    var mip := mipmap[level];
    var y := TexelIndex(mip.height, v);
    TexelIndexRange(mip.width, 1.0);
    TexelIndexRange(mip.height, v);
    if y + 1 < mip.height {
      ColorAtTexWraps(mip, y);
    } else {
      ColorAtTexPastEnd(mip, mip.width, y);
    }
  }

  /** sample_nearest with both indices clamped to the last texel, as the
      accepted range [0,1] calls for. */
  function SampleNearestClamped(mipmap: seq<MipLevel>, u: real, v: real, level: int): (r: Option<Color>)
    requires 0 <= level < |mipmap| && WellFormed(mipmap[level])
    ensures r.Some?
    ensures !InUnitSquare(u, v) ==> r == Some(Magenta)
  {
    if !InUnitSquare(u, v) then Some(Magenta)
    else
      var mip := mipmap[level];
      TexelIndexRange(mip.width, u);
      TexelIndexRange(mip.height, v);
      var x, y := Min(TexelIndex(mip.width, u), mip.width - 1), Min(TexelIndex(mip.height, v), mip.height - 1);
      ColorAtTexInside(mip, x, y);
      ColorAtTex(mip, x, y)
  }

  /** The clamped lookup reads the texel under (u, v), clamped to the level,
      and agrees with the written one wherever that one does not reach past
      the level. */
  lemma ClampedNearest(mipmap: seq<MipLevel>, u: real, v: real, level: int)
    requires 0 <= level < |mipmap| && WellFormed(mipmap[level]) && InUnitSquare(u, v)
    ensures var mip := mipmap[level];
            SampleNearestClamped(mipmap, u, v, level) ==
              Some(TexelAt(mip, Min(TexelIndex(mip.width, u), mip.width - 1), Min(TexelIndex(mip.height, v), mip.height - 1)))
    ensures u < 1.0 && v < 1.0 ==> SampleNearestClamped(mipmap, u, v, level) == SampleNearest(mipmap, u, v, level)
  {
    if u < 1.0 && v < 1.0 {
      NearestInside(mipmap, u, v, level);
    }
  }

  /** The two texel indices and the weight of the second along one axis of a
      bilinear lookup, size texels long, at coordinate t. */
  datatype Taps = Taps(lo: int, hi: int, weight: real)

  function AxisTaps(size: int, t: real): Taps
  {
    var x := size as real * t;
    var lo := Max(0, (x - 0.5).Floor);
    var hi := Min(size - 1, (x + 0.5).Floor);
    var s := x - lo as real - 0.5;
    Taps(lo, hi, if s > 0.0 then s else 0.0)
  }

  /** For t in [0,1] the taps are in range, at most one apart, and the weight
      lies in [0,1). */
  lemma AxisTapsRange(size: int, t: real)
    requires size >= 1 && 0.0 <= t <= 1.0
    ensures var taps := AxisTaps(size, t);
            0 <= taps.lo <= taps.hi <= Min(taps.lo + 1, size - 1) && 0.0 <= taps.weight < 1.0
  {
    MulNonneg(size as real, t);
    MulAtMost(size as real, t);
    var x := size as real * t;
    assert (x + 0.5).Floor == (x - 0.5).Floor + 1;
    assert (x - 0.5).Floor <= size - 1;
    assert 0 <= (x + 0.5).Floor;
  }

  /** Bilinear interpolation of four colours, s across and t down. */
  function Bilerp(c00: Color, c10: Color, c01: Color, c11: Color, s: real, t: real): Color
  {
    Add(Scale(Add(Scale(c00, 1.0 - s), Scale(c10, s)), 1.0 - t), Scale(Add(Scale(c01, 1.0 - s), Scale(c11, s)), t))
  }

  /** Interpolating four copies of one colour gives that colour. */
  lemma BilerpConstant(c: Color, s: real, t: real)
    ensures Bilerp(c, c, c, c, s, t) == c
  {
    var row := Add(Scale(c, 1.0 - s), Scale(c, s));
    assert row == c;
    assert Add(Scale(row, 1.0 - t), Scale(row, t)) == c;
  }

  /** sample_bilinear: the four texels around the half-texel-centred position
      (u*width, v*height), blended by the weights of their axes. */
  function SampleBilinear(mipmap: seq<MipLevel>, u: real, v: real, level: int): (r: Option<Color>)
    requires 0 <= level < |mipmap| && WellFormed(mipmap[level])
  {
    if !InUnitSquare(u, v) then Some(Magenta)
    else
      var mip := mipmap[level];
      AxisTapsRange(mip.width, u);
      AxisTapsRange(mip.height, v);
      var tx, ty := AxisTaps(mip.width, u), AxisTaps(mip.height, v);
      var c00 := ColorAtTex(mip, tx.lo, ty.lo);
      var c01 := ColorAtTex(mip, tx.lo, ty.hi);
      var c10 := ColorAtTex(mip, tx.hi, ty.lo);
      var c11 := ColorAtTex(mip, tx.hi, ty.hi);
      if c00.Some? && c01.Some? && c10.Some? && c11.Some? then
        Some(Bilerp(c00.value, c10.value, c01.value, c11.value, tx.weight, ty.weight))
      else None
  }

  /** Outside the unit square the lookup is magenta; inside, every read passes
      color_at_tex's assertion, so the lookup always yields a colour. */
  lemma {:induction false} BilinearNeverFails(mipmap: seq<MipLevel>, u: real, v: real, level: int)
    requires 0 <= level < |mipmap| && WellFormed(mipmap[level])
    ensures SampleBilinear(mipmap, u, v, level).Some?
    ensures !InUnitSquare(u, v) ==> SampleBilinear(mipmap, u, v, level) == Some(Magenta)
  {
    if InUnitSquare(u, v) {
      var mip := mipmap[level];
      AxisTapsRange(mip.width, u);
      AxisTapsRange(mip.height, v);
      var tx, ty := AxisTaps(mip.width, u), AxisTaps(mip.height, v);
      ColorAtTexInside(mip, tx.lo, ty.lo);
      ColorAtTexInside(mip, tx.lo, ty.hi);
      ColorAtTexInside(mip, tx.hi, ty.lo);
      ColorAtTexInside(mip, tx.hi, ty.hi);
    }
  }

  /** A level whose texels all hold one colour samples to that colour
      everywhere in the unit square. */
  lemma {:induction false} BilinearUniform(mipmap: seq<MipLevel>, u: real, v: real, level: int, c: Color)
    requires 0 <= level < |mipmap| && WellFormed(mipmap[level]) && InUnitSquare(u, v)
    requires forall x, y :: 0 <= x < mipmap[level].width && 0 <= y < mipmap[level].height ==> TexelAt(mipmap[level], x, y) == c
    ensures SampleBilinear(mipmap, u, v, level) == Some(c)
  {
    var mip := mipmap[level];
    BilinearNeverFails(mipmap, u, v, level);
    AxisTapsRange(mip.width, u);
    AxisTapsRange(mip.height, v);
    var tx, ty := AxisTaps(mip.width, u), AxisTaps(mip.height, v);
    assert TexelAt(mip, tx.lo, ty.lo) == c && TexelAt(mip, tx.lo, ty.hi) == c;
    assert TexelAt(mip, tx.hi, ty.lo) == c && TexelAt(mip, tx.hi, ty.hi) == c;
    BilerpConstant(c, tx.weight, ty.weight);
  }

  /** The levels a trilinear lookup reads and their weights. */
  datatype LevelBlend = Single(level: int) | Blend(low: int, high: int, lowWeight: real, highWeight: real)

  /** The level selection of sample_trilinear for level-of-detail lod in a
      pyramid of n levels. */
  function TrilinearLevels(lod: real, n: int): LevelBlend
  {
    if lod <= 0.0 then Single(0)
    else if lod >= (n - 1) as real then Single(n - 1)
    else
      var low := lod.Floor;
      Blend(low, low + 1, (low + 1) as real - lod, lod - low as real)
  }

  /** Level 0 when lod <= 0, the last level when lod >= n - 1, otherwise
      levels floor(lod) and floor(lod) + 1 with non-negative weights summing to
      1 whose weighted level is lod itself. */
  lemma TrilinearLevelsRange(lod: real, n: int)
    requires n >= 1
    ensures lod <= 0.0 ==> TrilinearLevels(lod, n) == Single(0)
    ensures lod >= (n - 1) as real ==> TrilinearLevels(lod, n) == Single(n - 1)
    ensures TrilinearLevels(lod, n).Single? ==> 0 <= TrilinearLevels(lod, n).level < n
    ensures TrilinearLevels(lod, n).Blend? ==>
              var b := TrilinearLevels(lod, n);
              0 <= b.low && b.high == b.low + 1 < n && b.low == lod.Floor &&
              0.0 <= b.lowWeight && 0.0 <= b.highWeight && b.lowWeight + b.highWeight == 1.0 &&
              b.low as real * b.lowWeight + b.high as real * b.highWeight == lod
  {
  }

  /** sample_trilinear over a level-of-detail value: a bilinear lookup of one
      level, or the blend of the lookups of two adjacent levels. */
  function SampleTrilinear(mipmap: seq<MipLevel>, u: real, v: real, lod: real): (r: Option<Color>)
    requires |mipmap| >= 1 && AllWellFormed(mipmap)
  {
    TrilinearLevelsRange(lod, |mipmap|);
    match TrilinearLevels(lod, |mipmap|)
    case Single(level) => SampleBilinear(mipmap, u, v, level)
    case Blend(low, high, lowWeight, highWeight) =>
      var above := SampleBilinear(mipmap, u, v, high);
      var below := SampleBilinear(mipmap, u, v, low);
      if above.Some? && below.Some? then Some(Add(Scale(above.value, highWeight), Scale(below.value, lowWeight)))
      else None
  }

  /** A trilinear lookup always yields a colour, and outside the unit square
      it is magenta: the blend of two sentinels is the sentinel. */
  lemma {:induction false} TrilinearNeverFails(mipmap: seq<MipLevel>, u: real, v: real, lod: real)
    requires |mipmap| >= 1 && AllWellFormed(mipmap)
    ensures SampleTrilinear(mipmap, u, v, lod).Some?
    ensures !InUnitSquare(u, v) ==> SampleTrilinear(mipmap, u, v, lod) == Some(Magenta)
  {
    TrilinearLevelsRange(lod, |mipmap|);
    match TrilinearLevels(lod, |mipmap|)
    case Single(level) =>
      BilinearNeverFails(mipmap, u, v, level);
    case Blend(low, high, lowWeight, highWeight) =>
      BilinearNeverFails(mipmap, u, v, high);
      BilinearNeverFails(mipmap, u, v, low);
  }
}
