/** The texture's mip pyramid: levels of RGBA texels, the bounds-asserting texel
    read, and the generation of the sub-levels from a start level by halving the
    dimensions and averaging 2 x 2 blocks of the parent level. */
module Mipmap {
  import opened Common
  import opened Compositor

  /** One level of the pyramid: width x height texels of four bytes, row-major. */
  datatype MipLevel = MipLevel(width: int, height: int, texels: seq<Byte>)

  /** A level whose dimensions are positive and whose texel array holds them. */
  predicate WellFormed(mip: MipLevel)
  {
    mip.width >= 1 && mip.height >= 1 && |mip.texels| == 4 * mip.width * mip.height
  }

  predicate AllWellFormed(levels: seq<MipLevel>)
  {
    forall m :: 0 <= m < |levels| ==> WellFormed(levels[m])
  }

  /** The colour stored at texel (x, y), read four bytes from 4*(x + y*width);
      a byte past the array reads as 0. */
  function TexelAt(mip: MipLevel, x: int, y: int): Color
  {
    Color(Unit(CellByte(mip.texels, x, y, mip.width, 0)), Unit(CellByte(mip.texels, x, y, mip.width, 1)),
          Unit(CellByte(mip.texels, x, y, mip.width, 2)), Unit(CellByte(mip.texels, x, y, mip.width, 3)))
  }

  /** color_at_tex: the read asserts that the linear index x + y*width lies
      below width*height; a failed assertion is None. A column index past the
      row is not caught and reads the next row. */
  function ColorAtTex(mip: MipLevel, x: int, y: int): (r: Option<Color>)
    requires WellFormed(mip) && 0 <= x && 0 <= y
    ensures r.Some? <==> x + y * mip.width < mip.width * mip.height
    ensures r.Some? ==> (4 * (x + y * mip.width) + 3 < |mip.texels| &&
              forall k :: 0 <= k < 4 ==> ChannelOf(r.value, k) == Unit(mip.texels[4 * (x + y * mip.width) + k]))
  {
    if x + y * mip.width < mip.width * mip.height then Some(TexelAt(mip, x, y)) else None
  }

  /** Colour arithmetic of the averaging loop, over exact reals. */
  function Add(c: Color, d: Color): Color
  {
    Color(c.r + d.r, c.g + d.g, c.b + d.b, c.a + d.a)
  }

  function Scale(c: Color, f: real): Color
  {
    Color(c.r * f, c.g * f, c.b * f, c.a * f)
  }

  /** float_to_uint8's clamp to [0,1]. */
  function Clamp01(v: real): (r: real)
    ensures 0.0 <= r <= 1.0
    ensures 0.0 <= v <= 1.0 ==> r == v
  {
    if v < 0.0 then 0.0 else if v > 1.0 then 1.0 else v
  }

  /** A stored colour written back as four bytes. */
  function ToByte(c: Color, k: int): Byte
    requires 0 <= k < 4
  {
    Quantize(Clamp01(ChannelOf(c, k)))
  }

  /** The colour of child texel (k, j): a quarter of the accumulator's initial
      value `base` plus the four parent texels (2k..2k+1, 2j..2j+1). */
  function BlockAverage(parent: MipLevel, k: int, j: int, base: Color): Color
  {
    Scale(Add(Add(Add(Add(base, TexelAt(parent, 2 * k, 2 * j)), TexelAt(parent, 2 * k + 1, 2 * j)),
                  TexelAt(parent, 2 * k, 2 * j + 1)), TexelAt(parent, 2 * k + 1, 2 * j + 1)), 0.25)
  }

  /** The texel array of a cw x ch child level computed from its parent. */
  function DownsampledTexels(parent: MipLevel, cw: int, ch: int, base: Color): (r: seq<Byte>)
    requires cw >= 1 && ch >= 0
    ensures |r| == 4 * cw * ch
  {
    seq(4 * cw * ch, p requires 0 <= p < 4 * cw * ch => ToByte(BlockAverage(parent, CellX(p, cw), CellY(p, cw), base), p % 4))
  }

  /** All four reads of child texel (k, j) pass color_at_tex's assertion; the
      last read, (2k+1, 2j+1), has the largest index. */
  predicate BlockFits(parent: MipLevel, k: int, j: int)
  {
    (2 * k + 1) + (2 * j + 1) * parent.width < parent.width * parent.height
  }

  /** Every read of a cw x ch child fits, which is to say its last block does. */
  predicate LevelFits(parent: MipLevel, cw: int, ch: int)
  {
    cw <= 0 || ch <= 0 || BlockFits(parent, cw - 1, ch - 1)
  }

  /** The reads of block (k, j) come in non-decreasing index order. */
  lemma ReadOrder(parent: MipLevel, k: int, j: int)
    requires parent.width >= 1
    ensures 2 * k + 2 * j * parent.width < (2 * k + 1) + 2 * j * parent.width <= 2 * k + (2 * j + 1) * parent.width
    ensures 2 * k + (2 * j + 1) * parent.width < (2 * k + 1) + (2 * j + 1) * parent.width
  {
    assert (2 * j + 1) * parent.width == 2 * j * parent.width + parent.width;
  }

  /** A block fits when any later block fits. */
  lemma BlockFitsEarlier(parent: MipLevel, k: int, j: int, k2: int, j2: int)
    requires parent.width >= 1 && 0 <= k <= k2 && 0 <= j <= j2 && BlockFits(parent, k2, j2)
    ensures BlockFits(parent, k, j)
  {
    MulMonotone(2 * j + 1, 2 * j2 + 1, parent.width);
  }

  /** A parent at least twice the child in each dimension holds every read. */
  lemma {:induction false} DoubledParentFits(parent: MipLevel, cw: int, ch: int)
    requires cw >= 1 && ch >= 1 && parent.width >= 2 * cw && parent.height >= 2 * ch
    ensures LevelFits(parent, cw, ch)
  {
    var pw := parent.width;
    MulMonotone(2 * ch - 1, parent.height - 1, pw);
    assert (parent.height - 1) * pw == pw * parent.height - pw;
  }

  /** A parent one texel high fails the very last read of any child. */
  lemma {:induction false} OneRowParentFails(parent: MipLevel, cw: int, ch: int)
    requires parent.width >= 1 && parent.height == 1 && cw >= 1 && ch >= 1
    ensures !LevelFits(parent, cw, ch)
  {
    MulMonotone(1, 2 * ch - 1, parent.width);
    assert parent.width * parent.height == parent.width;
  }

  /** Outcome of generate_mips. */
  datatype MipOutcome = Generated | InvalidStartLevel | AssertionFailed

  function Pow2(n: nat): (r: nat)
    ensures r >= 1
  {
    if n == 0 then 1 else 2 * Pow2(n - 1)
  }

  /** The integer part of log2 n, as the cast of log2f computes it. */
  function ILog2(n: int): (r: nat)
    requires n >= 1
    ensures Pow2(r) <= n < Pow2(r + 1)
  {
    if n == 1 then 0 else 1 + ILog2(n / 2)
  }

  /** A dimension halved n times, rounding down and never below 1. */
  function Halved(d: int, n: nat): int
  {
    Max(1, d / Pow2(n))
  }

  /** Halving once more is halving the previous value, rounding down, at least 1. */
  lemma HalvedStep(d: int, n: nat)
    requires d >= 1
    ensures Halved(d, n + 1) == Max(1, Halved(d, n) / 2) >= 1
  {
    DivTwice(d, Pow2(n));
  }

  /** Dividing by 2p is dividing by p and then by 2. */
  lemma DivTwice(d: int, p: int)
    requires d >= 0 && p >= 1
    ensures d / (2 * p) == (d / p) / 2
  {
    var q, r := d / p, d % p;
    var q2, r2 := q / 2, q % 2;
    assert d == q * p + r && 0 <= r < p;
    assert q == 2 * q2 + r2 && 0 <= r2 <= 1;
    assert q * p == q2 * (2 * p) + r2 * p;
    assert 0 <= r2 * p <= p by {
      MulMonotone(0, r2, p);
      MulMonotone(r2, 1, p);
    }
    DivUnique(d, 2 * p, q2);
  }

  /** The number of levels after generation from level L of a bw x bh base:
      L plus floor(log2(max(bw, bh))) sub-levels plus one, capped at maxLevels. */
  function LevelCount(startLevel: nat, bw: int, bh: int, maxLevels: int): (r: int)
    requires bw >= 1 && bh >= 1 && maxLevels >= 1
    ensures 1 <= r <= maxLevels && r <= startLevel + ILog2(Max(bw, bh)) + 1
    ensures r == maxLevels || r == startLevel + ILog2(Max(bw, bh)) + 1
  {
    Min(startLevel + ILog2(Max(bw, bh)) + 1, maxLevels)
  }

  /** A freshly sized level, its texels zero. */
  function NewLevel(width: int, height: int): (r: MipLevel)
    requires width >= 1 && height >= 1
    ensures WellFormed(r)
  {
    MipLevel(width, height, seq(4 * width * height, _ => 0))
  }

  /** The pyramid after the allocation loop: levels up to L are kept, the
      pyramid is resized to the level count, and level L + n is a fresh level of
      the base halved n times. */
  function Allocated(mipmap: seq<MipLevel>, startLevel: nat, maxLevels: int): (r: seq<MipLevel>)
    requires startLevel < |mipmap| && WellFormed(mipmap[startLevel]) && maxLevels >= 1
    ensures |r| == LevelCount(startLevel, mipmap[startLevel].width, mipmap[startLevel].height, maxLevels)
    ensures AllWellFormed(mipmap) ==> AllWellFormed(r)
  {
    var count := LevelCount(startLevel, mipmap[startLevel].width, mipmap[startLevel].height, maxLevels);
    seq(count, m requires 0 <= m < count => AllocatedLevel(mipmap, startLevel, m))
  }

  /** Level m of the allocated pyramid. */
  function AllocatedLevel(mipmap: seq<MipLevel>, startLevel: nat, m: nat): (r: MipLevel)
    requires startLevel < |mipmap| && WellFormed(mipmap[startLevel])
    ensures m <= startLevel ==> r == mipmap[m]
    ensures m > startLevel ==> WellFormed(r)
  {
    if m <= startLevel then mipmap[m]
    else NewLevel(Halved(mipmap[startLevel].width, m - startLevel), Halved(mipmap[startLevel].height, m - startLevel))
  }

  /** Every read of every level 1 .. n-1 from its parent fits. */
  predicate AllFit(levels: seq<MipLevel>, n: int)
    requires n <= |levels|
  {
    forall m :: 1 <= m < n ==> LevelFits(levels[m - 1], levels[m].width, levels[m].height)
  }

  /** The pyramid after the fill loop has refilled levels 1 .. n-1, each from
      its already refilled parent; dimensions never change. */
  function FillUpTo(levels: seq<MipLevel>, n: int, base: Color): (r: seq<MipLevel>)
    requires 1 <= n <= |levels| && AllWellFormed(levels)
    ensures |r| == |levels| && AllWellFormed(r)
    ensures forall m :: 0 <= m < |r| ==> r[m].width == levels[m].width && r[m].height == levels[m].height
    ensures forall m :: n <= m < |r| ==> r[m] == levels[m]
    decreases n
  {
    if n == 1 then levels
    else
      var prev := FillUpTo(levels, n - 1, base);
      prev[n - 1 := prev[n - 1].(texels := DownsampledTexels(prev[n - 2], prev[n - 1].width, prev[n - 1].height, base))]
  }

  /** One step of the fill: level i is refilled from its refilled parent,
      whose reads fit exactly when the original parent's did, and the levels
      refilled so far all fit together with this one exactly when this one does. */
  lemma FillStep(levels: seq<MipLevel>, i: int, base: Color)
    requires 1 <= i < |levels| && AllWellFormed(levels) && AllFit(levels, i)
    ensures var prev := FillUpTo(levels, i, base);
            FillUpTo(levels, i + 1, base) ==
              prev[i := prev[i].(texels := DownsampledTexels(prev[i - 1], prev[i].width, prev[i].height, base))] &&
            (LevelFits(prev[i - 1], prev[i].width, prev[i].height) <==> AllFit(levels, i + 1)) &&
            (!LevelFits(prev[i - 1], prev[i].width, prev[i].height) ==> !AllFit(levels, |levels|))
  {
    var prev := FillUpTo(levels, i, base);
    assert prev[i - 1].width == levels[i - 1].width && prev[i - 1].height == levels[i - 1].height;
    assert prev[i] == levels[i];
  }

  /** A level that no later step of the fill touches is final. */
  lemma FillUpToFixes(levels: seq<MipLevel>, n: int, base: Color, m: int)
    requires 1 <= n <= |levels| && AllWellFormed(levels) && 1 <= m < n
    ensures FillUpTo(levels, n, base)[m].texels ==
            DownsampledTexels(FillUpTo(levels, n, base)[m - 1], levels[m].width, levels[m].height, base)
  {
    FillUpToStable(levels, n, base, m, m);
    FillUpToStable(levels, n, base, m - 1, m);
    FillUpToLast(levels, m + 1, base);
  }

  /** Level l is settled once level m >= l has been refilled: later steps
      leave it alone. */
  lemma {:induction false} FillUpToStable(levels: seq<MipLevel>, n: int, base: Color, l: int, m: int)
    requires 1 <= n <= |levels| && AllWellFormed(levels) && 0 <= l <= m < n
    ensures FillUpTo(levels, n, base)[l] == FillUpTo(levels, m + 1, base)[l]
    decreases n
  {
    if n > m + 1 {
      FillUpToStable(levels, n - 1, base, l, m);
      assert FillUpTo(levels, n, base)[l] == FillUpTo(levels, n - 1, base)[l];
    }
  }

  /** The last step of the fill computes level n - 1 from its refilled parent. */
  lemma FillUpToLast(levels: seq<MipLevel>, n: int, base: Color)
    requires 2 <= n <= |levels| && AllWellFormed(levels)
    ensures FillUpTo(levels, n, base)[n - 1].texels ==
            DownsampledTexels(FillUpTo(levels, n, base)[n - 2], levels[n - 1].width, levels[n - 1].height, base)
  {
    var prev := FillUpTo(levels, n - 1, base);
    assert prev[n - 1] == levels[n - 1];
  }

  /** The allocated pyramid: its size is the level count, levels up to L are
      unchanged, and each new level is well formed with the halved dimensions. */
  lemma AllocatedShape(mipmap: seq<MipLevel>, startLevel: nat, maxLevels: int, m: int)
    requires startLevel < |mipmap| && AllWellFormed(mipmap) && maxLevels >= 1
    requires 0 <= m < |Allocated(mipmap, startLevel, maxLevels)|
    ensures m <= startLevel ==> Allocated(mipmap, startLevel, maxLevels)[m] == mipmap[m]
    ensures m > startLevel ==>
              Allocated(mipmap, startLevel, maxLevels)[m].width == Halved(mipmap[startLevel].width, m - startLevel) >= 1 &&
              Allocated(mipmap, startLevel, maxLevels)[m].height == Halved(mipmap[startLevel].height, m - startLevel) >= 1
    ensures WellFormed(Allocated(mipmap, startLevel, maxLevels)[m])
  {
    var a := Allocated(mipmap, startLevel, maxLevels);
    var base := mipmap[startLevel];
    if m <= startLevel {
      assert a[m] == mipmap[m];
    } else {
      assert a[m] == NewLevel(Halved(base.width, m - startLevel), Halved(base.height, m - startLevel));
    }
  }

  /** Halving the larger base dimension floor(log2) times reaches exactly 1,
      and the level before that is still larger than 1: uncapped, the last
      generated level is the first whose larger dimension is 1. */
  lemma HalvingReachesOne(d: int)
    requires d >= 1
    ensures Halved(d, ILog2(d)) == 1
    ensures ILog2(d) >= 1 ==> Halved(d, ILog2(d) - 1) >= 2
  {
    var n := ILog2(d);
    DivUnique(d, Pow2(n), 1);
    if n >= 1 {
      var p := Pow2(n - 1);
      assert Pow2(n) == 2 * p;
      DivAtLeast(d, p, 2);
    }
  }

  /** The per-level step of the fill loop: the texels of the child computed
      from the parent through color_at_tex, or None at the first failed read. */
  method DownsampleLevel(parent: MipLevel, child: MipLevel, base: Color) returns (r: Option<seq<Byte>>)
    requires WellFormed(parent) && WellFormed(child)
    ensures r.Some? <==> LevelFits(parent, child.width, child.height)
    ensures r.Some? ==> r.value == DownsampledTexels(parent, child.width, child.height, base)
  {
    var cw, ch := child.width, child.height;
    ghost var want := DownsampledTexels(parent, cw, ch, base);
    var texels: seq<Byte> := child.texels;
    var j := 0;
    while j < ch
      invariant 0 <= j <= ch && |texels| == 4 * cw * ch
      invariant 0 <= 4 * (j * cw) <= |texels|
      invariant forall p :: 0 <= p < 4 * (j * cw) ==> texels[p] == want[p]
      invariant j > 0 ==> BlockFits(parent, cw - 1, j - 1)
    {
      RowPrefix(j, cw, ch);
      var row := DownsampleRow(parent, cw, ch, j, base, want, texels);
      if row.None? {
        return None;
      }
      texels := row.value;
      assert j * cw + cw == (j + 1) * cw;
      j := j + 1;
    }
    if cw > 0 && ch > 0 {
      assert BlockFits(parent, cw - 1, ch - 1);
    }
    assert 4 * (j * cw) == |want|;
    r := Some(texels);
    assert texels == want;
  }

  /** The inner loop of the fill: texels (0, j) .. (cw-1, j) of the child,
      written into a texel array whose rows before j are already final. */
  method DownsampleRow(parent: MipLevel, cw: int, ch: int, j: int, base: Color, ghost want: seq<Byte>, texels0: seq<Byte>)
    returns (r: Option<seq<Byte>>)
    requires WellFormed(parent) && cw >= 1 && 0 <= j < ch
    requires want == DownsampledTexels(parent, cw, ch, base) && |texels0| == |want|
    requires 4 * (j * cw + cw) <= |want|
    requires forall p :: 0 <= p < 4 * (j * cw) ==> texels0[p] == want[p]
    ensures r.None? ==> !LevelFits(parent, cw, ch)
    ensures r.Some? ==> (BlockFits(parent, cw - 1, j) && |r.value| == |want| &&
              forall p :: 0 <= p < 4 * (j * cw + cw) ==> r.value[p] == want[p])
  {
    var texels: seq<Byte> := texels0;
    var k := 0;
    while k < cw
      invariant 0 <= k <= cw && |texels| == |want|
      invariant forall p :: 0 <= p < 4 * (j * cw + k) ==> texels[p] == want[p]
      invariant k > 0 ==> BlockFits(parent, k - 1, j)
    {
      var block := ReadBlock(parent, k, j, base);
      if block.None? {
        ReadFailed(parent, cw, ch, k, j);
        return None;
      }
      var c := block.value;
      var idx := j * cw + k;
      TexelWritten(parent, cw, ch, k, j, idx, base, c, want, texels);
      texels := texels[4 * idx := ToByte(c, 0)][4 * idx + 1 := ToByte(c, 1)]
                      [4 * idx + 2 := ToByte(c, 2)][4 * idx + 3 := ToByte(c, 3)];
      k := k + 1;
    }
    r := Some(texels);
  }

  /** Writing the four bytes of texel idx extends a correct prefix of the
      texel array by one texel. */
  lemma PrefixExtends(prev: seq<Byte>, want: seq<Byte>, idx: int, c: Color)
    requires 0 <= idx && 4 * idx + 3 < |prev| && |want| == |prev|
    requires forall p :: 0 <= p < 4 * idx ==> prev[p] == want[p]
    requires forall q :: 0 <= q < 4 ==> want[4 * idx + q] == ToByte(c, q)
    ensures var texels := prev[4 * idx := ToByte(c, 0)][4 * idx + 1 := ToByte(c, 1)]
                              [4 * idx + 2 := ToByte(c, 2)][4 * idx + 3 := ToByte(c, 3)];
            |texels| == |prev| && forall p :: 0 <= p < 4 * (idx + 1) ==> texels[p] == want[p]
  {
    var texels := prev[4 * idx := ToByte(c, 0)][4 * idx + 1 := ToByte(c, 1)]
                      [4 * idx + 2 := ToByte(c, 2)][4 * idx + 3 := ToByte(c, 3)];
    forall p | 0 <= p < 4 * (idx + 1)
      ensures texels[p] == want[p]
    {
      if p >= 4 * idx {
        assert want[4 * idx + (p - 4 * idx)] == ToByte(c, p - 4 * idx);
      }
    }
  }

  /** Rows 0 .. j of a cw x ch level fill a prefix of its texel array. */
  lemma RowPrefix(j: int, cw: int, ch: int)
    requires 0 <= j < ch && cw >= 1
    ensures 0 <= 4 * (j * cw) && 4 * (j * cw + cw) <= 4 * cw * ch
  {
    MulMonotone(j + 1, ch, cw);
    assert (j + 1) * cw == j * cw + cw;
    assert 4 * cw * ch == 4 * (ch * cw);
  }

  /** The four color_at_tex reads of child texel (k, j) and their average;
      None when one of the reads fails its assertion. */
  method ReadBlock(parent: MipLevel, k: int, j: int, base: Color) returns (c: Option<Color>)
    requires WellFormed(parent) && 0 <= k && 0 <= j
    ensures c.Some? <==> BlockFits(parent, k, j)
    ensures c.Some? ==> c.value == BlockAverage(parent, k, j, base)
  {
    ReadOrder(parent, k, j);
    var c00 := ColorAtTex(parent, 2 * k, 2 * j);
    var c10 := ColorAtTex(parent, 2 * k + 1, 2 * j);
    var c01 := ColorAtTex(parent, 2 * k, 2 * j + 1);
    var c11 := ColorAtTex(parent, 2 * k + 1, 2 * j + 1);
    if c00.None? || c10.None? || c01.None? || c11.None? {
      return None;
    }
    c := Some(Scale(Add(Add(Add(Add(base, c00.value), c10.value), c01.value), c11.value), 0.25));
  }

  /** A failed read of block (k, j) means that the whole level does not fit. */
  lemma ReadFailed(parent: MipLevel, cw: int, ch: int, k: int, j: int)
    requires WellFormed(parent) && 0 <= k < cw && 0 <= j < ch
    requires !BlockFits(parent, k, j)
    ensures !LevelFits(parent, cw, ch)
  {
    if LevelFits(parent, cw, ch) {
      BlockFitsEarlier(parent, k, j, cw - 1, ch - 1);
    }
  }

  /** Writing the four bytes of the block average of child texel (k, j) extends
      a correct prefix of the child's texel array by that texel. */
  lemma TexelWritten(parent: MipLevel, cw: int, ch: int, k: int, j: int, idx: int, base: Color, c: Color,
                     want: seq<Byte>, prev: seq<Byte>)
    requires WellFormed(parent) && 0 <= k < cw && 0 <= j < ch && idx == j * cw + k
    requires want == DownsampledTexels(parent, cw, ch, base)
    requires c == BlockAverage(parent, k, j, base)
    requires |prev| == |want| && 4 * idx + 3 < |prev|
    requires forall p :: 0 <= p < 4 * idx ==> prev[p] == want[p]
    ensures var texels := prev[4 * idx := ToByte(c, 0)][4 * idx + 1 := ToByte(c, 1)]
                              [4 * idx + 2 := ToByte(c, 2)][4 * idx + 3 := ToByte(c, 3)];
            |texels| == |want| && forall p :: 0 <= p < 4 * (idx + 1) ==> texels[p] == want[p]
  {
    CellInBuffer(k, j, cw, ch);
    assert CellBase(k, j, cw) == 4 * idx;
    forall q | 0 <= q < 4
      ensures want[4 * idx + q] == ToByte(c, q)
    {
      CellOfBase(k, j, cw, q);
    }
    PrefixExtends(prev, want, idx, c);
  }

  /** Every texel inside the level passes color_at_tex's assertion. */
  lemma {:induction false} ColorAtTexInside(mip: MipLevel, x: int, y: int)
    requires WellFormed(mip) && 0 <= x < mip.width && 0 <= y < mip.height
    ensures ColorAtTex(mip, x, y).Some?
  {
    CellInBuffer(x, y, mip.width, mip.height);
  }

  /** A column index one past the row reads the first texel of the next row. */
  lemma {:induction false} ColorAtTexWraps(mip: MipLevel, y: int)
    requires WellFormed(mip) && 0 <= y && y + 1 < mip.height
    ensures ColorAtTex(mip, mip.width, y) == ColorAtTex(mip, 0, y + 1) != None
  {
    assert mip.width + y * mip.width == 0 + (y + 1) * mip.width;
    ColorAtTexInside(mip, 0, y + 1);
  }

  /** On the last row, a column index one past the row fails the assertion, and
      so does any texel of the row below the last. */
  lemma {:induction false} ColorAtTexPastEnd(mip: MipLevel, x: int, y: int)
    requires WellFormed(mip) && 0 <= x && 0 <= y
    requires (x == mip.width && y == mip.height - 1) || y >= mip.height
    ensures ColorAtTex(mip, x, y) == None
  {
    if y >= mip.height {
      MulMonotone(mip.height, y, mip.width);
    } else {
      assert x + y * mip.width == mip.width * mip.height;
    }
  }

  /** Powers of two multiply by adding exponents. */
  lemma {:induction false} Pow2Add(a: nat, b: nat)
    ensures Pow2(a + b) == Pow2(a) * Pow2(b)
    decreases b
  {
    if b > 0 {
      Pow2Add(a, b - 1);
      assert Pow2(a + b) == 2 * Pow2(a + b - 1);
    }
  }

  /** Pow2 is strictly increasing. */
  lemma {:induction false} Pow2Increasing(a: nat, b: nat)
    requires a < b
    ensures 2 * Pow2(a) <= Pow2(b)
    decreases b
  {
    if a + 1 < b {
      Pow2Increasing(a, b - 1);
    }
  }

  /** The floor of log2 of a power of two is its exponent. */
  lemma ILog2OfPow2(n: nat)
    ensures ILog2(Pow2(n)) == n
  {
    var r := ILog2(Pow2(n));
    if r + 1 < n {
      Pow2Increasing(r + 1, n);
    } else if r > n {
      Pow2Increasing(n, r);
    }
  }

  /** A power of two halved m times, m up to its exponent, is the power m lower. */
  lemma HalvedPow2(n: nat, m: nat)
    requires m <= n
    ensures Halved(Pow2(n), m) == Pow2(n - m)
  {
    Pow2Add(n - m, m);
    assert Pow2(n) == Pow2(n - m) * Pow2(m);
    DivUnique(Pow2(n), Pow2(m), Pow2(n - m));
  }

  /** A square power-of-two texture generated from level 0 passes every read of
      the fill loop: each parent is twice its child in both dimensions. */
  lemma {:induction false} SquarePowerOfTwoFits(mipmap: seq<MipLevel>, n: nat, maxLevels: int)
    requires |mipmap| >= 1 && AllWellFormed(mipmap) && maxLevels >= 1
    requires mipmap[0].width == Pow2(n) && mipmap[0].height == Pow2(n)
    ensures AllFit(Allocated(mipmap, 0, maxLevels), |Allocated(mipmap, 0, maxLevels)|)
  {
    var alloc := Allocated(mipmap, 0, maxLevels);
    ILog2OfPow2(n);
    assert Max(Pow2(n), Pow2(n)) == Pow2(n);
    forall m | 1 <= m < |alloc|
      ensures LevelFits(alloc[m - 1], alloc[m].width, alloc[m].height)
    {
      AllocatedShape(mipmap, 0, maxLevels, m);
      AllocatedShape(mipmap, 0, maxLevels, m - 1);
      HalvedPow2(n, m);
      HalvedPow2(n, m - 1);
      assert Pow2(n - (m - 1)) == 2 * Pow2(n - m);
      DoubledParentFits(alloc[m - 1], Pow2(n - m), Pow2(n - m));
    }
  }

  /** A start level one texel high and at least two wide, with room for a
      sub-level, makes the fill fail at its first sub-level: a 4 x 1 base fails
      at level 1. */
  lemma {:induction false} OneRowBaseFails(mipmap: seq<MipLevel>, startLevel: nat, maxLevels: int)
    requires startLevel < |mipmap| && AllWellFormed(mipmap) && maxLevels >= startLevel + 2
    requires mipmap[startLevel].height == 1 && mipmap[startLevel].width >= 2
    ensures |Allocated(mipmap, startLevel, maxLevels)| >= startLevel + 2
    ensures !AllFit(Allocated(mipmap, startLevel, maxLevels), |Allocated(mipmap, startLevel, maxLevels)|)
  {
    var alloc := Allocated(mipmap, startLevel, maxLevels);
    var w := mipmap[startLevel].width;
    assert ILog2(w) >= 1;
    AllocatedShape(mipmap, startLevel, maxLevels, startLevel);
    AllocatedShape(mipmap, startLevel, maxLevels, startLevel + 1);
    OneRowParentFails(alloc[startLevel], alloc[startLevel + 1].width, alloc[startLevel + 1].height);
  }

  /** A read coordinate clamped to the last texel of its axis. */
  function ClampTo(i: int, size: int): (r: int)
    requires 0 <= i && size >= 1
    ensures 0 <= r < size
    ensures i < size ==> r == i
  {
    Min(i, size - 1)
  }

  /** The intended average of child texel (k, j): the parent's 2 x 2 block with
      every coordinate clamped into the parent, so that a parent one texel high
      (or wide) supplies its only row (or column) twice. */
  function ClampedBlockAverage(parent: MipLevel, k: int, j: int, base: Color): Color
    requires WellFormed(parent) && 0 <= k && 0 <= j
  {
    var x0, x1 := ClampTo(2 * k, parent.width), ClampTo(2 * k + 1, parent.width);
    var y0, y1 := ClampTo(2 * j, parent.height), ClampTo(2 * j + 1, parent.height);
    Scale(Add(Add(Add(Add(base, TexelAt(parent, x0, y0)), TexelAt(parent, x1, y0)),
                  TexelAt(parent, x0, y1)), TexelAt(parent, x1, y1)), 0.25)
  }

  /** The intended texel array of a cw x ch child level. */
  function ClampedTexels(parent: MipLevel, cw: int, ch: int, base: Color): (r: seq<Byte>)
    requires WellFormed(parent) && cw >= 1 && ch >= 0
    ensures |r| == 4 * cw * ch
  {
    seq(4 * cw * ch, p requires 0 <= p < 4 * cw * ch =>
      ToByte(ClampedBlockAverage(parent, CellX(p, cw), CellY(p, cw), base), p % 4))
  }

  /** All four clamped reads of child texel (k, j) pass color_at_tex's
      assertion. */
  predicate ClampedBlockFits(parent: MipLevel, k: int, j: int)
    requires WellFormed(parent) && 0 <= k && 0 <= j
  {
    var x0, x1 := ClampTo(2 * k, parent.width), ClampTo(2 * k + 1, parent.width);
    var y0, y1 := ClampTo(2 * j, parent.height), ClampTo(2 * j + 1, parent.height);
    ColorAtTex(parent, x0, y0).Some? && ColorAtTex(parent, x1, y0).Some? &&
    ColorAtTex(parent, x0, y1).Some? && ColorAtTex(parent, x1, y1).Some?
  }

  /** Once clamped, every read of every child texel fits, whatever the parent's
      shape. */
  lemma ClampedReadsFit(parent: MipLevel, k: int, j: int)
    requires WellFormed(parent) && 0 <= k && 0 <= j
    ensures ClampedBlockFits(parent, k, j)
  {
    var x0, x1 := ClampTo(2 * k, parent.width), ClampTo(2 * k + 1, parent.width);
    var y0, y1 := ClampTo(2 * j, parent.height), ClampTo(2 * j + 1, parent.height);
    ColorAtTexInside(parent, x0, y0);
    ColorAtTexInside(parent, x1, y0);
    ColorAtTexInside(parent, x0, y1);
    ColorAtTexInside(parent, x1, y1);
  }

  /** With clamped reads, the fill of any well-formed pyramid passes every
      assertion: a 4 x 1 base, which fails as written, now generates. */
  lemma {:induction false} ClampedAllFit(levels: seq<MipLevel>)
    requires AllWellFormed(levels)
    ensures forall m, k, j :: 0 <= m < |levels| - 1 && 0 <= k < levels[m + 1].width && 0 <= j < levels[m + 1].height ==>
              ClampedBlockFits(levels[m], k, j)
  {
    forall m, k, j | 0 <= m < |levels| - 1 && 0 <= k < levels[m + 1].width && 0 <= j < levels[m + 1].height
      ensures ClampedBlockFits(levels[m], k, j)
    {
      ClampedReadsFit(levels[m], k, j);
    }
  }

  /** Where the parent is at least twice the child in each dimension, clamping
      changes no read: the corrected fill computes what generate_mips computes. */
  lemma {:induction false} ClampedAgreesWhenDoubled(parent: MipLevel, cw: int, ch: int, base: Color)
    requires WellFormed(parent) && cw >= 1 && ch >= 0 && parent.width >= 2 * cw && parent.height >= 2 * ch
    ensures ClampedTexels(parent, cw, ch, base) == DownsampledTexels(parent, cw, ch, base)
  {
    forall p | 0 <= p < 4 * cw * ch
      ensures ClampedTexels(parent, cw, ch, base)[p] == DownsampledTexels(parent, cw, ch, base)[p]
    {
      CellOfByte(p, cw, ch);
      var k, j := CellX(p, cw), CellY(p, cw);
      assert ClampedBlockAverage(parent, k, j, base) == BlockAverage(parent, k, j, base);
    }
  }

  /** The corrected read of child texel (k, j): the four clamped color_at_tex
      reads, none of which can fail, and their average. */
  method ReadBlockClamped(parent: MipLevel, k: int, j: int, base: Color) returns (c: Color)
    requires WellFormed(parent) && 0 <= k && 0 <= j
    ensures c == ClampedBlockAverage(parent, k, j, base)
  {
    var x0, x1 := ClampTo(2 * k, parent.width), ClampTo(2 * k + 1, parent.width);
    var y0, y1 := ClampTo(2 * j, parent.height), ClampTo(2 * j + 1, parent.height);
    ColorAtTexInside(parent, x0, y0);
    ColorAtTexInside(parent, x1, y0);
    ColorAtTexInside(parent, x0, y1);
    ColorAtTexInside(parent, x1, y1);
    var c00 := ColorAtTex(parent, x0, y0).value;
    var c10 := ColorAtTex(parent, x1, y0).value;
    var c01 := ColorAtTex(parent, x0, y1).value;
    var c11 := ColorAtTex(parent, x1, y1).value;
    c := Scale(Add(Add(Add(Add(base, c00), c10), c01), c11), 0.25);
  }

  /** The sum of channel q over the four parent texels of child texel (k, j). */
  function BlockChannelSum(parent: MipLevel, k: int, j: int, q: int): (r: int)
    ensures 0 <= r <= 1020
  {
    CellByte(parent.texels, 2 * k, 2 * j, parent.width, q) + CellByte(parent.texels, 2 * k + 1, 2 * j, parent.width, q) +
    CellByte(parent.texels, 2 * k, 2 * j + 1, parent.width, q) + CellByte(parent.texels, 2 * k + 1, 2 * j + 1, parent.width, q)
  }

  /** Channel q of a texel read is the stored byte scaled to [0,1]. */
  lemma TexelChannel(mip: MipLevel, x: int, y: int, q: int)
    requires 0 <= q < 4
    ensures ChannelOf(TexelAt(mip, x, y), q) == Unit(CellByte(mip.texels, x, y, mip.width, q))
  {
  }

  /** Truncating a quarter of a byte sum is integer division by 4. */
  lemma QuarterByte(total: int, v: real)
    requires 0 <= total <= 1020 && v == total as real / 1020.0
    ensures 0.0 <= v <= 1.0 && Quantize(v) == total / 4
  {
    var b := Quantize(v);
    assert v * 255.0 == total as real / 4.0;
    assert 4 * b <= total < 4 * b + 4;
    DivUnique(total, 4, b);
  }

  /** With an all-zero accumulator, each byte of child texel (k, j) is the
      integer mean of that channel over the parent's 2 x 2 block. */
  lemma {:induction false} DownsampledAverage(parent: MipLevel, cw: int, ch: int, k: int, j: int, q: int)
    requires cw >= 1 && 0 <= k < cw && 0 <= j < ch && 0 <= q < 4
    ensures 0 <= 4 * (j * cw + k) + q < 4 * cw * ch
    ensures DownsampledTexels(parent, cw, ch, Color(0.0, 0.0, 0.0, 0.0))[4 * (j * cw + k) + q] ==
            BlockChannelSum(parent, k, j, q) / 4
  {
    var zero := Color(0.0, 0.0, 0.0, 0.0);
    DownsampledTexelAt(parent, cw, ch, k, j, q, zero);
    var v := ChannelOf(BlockAverage(parent, k, j, zero), q);
    BlockAverageChannel(parent, k, j, q);
    QuarterByte(BlockChannelSum(parent, k, j, q), v);
  }

  /** Byte q of child texel (k, j) is channel q of that texel's block average. */
  lemma DownsampledTexelAt(parent: MipLevel, cw: int, ch: int, k: int, j: int, q: int, base: Color)
    requires cw >= 1 && 0 <= k < cw && 0 <= j < ch && 0 <= q < 4
    ensures 0 <= 4 * (j * cw + k) + q < 4 * cw * ch
    ensures DownsampledTexels(parent, cw, ch, base)[4 * (j * cw + k) + q] == ToByte(BlockAverage(parent, k, j, base), q)
  {
    CellInBuffer(k, j, cw, ch);
    CellOfBase(k, j, cw, q);
    assert CellBase(k, j, cw) + q == 4 * (j * cw + k) + q;
  }

  /** Channel q of the block average from an all-zero accumulator is the
      block's byte sum over 4 * 255. */
  lemma BlockAverageChannel(parent: MipLevel, k: int, j: int, q: int)
    requires 0 <= q < 4
    ensures ChannelOf(BlockAverage(parent, k, j, Color(0.0, 0.0, 0.0, 0.0)), q) ==
            BlockChannelSum(parent, k, j, q) as real / 1020.0
  {
    var b0, b1 := CellByte(parent.texels, 2 * k, 2 * j, parent.width, q), CellByte(parent.texels, 2 * k + 1, 2 * j, parent.width, q);
    var b2, b3 := CellByte(parent.texels, 2 * k, 2 * j + 1, parent.width, q), CellByte(parent.texels, 2 * k + 1, 2 * j + 1, parent.width, q);
    BlockAverageUnits(parent, k, j, q);
    QuarterOfUnits(ChannelOf(BlockAverage(parent, k, j, Color(0.0, 0.0, 0.0, 0.0)), q), BlockChannelSum(parent, k, j, q), b0, b1, b2, b3);
  }

  /** Channel q of the block average is a quarter of its four texels' values. */
  lemma BlockAverageUnits(parent: MipLevel, k: int, j: int, q: int)
    requires 0 <= q < 4
    ensures ChannelOf(BlockAverage(parent, k, j, Color(0.0, 0.0, 0.0, 0.0)), q) ==
            (Unit(CellByte(parent.texels, 2 * k, 2 * j, parent.width, q)) + Unit(CellByte(parent.texels, 2 * k + 1, 2 * j, parent.width, q)) +
             Unit(CellByte(parent.texels, 2 * k, 2 * j + 1, parent.width, q)) + Unit(CellByte(parent.texels, 2 * k + 1, 2 * j + 1, parent.width, q))) * 0.25
  {
    TexelChannel(parent, 2 * k, 2 * j, q);
    TexelChannel(parent, 2 * k + 1, 2 * j, q);
    TexelChannel(parent, 2 * k, 2 * j + 1, q);
    TexelChannel(parent, 2 * k + 1, 2 * j + 1, q);
  }

  /** A quarter of four bytes' channel values is their sum over 4 * 255. */
  lemma QuarterOfUnits(v: real, total: int, b0: Byte, b1: Byte, b2: Byte, b3: Byte)
    requires v == (Unit(b0) + Unit(b1) + Unit(b2) + Unit(b3)) * 0.25 && total == b0 + b1 + b2 + b3
    ensures v == total as real / 1020.0
  {
  }

  /** A 2 x 2 parent block whose texels all hold v in channel q gives v. */
  lemma DownsampledUniform(parent: MipLevel, cw: int, ch: int, k: int, j: int, q: int, v: Byte)
    requires cw >= 1 && 0 <= k < cw && 0 <= j < ch && 0 <= q < 4
    requires CellByte(parent.texels, 2 * k, 2 * j, parent.width, q) == v
    requires CellByte(parent.texels, 2 * k + 1, 2 * j, parent.width, q) == v
    requires CellByte(parent.texels, 2 * k, 2 * j + 1, parent.width, q) == v
    requires CellByte(parent.texels, 2 * k + 1, 2 * j + 1, parent.width, q) == v
    ensures 0 <= 4 * (j * cw + k) + q < 4 * cw * ch
    ensures DownsampledTexels(parent, cw, ch, Color(0.0, 0.0, 0.0, 0.0))[4 * (j * cw + k) + q] == v
  {
    DownsampledAverage(parent, cw, ch, k, j, q);
  }

  /** A texture: its size and its pyramid of levels, level 0 the largest. */
  class Texture {
    var width: int
    var height: int
    var mipmap: seq<MipLevel>

    predicate Valid()
      reads this
    {
      AllWellFormed(mipmap)
    }

    constructor (width: int, height: int, mipmap: seq<MipLevel>)
      requires AllWellFormed(mipmap)
      ensures Valid() && this.width == width && this.height == height && this.mipmap == mipmap
    {
      this.width := width;
      this.height := height;
      this.mipmap := mipmap;
    }
  }

  /** std::vector::resize on the pyramid: the common prefix of levels is kept
      and new levels are empty. */
  function ResizedLevels(levels: seq<MipLevel>, n: nat): (r: seq<MipLevel>)
    ensures |r| == n
    ensures forall m :: 0 <= m < n && m < |levels| ==> r[m] == levels[m]
  {
    seq(n, m requires 0 <= m < n => if m < |levels| then levels[m] else MipLevel(0, 0, []))
  }

  /** generate_mips: check the start level, allocate the sub-levels of the start
      level's size, then refill every level from 1 up from its parent. The
      largest level count kMaxMipLevels is the parameter maxLevels, and the
      accumulator's initial colour, Color's default, is the parameter base. */
  method GenerateMips(tex: Texture, startLevel: int, maxLevels: int, base: Color) returns (outcome: MipOutcome)
    requires tex.Valid() && maxLevels >= 1
    modifies tex
    ensures tex.width == old(tex.width) && tex.height == old(tex.height)
    ensures outcome == InvalidStartLevel <==> !(0 <= startLevel < |old(tex.mipmap)|)
    ensures outcome == InvalidStartLevel ==> tex.mipmap == old(tex.mipmap)
    ensures 0 <= startLevel < |old(tex.mipmap)| ==>
              var alloc := Allocated(old(tex.mipmap), startLevel, maxLevels);
              (outcome == Generated <==> AllFit(alloc, |alloc|)) &&
              (outcome == Generated ==> tex.Valid() && tex.mipmap == FillUpTo(alloc, |alloc|, base))
  {
    if !(0 <= startLevel < |tex.mipmap|) {
      return InvalidStartLevel;
    }
    ghost var alloc := Allocated(tex.mipmap, startLevel, maxLevels);
    AllocateLevels(tex, startLevel, maxLevels);
    var filled := FillLevels(tex, base);
    outcome := if filled then Generated else AssertionFailed;
  }

  /** The allocation half of generate_mips: the level count from the start
      level's size, the resize, and fresh sub-levels of halved dimensions. */
  method AllocateLevels(tex: Texture, startLevel: int, maxLevels: int)
    requires tex.Valid() && 0 <= startLevel < |tex.mipmap| && maxLevels >= 1
    modifies tex
    ensures tex.width == old(tex.width) && tex.height == old(tex.height)
    ensures tex.mipmap == Allocated(old(tex.mipmap), startLevel, maxLevels)
  {
    ghost var alloc := Allocated(tex.mipmap, startLevel, maxLevels);
    var baseWidth := tex.mipmap[startLevel].width;
    var baseHeight := tex.mipmap[startLevel].height;
    var numSubLevels := ILog2(Max(baseWidth, baseHeight));
    numSubLevels := Min(numSubLevels, maxLevels - startLevel - 1);
    var resized := ResizedLevels(tex.mipmap, startLevel + numSubLevels + 1);
    tex.mipmap := resized;
    var width, height := baseWidth, baseHeight;
    var i := 1;
    while i <= numSubLevels
      invariant 1 <= i && (numSubLevels >= 0 ==> i <= numSubLevels + 1)
      invariant tex.width == old(tex.width) && tex.height == old(tex.height)
      invariant |tex.mipmap| == |alloc|
      invariant width == Halved(baseWidth, i - 1) && height == Halved(baseHeight, i - 1)
      invariant forall m :: 0 <= m < |alloc| ==>
                  tex.mipmap[m] == if startLevel < m < startLevel + i then alloc[m] else resized[m]
    {
      HalvedStep(baseWidth, i - 1);
      HalvedStep(baseHeight, i - 1);
      width := Max(1, width / 2);
      height := Max(1, height / 2);
      AllocatedShape(old(tex.mipmap), startLevel, maxLevels, startLevel + i);
      tex.mipmap := tex.mipmap[startLevel + i := NewLevel(width, height)];
      i := i + 1;
    }
    assert tex.mipmap == alloc;
  }

  /** The fill half of generate_mips: levels 1 .. n-1, each from its refilled
      parent; false at the first read that fails its assertion. */
  method FillLevels(tex: Texture, base: Color) returns (filled: bool)
    requires tex.Valid() && |tex.mipmap| >= 1
    modifies tex
    ensures tex.width == old(tex.width) && tex.height == old(tex.height)
    ensures filled <==> AllFit(old(tex.mipmap), |old(tex.mipmap)|)
    ensures filled ==> tex.Valid() && tex.mipmap == FillUpTo(old(tex.mipmap), |old(tex.mipmap)|, base)
  {
    ghost var levels := tex.mipmap;
    var i := 1;
    while i < |tex.mipmap|
      invariant 1 <= i <= |levels|
      invariant tex.width == old(tex.width) && tex.height == old(tex.height)
      invariant tex.mipmap == FillUpTo(levels, i, base)
      invariant AllFit(levels, i)
    {
      FillStep(levels, i, base);
      var texels := DownsampleLevel(tex.mipmap[i - 1], tex.mipmap[i], base);
      if texels.None? {
        return false;
      }
      tex.mipmap := tex.mipmap[i := tex.mipmap[i].(texels := texels.value)];
      i := i + 1;
    }
    return true;
  }
}
