/** The software renderer's state and its drawing operations. The renderer owns
    a supersample buffer of w x h RGBA cells (w = sample_rate * target_w,
    h = sample_rate * target_h), composites every primitive into it, and
    resolves it into the caller's target_w x target_h render target. */
module Renderer {
  import opened Common
  import opened Compositor
  import Line
  import Triangle
  import SampleResolve

  /** A byte sequence resized to n bytes: the common prefix is kept and new
      bytes are zero. */
  function Resized(s: seq<Byte>, n: nat): (r: seq<Byte>)
    ensures |r| == n
  {
    seq(n, i requires 0 <= i < n => if i < |s| then s[i] else 0)
  }

  /** Resizing keeps every byte the old and the new length share and zero-fills
      the rest; resizing to the current length changes nothing. */
  lemma ResizedKeepsPrefix(s: seq<Byte>, n: nat)
    ensures Resized(s, n)[..Min(n, |s|)] == s[..Min(n, |s|)]
    ensures forall i :: |s| <= i < n ==> Resized(s, n)[i] == 0
    ensures Resized(s, |s|) == s
  {
  }

  /** The sample buffer after pixel (px, py) of the target is plotted: the
      s x s block of its samples is composited with c, and a pixel outside the
      target is dropped. */
  function PlotPixel(buf: seq<Byte>, w: int, s: int, tw: int, th: int, px: int, py: int, c: Color): (r: seq<Byte>)
    requires IsUnitColor(c)
    ensures |r| == |buf|
  {
    if 0 <= px < tw && 0 <= py < th then Paint(buf, w, px * s, px * s + s, py * s, py * s + s, c)
    else buf
  }

  /** The sample buffer after the pixels of pts are plotted in order. */
  function PlotPixels(buf: seq<Byte>, w: int, s: int, tw: int, th: int, pts: seq<(int, int)>, c: Color): (r: seq<Byte>)
    requires IsUnitColor(c)
    ensures |r| == |buf|
    decreases |pts|
  {
    if pts == [] then buf
    else
      var last := pts[|pts| - 1];
      PlotPixel(PlotPixels(buf, w, s, tw, th, pts[..|pts| - 1], c), w, s, tw, th, last.0, last.1, c)
  }

  function Min3(a: real, b: real, c: real): (r: real)
    ensures r <= a && r <= b && r <= c && (r == a || r == b || r == c)
  {
    if a <= b && a <= c then a else if b <= c then b else c
  }

  function Max3(a: real, b: real, c: real): (r: real)
    ensures r >= a && r >= b && r >= c && (r == a || r == b || r == c)
  {
    if a >= b && a >= c then a else if b >= c then b else c
  }

  /** The least integer not below x. */
  function Ceil(x: real): (r: int)
    ensures x <= r as real < x + 1.0
  {
    -((-x).Floor)
  }

  /** std::vector::resize on the sample buffer: a new buffer of n bytes holding
      the old prefix, zero-filled beyond it. */
  method Resize(a: array<Byte>, n: nat) returns (b: array<Byte>)
    ensures fresh(b) && b[..] == Resized(a[..], n)
  {
    b := new Byte[n];
    var i := 0;
    while i < n
      invariant 0 <= i <= n
      invariant forall j :: 0 <= j < i ==> b[j] == if j < a.Length then a[j] else 0
    {
      b[i] := if i < a.Length then a[i] else 0;
      i := i + 1;
    }
  }

  /** The cells the triangle scan fills at sample rate s under coverage test
      rule: the subsample grid of the box
      [floor(min x), ceil(max x)] x [floor(min y), ceil(max y)],
      (xmax - xmin) * s + 1 columns of (ymax - ymin) * s + 1 rows. */
  function TriangleScan(rule: Triangle.Coverage, x0: real, y0: real, x1: real, y1: real, x2: real, y2: real, s: int): seq<(int, int)>
    requires s >= 1
  {
    var t := Triangle.Tri(Triangle.Vec(x0, y0), Triangle.Vec(x1, y1), Triangle.Vec(x2, y2));
    var xmin, xmax := Min3(x0, x1, x2).Floor, Ceil(Max3(x0, x1, x2));
    var ymin, ymax := Min3(y0, y1, y2).Floor, Ceil(Max3(y0, y1, y2));
    MulMonotone(0, xmax - xmin, s);
    Triangle.ScanCells(rule, t, xmin, ymin, s, (xmax - xmin) * s + 1, (ymax - ymin) * s)
  }

  /** The bounds of three values do not depend on the order of the last two. */
  lemma Min3Max3Swap(a: real, b: real, c: real)
    ensures Min3(a, c, b) == Min3(a, b, c) && Max3(a, c, b) == Max3(a, b, c)
  {
  }

  /** Listing the last two vertices in the other order scans the same box
      and fills the same cells. */
  lemma TriangleScanReversed(rule: Triangle.Coverage, x0: real, y0: real, x1: real, y1: real, x2: real, y2: real, s: int)
    requires s >= 1
    ensures TriangleScan(rule, x0, y0, x2, y2, x1, y1, s) == TriangleScan(rule, x0, y0, x1, y1, x2, y2, s)
  {
    var t := Triangle.Tri(Triangle.Vec(x0, y0), Triangle.Vec(x1, y1), Triangle.Vec(x2, y2));
    var xmin, xmax := Min3(x0, x1, x2).Floor, Ceil(Max3(x0, x1, x2));
    var ymin, ymax := Min3(y0, y1, y2).Floor, Ceil(Max3(y0, y1, y2));
    Min3Max3Swap(x0, x1, x2);
    Min3Max3Swap(y0, y1, y2);
    MulMonotone(0, xmax - xmin, s);
    Triangle.ScanCellsReversed(rule, t, xmin, ymin, s, (xmax - xmin) * s + 1, (ymax - ymin) * s);
  }

  /** Filling one more row of a column strip paints one more cell. */
  lemma PaintRowStep(buf: seq<Byte>, w: int, x: int, y0: int, rows: seq<int>, ky: int, c: Color)
    requires IsUnitColor(c)
    ensures PaintCells(buf, w, Triangle.RowCells(x, y0, rows + [ky]), c) ==
            Paint(PaintCells(buf, w, Triangle.RowCells(x, y0, rows), c), w, x, x + 1, y0 + ky, y0 + ky + 1, c)
  {
    var cells := Triangle.RowCells(x, y0, rows + [ky]);
    assert cells[..|cells| - 1] == Triangle.RowCells(x, y0, rows);
  }

  /** Byte p of a tw x th target belongs to pixel (i, j) exactly when it is
      one of the four bytes from CellBase(i, j, tw). */
  lemma PixelOfByte(p: int, i: int, j: int, tw: int, th: int)
    requires 0 <= p < 4 * tw * th && 0 <= i < tw && 0 <= j < th
    ensures (CellX(p, tw) == i && CellY(p, tw) == j) <==> CellBase(i, j, tw) <= p < CellBase(i, j, tw) + 4
  {
    CellOfByte(p, tw, th);
    if CellBase(i, j, tw) <= p < CellBase(i, j, tw) + 4 {
      CellOfBase(i, j, tw, p - CellBase(i, j, tw));
    }
  }

  /** The s x s block of pixel i of a target n pixels wide lies inside the
      s*n samples of the supersampled row. */
  lemma BlockInside(i: int, n: int, s: int)
    requires 0 <= i < n && s >= 1
    ensures 0 <= s * i && s * i + s <= s * n
  {
    MulMonotone(i + 1, n, s);
    assert (i + 1) * s == s * i + s;
  }

  /** The four bytes of pixel (i, j) in the resolved target are the block
      means of its four channels. */
  lemma PixelResolved(buf: seq<Byte>, s: int, tw: int, th: int, i: int, j: int, want: seq<Byte>)
    requires s >= 1 && 0 <= i < tw && 0 <= j < th
    requires want == SampleResolve.Resolved(buf, s, tw, th)
    ensures CellBase(i, j, tw) + 3 < |want|
    ensures forall k :: 0 <= k < 4 ==>
              CellByte(want, i, j, tw, k) == SampleResolve.BlockSum(buf, s * tw, s * i, s * j, k, s, s) / (s * s)
  {
    CellInBuffer(i, j, tw, th);
    forall k | 0 <= k < 4
      ensures CellByte(want, i, j, tw, k) == SampleResolve.BlockSum(buf, s * tw, s * i, s * j, k, s, s) / (s * s)
    {
      CellOfBase(i, j, tw, k);
    }
  }

  /** The four bytes of pixel (i, j) in the resolved target, at offsets
      4*(tw*j + i) .. 4*(tw*j + i) + 3, are the block means of its channels. */
  lemma PixelMeans(buf: seq<Byte>, s: int, tw: int, th: int, i: int, j: int, want: seq<Byte>, r: int, g: int, b: int, a: int)
    requires s >= 1 && 0 <= i < tw && 0 <= j < th
    requires want == SampleResolve.Resolved(buf, s, tw, th)
    requires r == SampleResolve.BlockSum(buf, s * tw, s * i, s * j, 0, s, s)
    requires g == SampleResolve.BlockSum(buf, s * tw, s * i, s * j, 1, s, s)
    requires b == SampleResolve.BlockSum(buf, s * tw, s * i, s * j, 2, s, s)
    requires a == SampleResolve.BlockSum(buf, s * tw, s * i, s * j, 3, s, s)
    ensures 0 <= 4 * (tw * j + i) == CellBase(i, j, tw) && CellBase(i, j, tw) + 4 <= |want|
    ensures var t := 4 * (tw * j + i);
            want[t] == r / (s * s) && want[t + 1] == g / (s * s) && want[t + 2] == b / (s * s) && want[t + 3] == a / (s * s)
  {
    var t := 4 * (tw * j + i);
    assert t == CellBase(i, j, tw);
    PixelResolved(buf, s, tw, th, i, j, want);
    assert CellByte(want, i, j, tw, 0) == want[t];
    assert CellByte(want, i, j, tw, 1) == want[t + 1];
    assert CellByte(want, i, j, tw, 2) == want[t + 2];
    assert CellByte(want, i, j, tw, 3) == want[t + 3];
  }

  /** Overwriting bytes t .. t+3 of a buffer with those of want makes them
      agree with want and leaves the rest. */
  lemma FourBytesWritten(prev: seq<Byte>, want: seq<Byte>, t: int, v0: Byte, v1: Byte, v2: Byte, v3: Byte)
    requires 0 <= t && t + 4 <= |want| && t + 4 <= |prev|
    requires want[t] == v0 && want[t + 1] == v1 && want[t + 2] == v2 && want[t + 3] == v3
    ensures var written := prev[t := v0][t + 1 := v1][t + 2 := v2][t + 3 := v3];
            forall p :: 0 <= p < |prev| ==> written[p] == if t <= p < t + 4 then want[p] else prev[p]
  {
  }

  /** Byte p (of the first n) belongs to a pixel that a column-by-column
      resolve has reached before pixel (i, j). */
  predicate Before(p: int, n: int, tw: int, i: int, j: int)
  {
    0 <= p < n && tw > 0 && (CellX(p, tw) < i || (CellX(p, tw) == i && CellY(p, tw) < j))
  }

  class SoftwareRenderer {
    var sampleRate: int
    var targetW: int
    var targetH: int
    var w: int
    var h: int
    var sampleBuffer: array<Byte>
    var renderTarget: array<Byte>

    /** The sizes agree: the sample buffer holds w x h cells of four bytes and
        the render target at least target_w x target_h. */
    predicate Valid()
      reads this
    {
      sampleRate >= 1 && targetW >= 0 && targetH >= 0 &&
      w == sampleRate * targetW && h == sampleRate * targetH &&
      sampleBuffer.Length == 4 * w * h &&
      renderTarget.Length >= 4 * targetW * targetH &&
      sampleBuffer != renderTarget
    }

    /** A renderer at one sample per pixel with no render target yet. */
    constructor ()
      ensures Valid() && fresh(sampleBuffer) && fresh(renderTarget)
      ensures sampleRate == 1 && targetW == 0 && targetH == 0 && w == 0 && h == 0
    {
      sampleRate := 1;
      targetW, targetH := 0, 0;
      w, h := 0, 0;
      sampleBuffer := new Byte[0];
      renderTarget := new Byte[0];
    }

    /** set_sample_rate: the supersampled size follows the new rate. */
    method SetSampleRate(rate: int)
      requires Valid() && rate >= 1
      modifies this
      ensures Valid() && fresh(sampleBuffer)
      ensures sampleRate == rate && w == rate * targetW && h == rate * targetH
      ensures targetW == old(targetW) && targetH == old(targetH) && renderTarget == old(renderTarget)
      ensures sampleBuffer[..] == Resized(old(sampleBuffer[..]), 4 * w * h)
    {
      sampleRate := rate;
      w := sampleRate * targetW;
      h := sampleRate * targetH;
      sampleBuffer := Resize(sampleBuffer, 4 * w * h);
    }

    /** set_render_target: adopt the caller's buffer and its size. */
    method SetRenderTarget(target: array<Byte>, width: int, height: int)
      requires Valid() && width >= 0 && height >= 0 && target.Length >= 4 * width * height
      modifies this
      ensures Valid() && fresh(sampleBuffer)
      ensures renderTarget == target && targetW == width && targetH == height
      ensures sampleRate == old(sampleRate) && w == sampleRate * width && h == sampleRate * height
      ensures sampleBuffer[..] == Resized(old(sampleBuffer[..]), 4 * w * h)
    {
      renderTarget := target;
      targetW := width;
      targetH := height;
      w := sampleRate * targetW;
      h := sampleRate * targetH;
      sampleBuffer := Resize(sampleBuffer, 4 * w * h);
    }

    /** The clear at the start of draw_svg: every sample byte becomes 255. */
    method ClearSampleBuffer()
      requires Valid()
      modifies sampleBuffer
      ensures forall p :: 0 <= p < sampleBuffer.Length ==> sampleBuffer[p] == 255
    {
      var i := 0;
      while i < sampleBuffer.Length
        invariant 0 <= i <= sampleBuffer.Length
        invariant forall p :: 0 <= p < i ==> sampleBuffer[p] == 255
      {
        sampleBuffer[i] := 255;
        i := i + 1;
      }
    }

    /** fill_sample: composite c over sample (sx, sy); a sample outside the
        buffer is ignored. */
    method FillSample(sx: int, sy: int, c: Color)
      requires Valid() && IsUnitColor(c)
      modifies sampleBuffer
      ensures sampleBuffer[..] == Paint(old(sampleBuffer[..]), w, sx, sx + 1, sy, sy + 1, c)
    {
      if sx < 0 || sx >= w || sy < 0 || sy >= h {
        PaintOutside(sampleBuffer[..], w, h, sx, sx + 1, sy, sy + 1, c);
        return;
      }
      ghost var before := sampleBuffer[..];
      PaintCellWrites(before, w, h, sx, sy, c);
      var idx := 4 * (sx + sy * w);
      var r, g, b, a := sampleBuffer[idx], sampleBuffer[idx + 1], sampleBuffer[idx + 2], sampleBuffer[idx + 3];
      sampleBuffer[idx] := Over(r, 0, c);
      sampleBuffer[idx + 1] := Over(g, 1, c);
      sampleBuffer[idx + 2] := Over(b, 2, c);
      sampleBuffer[idx + 3] := Over(a, 3, c);
      ghost var written: seq<Byte> := before[idx := Over(r, 0, c)][idx + 1 := Over(g, 1, c)]
                                           [idx + 2 := Over(b, 2, c)][idx + 3 := Over(a, 3, c)];
      assert sampleBuffer[..] == written;
    }

    /** fill_pixel: composite c over the s x s block of samples of pixel (x, y). */
    method FillPixel(x: int, y: int, c: Color)
      requires Valid() && IsUnitColor(c)
      modifies sampleBuffer
      ensures sampleBuffer[..] ==
              Paint(old(sampleBuffer[..]), w, x * sampleRate, x * sampleRate + sampleRate,
                    y * sampleRate, y * sampleRate + sampleRate, c)
    {
      var xStart := x * sampleRate;
      var yStart := y * sampleRate;
      var xEnd := xStart + sampleRate;
      var yEnd := yStart + sampleRate;
      ghost var start := sampleBuffer[..];
      PaintEmpty(start, w, xStart, xStart, yStart, yEnd, c);
      var i := xStart;
      while i < xEnd
        invariant xStart <= i <= xEnd
        invariant sampleBuffer[..] == Paint(start, w, xStart, i, yStart, yEnd, c)
      {
        ghost var columnStart := sampleBuffer[..];
        PaintEmpty(columnStart, w, i, i + 1, yStart, yStart, c);
        var j := yStart;
        while j < yEnd
          invariant yStart <= j <= yEnd
          invariant sampleBuffer[..] == Paint(columnStart, w, i, i + 1, yStart, j, c)
        {
          FillSample(i, j, c);
          PaintExtendDown(columnStart, w, i, i + 1, yStart, j, c);
          j := j + 1;
        }
        PaintExtendRight(start, w, xStart, i, yStart, yEnd, c);
        i := i + 1;
      }
    }

    /** rasterize_point: plot the pixel containing (x, y); a pixel outside the
        target is dropped. */
    method RasterizePoint(x: real, y: real, c: Color)
      requires Valid() && IsUnitColor(c)
      modifies sampleBuffer
      ensures sampleBuffer[..] == PlotPixel(old(sampleBuffer[..]), w, sampleRate, targetW, targetH, x.Floor, y.Floor, c)
    {
      var sx := x.Floor;
      var sy := y.Floor;
      if sx < 0 || sx >= targetW {
        return;
      }
      if sy < 0 || sy >= targetH {
        return;
      }
      FillPixel(sx, sy, c);
    }

    /** rasterize_line: plot, in order, the pixels of the integer walk between
        the pixels containing the two endpoints. */
    method RasterizeLine(x0: real, y0: real, x1: real, y1: real, c: Color)
      requires Valid() && IsUnitColor(c)
      modifies sampleBuffer
      ensures sampleBuffer[..] ==
              PlotPixels(old(sampleBuffer[..]), w, sampleRate, targetW, targetH,
                         Line.Segment(x0.Floor, y0.Floor, x1.Floor, y1.Floor), c)
    {
      var pts := Line.LinePixels(x0.Floor, y0.Floor, x1.Floor, y1.Floor);
      ghost var start := sampleBuffer[..];
      var i := 0;
      while i < |pts|
        invariant 0 <= i <= |pts|
        invariant sampleBuffer[..] == PlotPixels(start, w, sampleRate, targetW, targetH, pts[..i], c)
      {
        RasterizePoint(pts[i].0 as real, pts[i].1 as real, c);
        assert pts[..i + 1][..i] == pts[..i];
        i := i + 1;
      }
      assert pts[..|pts|] == pts;
    }

    /** rasterize_triangle: scan the subsample grid of the bounding box column
        by column and composite c into every lit sample the scan reaches. */
    method RasterizeTriangle(x0: real, y0: real, x1: real, y1: real, x2: real, y2: real, c: Color)
      requires Valid() && IsUnitColor(c)
      modifies sampleBuffer
      ensures sampleBuffer[..] == PaintCells(old(sampleBuffer[..]), w, TriangleScan(Triangle.LitTest, x0, y0, x1, y1, x2, y2, sampleRate), c)
    {
      var t := Triangle.Tri(Triangle.Vec(x0, y0), Triangle.Vec(x1, y1), Triangle.Vec(x2, y2));
      var xmin, xmax := Min3(x0, x1, x2).Floor, Ceil(Max3(x0, x1, x2));
      var ymin, ymax := Min3(y0, y1, y2).Floor, Ceil(Max3(y0, y1, y2));
      MulMonotone(0, ymax - ymin, sampleRate);
      MulMonotone(0, xmax - xmin, sampleRate);
      ScanBox(Triangle.LitTest, t, xmin, ymin, (xmax - xmin) * sampleRate, (ymax - ymin) * sampleRate, c);
    }

    /** The column loop of the triangle scan: columns kx = 0 .. xspan. */
    method ScanBox(rule: Triangle.Coverage, t: Triangle.Tri, xmin: int, ymin: int, xspan: int, last: int, c: Color)
      requires Valid() && IsUnitColor(c) && xspan >= 0 && last >= 0
      modifies sampleBuffer
      ensures sampleBuffer[..] ==
              PaintCells(old(sampleBuffer[..]), w, Triangle.ScanCells(rule, t, xmin, ymin, sampleRate, xspan + 1, last), c)
    {
      ghost var start := sampleBuffer[..];
      var kx := 0;
      while kx <= xspan
        invariant 0 <= kx <= xspan + 1
        invariant sampleBuffer[..] == PaintCells(start, w, Triangle.ScanCells(rule, t, xmin, ymin, sampleRate, kx, last), c)
      {
        ScanColumn(rule, t, xmin, ymin, kx, last, c);
        PaintCellsAppend(start, w, Triangle.ScanCells(rule, t, xmin, ymin, sampleRate, kx, last),
                         Triangle.ColumnCells(rule, t, xmin, ymin, sampleRate, kx, last), c);
        kx := kx + 1;
      }
    }

    /** One column of the triangle scan: rows ky = 0, 1, ... of column kx are
        tested in turn, lit ones are filled, and the first unlit row after a
        filled one ends the column. */
    method ScanColumn(rule: Triangle.Coverage, t: Triangle.Tri, xmin: int, ymin: int, kx: int, last: int, c: Color)
      requires Valid() && IsUnitColor(c) && last >= 0
      modifies sampleBuffer
      ensures sampleBuffer[..] ==
              PaintCells(old(sampleBuffer[..]), w, Triangle.ColumnCells(rule, t, xmin, ymin, sampleRate, kx, last), c)
    {
      var x, y0 := xmin * sampleRate + kx, ymin * sampleRate;
      ghost var start := sampleBuffer[..];
      ghost var done: seq<int> := [];
      var filled := false;
      var ky := 0;
      while ky <= last
        invariant 0 <= ky <= last + 1
        invariant Triangle.ColumnRows(rule, t, xmin, ymin, sampleRate, kx, 0, last, false) ==
                  done + Triangle.ColumnRows(rule, t, xmin, ymin, sampleRate, kx, ky, last, filled)
        invariant sampleBuffer[..] == PaintCells(start, w, Triangle.RowCells(x, y0, done), c)
      {
        Triangle.ColumnRowsAdvance(rule, t, xmin, ymin, sampleRate, kx, ky, last, filled, done);
        if Triangle.LitSample(rule, t, xmin, ymin, sampleRate, kx, ky) {
          FillSample(x, y0 + ky, c);
          PaintRowStep(start, w, x, y0, done, ky, c);
          done := done + [ky];
          filled := true;
        } else if filled {
          break;
        }
        ky := ky + 1;
      }
      assert done == Triangle.ColumnRows(rule, t, xmin, ymin, sampleRate, kx, 0, last, false);
    }

    /** The four channel sums of the s x s block of target pixel (i, j): the
        outer loop runs over the block's columns, the inner one over its rows. */
    method BlockSums(i: int, j: int) returns (r: int, g: int, b: int, a: int)
      requires Valid() && 0 <= i < targetW && 0 <= j < targetH
      ensures r == SampleResolve.BlockSum(sampleBuffer[..], w, sampleRate * i, sampleRate * j, 0, sampleRate, sampleRate)
      ensures g == SampleResolve.BlockSum(sampleBuffer[..], w, sampleRate * i, sampleRate * j, 1, sampleRate, sampleRate)
      ensures b == SampleResolve.BlockSum(sampleBuffer[..], w, sampleRate * i, sampleRate * j, 2, sampleRate, sampleRate)
      ensures a == SampleResolve.BlockSum(sampleBuffer[..], w, sampleRate * i, sampleRate * j, 3, sampleRate, sampleRate)
    {
      ghost var buf := sampleBuffer[..];
      var x0, y0 := sampleRate * i, sampleRate * j;
      BlockInside(i, targetW, sampleRate);
      BlockInside(j, targetH, sampleRate);
      r, g, b, a := 0, 0, 0, 0;
      var dx := 0;
      while dx < sampleRate
        invariant 0 <= dx <= sampleRate
        invariant r == SampleResolve.BlockSum(buf, w, x0, y0, 0, dx, sampleRate)
        invariant g == SampleResolve.BlockSum(buf, w, x0, y0, 1, dx, sampleRate)
        invariant b == SampleResolve.BlockSum(buf, w, x0, y0, 2, dx, sampleRate)
        invariant a == SampleResolve.BlockSum(buf, w, x0, y0, 3, dx, sampleRate)
      {
        var cr, cg, cb, ca := ColumnSums(x0 + dx, y0);
        assert sampleBuffer[..] == buf;
        SampleResolve.BlockSumStep(buf, w, x0, y0, 0, dx, sampleRate, r, cr);
        SampleResolve.BlockSumStep(buf, w, x0, y0, 1, dx, sampleRate, g, cg);
        SampleResolve.BlockSumStep(buf, w, x0, y0, 2, dx, sampleRate, b, cb);
        SampleResolve.BlockSumStep(buf, w, x0, y0, 3, dx, sampleRate, a, ca);
        r, g, b, a := r + cr, g + cg, b + cb, a + ca;
        dx := dx + 1;
      }
    }

    /** The inner loop of the block sums: the four channel sums of the s samples
        of column x from row y0 down. */
    method ColumnSums(x: int, y0: int) returns (r: int, g: int, b: int, a: int)
      requires Valid() && 0 <= x < w && 0 <= y0 && y0 + sampleRate <= h
      ensures r == SampleResolve.ColumnSum(sampleBuffer[..], w, x, y0, 0, sampleRate)
      ensures g == SampleResolve.ColumnSum(sampleBuffer[..], w, x, y0, 1, sampleRate)
      ensures b == SampleResolve.ColumnSum(sampleBuffer[..], w, x, y0, 2, sampleRate)
      ensures a == SampleResolve.ColumnSum(sampleBuffer[..], w, x, y0, 3, sampleRate)
    {
      ghost var buf := sampleBuffer[..];
      r, g, b, a := 0, 0, 0, 0;
      var dy := 0;
      while dy < sampleRate
        invariant 0 <= dy <= sampleRate
        invariant r == SampleResolve.ColumnSum(buf, w, x, y0, 0, dy)
        invariant g == SampleResolve.ColumnSum(buf, w, x, y0, 1, dy)
        invariant b == SampleResolve.ColumnSum(buf, w, x, y0, 2, dy)
        invariant a == SampleResolve.ColumnSum(buf, w, x, y0, 3, dy)
      {
        var y := y0 + dy;
        CellInBuffer(x, y, w, h);
        var base := 4 * (w * y + x);
        assert base == CellBase(x, y, w);
        assert SampleResolve.Sample(buf, w, x, y0, 0, 0, dy) == buf[base];
        assert SampleResolve.Sample(buf, w, x, y0, 1, 0, dy) == buf[base + 1];
        assert SampleResolve.Sample(buf, w, x, y0, 2, 0, dy) == buf[base + 2];
        assert SampleResolve.Sample(buf, w, x, y0, 3, 0, dy) == buf[base + 3];
        r := r + sampleBuffer[base];
        g := g + sampleBuffer[base + 1];
        b := b + sampleBuffer[base + 2];
        a := a + sampleBuffer[base + 3];
        dy := dy + 1;
      }
    }

    /** resolve: every channel of every target pixel becomes the integer mean of
        that channel over the pixel's block of samples; bytes of the render
        target past target_w x target_h pixels are left alone. */
    method Resolve()
      requires Valid()
      modifies renderTarget
      ensures renderTarget[..4 * targetW * targetH] == SampleResolve.Resolved(sampleBuffer[..], sampleRate, targetW, targetH)
      ensures renderTarget[4 * targetW * targetH..] == old(renderTarget[4 * targetW * targetH..])
    {
      ghost var want := SampleResolve.Resolved(sampleBuffer[..], sampleRate, targetW, targetH);
      ghost var n := 4 * targetW * targetH;
      var i := 0;
      while i < targetW
        invariant 0 <= i <= targetW
        invariant forall p :: 0 <= p < renderTarget.Length ==>
                    renderTarget[p] == if Before(p, n, targetW, i, 0) then want[p] else old(renderTarget[p])
      {
        var j := 0;
        while j < targetH
          invariant 0 <= j <= targetH
          invariant forall p :: 0 <= p < renderTarget.Length ==>
                      renderTarget[p] == if Before(p, n, targetW, i, j) then want[p] else old(renderTarget[p])
        {
          ResolvePixel(i, j, want);
          forall p | 0 <= p < renderTarget.Length
            ensures renderTarget[p] == if Before(p, n, targetW, i, j + 1) then want[p] else old(renderTarget[p])
          {
            if p < n {
              PixelOfByte(p, i, j, targetW, targetH);
            }
          }
          j := j + 1;
        }
        forall p | 0 <= p < n
          ensures Before(p, n, targetW, i, targetH) == Before(p, n, targetW, i + 1, 0)
        {
          CellOfByte(p, targetW, targetH);
        }
        i := i + 1;
      }
      forall p | 0 <= p < n
        ensures renderTarget[p] == want[p]
      {
        CellOfByte(p, targetW, targetH);
      }
    }

    /** Writes the four bytes of target pixel (i, j). */
    method ResolvePixel(i: int, j: int, ghost want: seq<Byte>)
      requires Valid() && 0 <= i < targetW && 0 <= j < targetH
      requires want == SampleResolve.Resolved(sampleBuffer[..], sampleRate, targetW, targetH)
      modifies renderTarget
      ensures 0 <= CellBase(i, j, targetW) && CellBase(i, j, targetW) + 4 <= |want|
      ensures forall p :: 0 <= p < renderTarget.Length ==>
                renderTarget[p] == if CellBase(i, j, targetW) <= p < CellBase(i, j, targetW) + 4 then want[p] else old(renderTarget[p])
    {
      var targetStart := 4 * (targetW * j + i);
      var r, g, b, a := BlockSums(i, j);
      var d := sampleRate * sampleRate;
      ghost var before: seq<Byte> := renderTarget[..];
      PixelMeans(sampleBuffer[..], sampleRate, targetW, targetH, i, j, want, r, g, b, a);
      var rb: Byte, gb: Byte, bb: Byte, ab: Byte := r / d, g / d, b / d, a / d;
      FourBytesWritten(before, want, targetStart, rb, gb, bb, ab);
      renderTarget[targetStart] := rb;
      renderTarget[targetStart + 1] := gb;
      renderTarget[targetStart + 2] := bb;
      renderTarget[targetStart + 3] := ab;
      assert renderTarget[..] == before[targetStart := rb][targetStart + 1 := gb][targetStart + 2 := bb][targetStart + 3 := ab];
    }
  }
}
