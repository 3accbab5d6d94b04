/** Integer line rasterization (Bresenham with a doubled error term) between
    two endpoints that have already been floored to pixel coordinates.
    `Segment` is a closed-form reference definition of the pixels plotted;
    `LinePixels` is the source's error-term loop, proved to produce exactly it. */
module Line {
  import opened Common

  type Pixel = (int, int)

  /** How far the minor coordinate has moved after i major steps of a line whose
      extents are `minor` <= `major`: the whole number nearest to i*minor/major,
      with halves rounded up. */
  function Offset(i: int, minor: int, major: int): int
    requires major > 0
  {
    (2 * i * minor + major) / (2 * major)
  }

  /** The offset is the unique k whose error term i*minor - k*major lies
      in the half-open half-pixel window [-major/2, major/2). */
  lemma OffsetBracket(i: int, minor: int, major: int, k: int)
    requires major > 0
    ensures Offset(i, minor, major) == k <==> -major <= 2 * (i * minor - k * major) < major
  {
    var n := 2 * i * minor + major;
    if -major <= 2 * (i * minor - k * major) < major {
      assert k * (2 * major) <= n < k * (2 * major) + 2 * major;
      DivUnique(n, 2 * major, k);
    } else {
      var q := Offset(i, minor, major);
      assert q * (2 * major) <= n < q * (2 * major) + 2 * major;
    }
  }

  /** One major step moves the offset by one exactly when the doubled
      error term, after adding `minor`, reaches `major`. */
  lemma OffsetStep(i: int, minor: int, major: int, e: int)
    requires 0 <= minor <= major && major > 0
    requires e == i * minor - Offset(i, minor, major) * major
    ensures -major <= 2 * e < major
    ensures Offset(i + 1, minor, major) ==
              Offset(i, minor, major) + (if 2 * (e + minor) >= major then 1 else 0)
    ensures (i + 1) * minor - Offset(i + 1, minor, major) * major ==
              e + minor - (if 2 * (e + minor) >= major then major else 0)
  {
    var k := Offset(i, minor, major);
    OffsetBracket(i, minor, major, k);
    var k' := k + (if 2 * (e + minor) >= major then 1 else 0);
    assert (i + 1) * minor - k' * major == e + minor - (k' - k) * major;
    OffsetBracket(i + 1, minor, major, k');
  }

  /** The pixels of a line whose major axis is x, from (sx, sy) rightwards to (ex, ey). */
  function Shallow(sx: int, sy: int, ex: int, ey: int): seq<Pixel>
    requires sx < ex && Abs(ey - sy) <= ex - sx
  {
    var major := ex - sx;
    var minor := Abs(ey - sy);
    seq(major + 1, i => (sx + i, if ey > sy then sy + Offset(i, minor, major) else sy - Offset(i, minor, major)))
  }

  /** The pixels of a line whose major axis is y, from (sx, sy) downwards to (ex, ey). */
  function Steep(sx: int, sy: int, ex: int, ey: int): seq<Pixel>
    requires sy < ey && Abs(ex - sx) <= ey - sy
  {
    var major := ey - sy;
    var minor := Abs(ex - sx);
    seq(major + 1, i => (if ex > sx then sx + Offset(i, minor, major) else sx - Offset(i, minor, major), sy + i))
  }

  /** The pixels, in plotting order, of the line between two floored endpoints:
      a run along x when dy == 0, a run along y when dx == 0, otherwise a step
      along the major axis from the endpoint with the smaller major coordinate. */
  function Segment(x0: int, y0: int, x1: int, y1: int): seq<Pixel>
  {
    var dx := x1 - x0;
    var dy := y1 - y0;
    if dy == 0 then seq(Abs(dx) + 1, i => (Min(x0, x1) + i, y0))
    else if dx == 0 then seq(Abs(dy) + 1, i => (x0, Min(y0, y1) + i))
    else if Abs(dy) <= Abs(dx) then
      if dx < 0 then Shallow(x1, y1, x0, y0) else Shallow(x0, y0, x1, y1)
    else
      if dy < 0 then Steep(x1, y1, x0, y0) else Steep(x0, y0, x1, y1)
  }

  /** The offset after no step is 0 and after all `major` steps is `minor`. */
  lemma OffsetEnds(minor: int, major: int)
    requires 0 <= minor <= major && major > 0
    ensures Offset(0, minor, major) == 0 && Offset(major, minor, major) == minor
  {
    OffsetBracket(0, minor, major, 0);
    assert major * minor - minor * major == 0;
    OffsetBracket(major, minor, major, minor);
  }

  /** A line has one pixel per unit of its longer extent, plus one. */
  lemma SegmentLength(x0: int, y0: int, x1: int, y1: int)
    ensures |Segment(x0, y0, x1, y1)| == Max(Abs(x1 - x0), Abs(y1 - y0)) + 1
  {
  }

  lemma ShallowEnds(sx: int, sy: int, ex: int, ey: int)
    requires sx < ex && Abs(ey - sy) <= ex - sx
    ensures Shallow(sx, sy, ex, ey)[0] == (sx, sy)
    ensures Shallow(sx, sy, ex, ey)[ex - sx] == (ex, ey)
  {
    OffsetEnds(Abs(ey - sy), ex - sx);
  }

  lemma SteepEnds(sx: int, sy: int, ex: int, ey: int)
    requires sy < ey && Abs(ex - sx) <= ey - sy
    ensures Steep(sx, sy, ex, ey)[0] == (sx, sy)
    ensures Steep(sx, sy, ex, ey)[ey - sy] == (ex, ey)
  {
    OffsetEnds(Abs(ex - sx), ey - sy);
  }

  /** The first and last pixels are the two floored endpoints (in one order or the other). */
  lemma SegmentEndpoints(x0: int, y0: int, x1: int, y1: int)
    ensures var s := Segment(x0, y0, x1, y1);
      (s[0] == (x0, y0) && s[|s| - 1] == (x1, y1)) || (s[0] == (x1, y1) && s[|s| - 1] == (x0, y0))
  {
    var dx, dy := x1 - x0, y1 - y0;
    if dy != 0 && dx != 0 {
      if Abs(dy) <= Abs(dx) {
        if dx < 0 {
          ShallowEnds(x1, y1, x0, y0);
        } else {
          ShallowEnds(x0, y0, x1, y1);
        }
      } else {
        if dy < 0 {
          SteepEnds(x1, y1, x0, y0);
        } else {
          SteepEnds(x0, y0, x1, y1);
        }
      }
    }
  }

  /** Drawing the line in the other direction plots the same pixels in the same order. */
  lemma SegmentSymmetric(x0: int, y0: int, x1: int, y1: int)
    ensures Segment(x0, y0, x1, y1) == Segment(x1, y1, x0, y0)
  {
  }

  /** Successive pixels advance by exactly one along the major axis and by at most
      one along the minor axis: the plotted line is 8-connected without gaps. */
  lemma SegmentConnected(x0: int, y0: int, x1: int, y1: int, i: int)
    requires 0 <= i < |Segment(x0, y0, x1, y1)| - 1
    ensures var s := Segment(x0, y0, x1, y1);
      (s[i + 1].0 - s[i].0 == 1 && Abs(s[i + 1].1 - s[i].1) <= 1) ||
      (s[i + 1].1 - s[i].1 == 1 && Abs(s[i + 1].0 - s[i].0) <= 1)
  {
    var dx, dy := x1 - x0, y1 - y0;
    if dy != 0 && dx != 0 {
      if Abs(dy) <= Abs(dx) {
        if dx < 0 {
          ShallowConnected(x1, y1, x0, y0, i);
        } else {
          ShallowConnected(x0, y0, x1, y1, i);
        }
      } else {
        if dy < 0 {
          SteepConnected(x1, y1, x0, y0, i);
        } else {
          SteepConnected(x0, y0, x1, y1, i);
        }
      }
    }
  }

  /** A step of a shallow line moves one pixel right and at most one up or down. */
  lemma ShallowConnected(sx: int, sy: int, ex: int, ey: int, i: int)
    requires sx < ex && Abs(ey - sy) <= ex - sx && 0 <= i < ex - sx
    ensures var s := Shallow(sx, sy, ex, ey);
      s[i + 1].0 - s[i].0 == 1 && Abs(s[i + 1].1 - s[i].1) <= 1
  {
    var major, minor := ex - sx, Abs(ey - sy);
    OffsetStep(i, minor, major, i * minor - Offset(i, minor, major) * major);
  }

  /** A step of a steep line moves one pixel down and at most one left or right. */
  lemma SteepConnected(sx: int, sy: int, ex: int, ey: int, i: int)
    requires sy < ey && Abs(ex - sx) <= ey - sy && 0 <= i < ey - sy
    ensures var s := Steep(sx, sy, ex, ey);
      s[i + 1].1 - s[i].1 == 1 && Abs(s[i + 1].0 - s[i].0) <= 1
  {
    var major, minor := ey - sy, Abs(ex - sx);
    OffsetStep(i, minor, major, i * minor - Offset(i, minor, major) * major);
  }

  /** The signed area spanned by the line's direction and the offset of (px, py) from
      (x0, y0): its absolute value divided by the longer extent is how far the point
      lies from the ideal line, measured along the minor axis. */
  function LineCross(x0: int, y0: int, x1: int, y1: int, px: int, py: int): int
  {
    (x1 - x0) * (py - y0) - (y1 - y0) * (px - x0)
  }

  lemma LineCrossReversed(x0: int, y0: int, x1: int, y1: int, px: int, py: int)
    ensures LineCross(x1, y1, x0, y0, px, py) == -LineCross(x0, y0, x1, y1, px, py)
  {
    assert (x0 - x1) * (py - y1) == (x0 - x1) * (py - y0) + (x0 - x1) * (y0 - y1);
    assert (y0 - y1) * (px - x1) == (y0 - y1) * (px - x0) + (y0 - y1) * (x0 - x1);
  }

  lemma ShallowNearIdeal(sx: int, sy: int, ex: int, ey: int, i: int)
    requires sx < ex && Abs(ey - sy) <= ex - sx && 0 <= i <= ex - sx
    ensures Abs(2 * LineCross(sx, sy, ex, ey, Shallow(sx, sy, ex, ey)[i].0, Shallow(sx, sy, ex, ey)[i].1)) <= ex - sx
  {
    var major, minor := ex - sx, Abs(ey - sy);
    var k := Offset(i, minor, major);
    OffsetBracket(i, minor, major, k);
    var e := i * minor - k * major;
    if ey > sy {
      assert LineCross(sx, sy, ex, ey, sx + i, sy + k) == -e;
    } else {
      assert LineCross(sx, sy, ex, ey, sx + i, sy - k) == e;
    }
  }

  lemma SteepNearIdeal(sx: int, sy: int, ex: int, ey: int, i: int)
    requires sy < ey && Abs(ex - sx) <= ey - sy && 0 <= i <= ey - sy
    ensures Abs(2 * LineCross(sx, sy, ex, ey, Steep(sx, sy, ex, ey)[i].0, Steep(sx, sy, ex, ey)[i].1)) <= ey - sy
  {
    var major, minor := ey - sy, Abs(ex - sx);
    var k := Offset(i, minor, major);
    OffsetBracket(i, minor, major, k);
    var e := i * minor - k * major;
    if ex > sx {
      assert LineCross(sx, sy, ex, ey, sx + k, sy + i) == e;
    } else {
      assert LineCross(sx, sy, ex, ey, sx - k, sy + i) == -e;
    }
  }

  /** Every plotted pixel lies within half a pixel of the ideal line through the two
      endpoints, measured along the minor axis (the bound the error term keeps). */
  lemma {:induction false} SegmentNearIdeal(x0: int, y0: int, x1: int, y1: int, i: int)
    requires 0 <= i < |Segment(x0, y0, x1, y1)|
    ensures var p := Segment(x0, y0, x1, y1)[i];
      Abs(2 * LineCross(x0, y0, x1, y1, p.0, p.1)) <= Max(Abs(x1 - x0), Abs(y1 - y0))
  {
    var dx, dy := x1 - x0, y1 - y0;
    var p := Segment(x0, y0, x1, y1)[i];
    if dy == 0 {
      assert LineCross(x0, y0, x1, y1, p.0, p.1) == dx * 0 - 0 * (p.0 - x0);
    } else if dx == 0 {
      assert LineCross(x0, y0, x1, y1, p.0, p.1) == 0 * (p.1 - y0) - dy * 0;
    } else if Abs(dy) <= Abs(dx) {
      if dx < 0 {
        ShallowNearIdeal(x1, y1, x0, y0, i);
        LineCrossReversed(x0, y0, x1, y1, p.0, p.1);
      } else {
        ShallowNearIdeal(x0, y0, x1, y1, i);
      }
    } else {
      if dy < 0 {
        SteepNearIdeal(x1, y1, x0, y0, i);
        LineCrossReversed(x0, y0, x1, y1, p.0, p.1);
      } else {
        SteepNearIdeal(x0, y0, x1, y1, i);
      }
    }
  }

  /** rasterize_line's integer part: the pixels it hands to rasterize_point, in order. */
  method LinePixels(sx0: int, sy0: int, sx1: int, sy1: int) returns (pts: seq<Pixel>)
    ensures pts == Segment(sx0, sy0, sx1, sy1)
  {
    var x0, y0, x1, y1 := sx0, sy0, sx1, sy1;
    var dx := x1 - x0;
    var dy := y1 - y0;
    pts := [];
    if dy == 0 {
      if x0 > x1 {
        x0, x1 := x1, x0;
      }
      var x := x0;
      while x <= x1
        invariant x0 <= x <= x1 + 1 && |pts| == x - x0
        invariant forall i :: 0 <= i < |pts| ==> pts[i] == (x0 + i, y0)
      {
        pts := pts + [(x, y0)];
        x := x + 1;
      }
    } else if dx == 0 {
      if y0 > y1 {
        y0, y1 := y1, y0;
      }
      var y := y0;
      while y <= y1
        invariant y0 <= y <= y1 + 1 && |pts| == y - y0
        invariant forall i :: 0 <= i < |pts| ==> pts[i] == (x0, y0 + i)
      {
        pts := pts + [(x0, y)];
        y := y + 1;
      }
    } else if Abs(dy) <= Abs(dx) {
      if dx < 0 {
        x0, x1 := x1, x0;
        y0, y1 := y1, y0;
      }
      pts := ShallowPixels(x0, y0, x1, y1);
    } else {
      if dy < 0 {
        x0, x1 := x1, x0;
        y0, y1 := y1, y0;
      }
      pts := SteepPixels(x0, y0, x1, y1);
    }
  }

  /** The error-term loop of rasterize_line for |dy| <= |dx|, after the endpoints
      have been ordered so that x increases. */
  method ShallowPixels(x0: int, y0: int, x1: int, y1: int) returns (pts: seq<Pixel>)
    requires x0 < x1 && Abs(y1 - y0) <= x1 - x0
    ensures pts == Shallow(x0, y0, x1, y1)
  {
    var dx := x1 - x0;
    var dy := y1 - y0;
    var error := 0;
    var y := y0;
    var posTan := dy > 0;
    dy := Abs(dy);
    pts := [];
    var x := x0;
    ghost var i := 0;
    OffsetBracket(0, dy, dx, 0);
    while x <= x1
      invariant i == x - x0 && 0 <= i <= dx + 1 && |pts| == i
      invariant forall j :: 0 <= j < i ==>
                  pts[j] == (x0 + j, if posTan then y0 + Offset(j, dy, dx) else y0 - Offset(j, dy, dx))
      invariant y == if posTan then y0 + Offset(i, dy, dx) else y0 - Offset(i, dy, dx)
      invariant error == i * dy - Offset(i, dy, dx) * dx
      invariant -dx <= 2 * error < dx
    {
      pts := pts + [(x, y)];
      OffsetStep(i, dy, dx, error);
      error := error + dy;
      if 2 * error >= dx {
        y := if posTan then y + 1 else y - 1;
        error := error - dx;
      }
      x := x + 1;
      i := i + 1;
    }
  }

  /** The error-term loop of rasterize_line for |dy| > |dx|, after the endpoints
      have been ordered so that y increases. */
  method SteepPixels(x0: int, y0: int, x1: int, y1: int) returns (pts: seq<Pixel>)
    requires y0 < y1 && Abs(x1 - x0) <= y1 - y0
    ensures pts == Steep(x0, y0, x1, y1)
  {
    var dx := x1 - x0;
    var dy := y1 - y0;
    var error := 0;
    var x := x0;
    var posTan := dx > 0;
    dx := Abs(dx);
    pts := [];
    var y := y0;
    ghost var i := 0;
    OffsetBracket(0, dx, dy, 0);
    while y <= y1
      invariant i == y - y0 && 0 <= i <= dy + 1 && |pts| == i
      invariant forall j :: 0 <= j < i ==>
                  pts[j] == (if posTan then x0 + Offset(j, dx, dy) else x0 - Offset(j, dx, dy), y0 + j)
      invariant x == if posTan then x0 + Offset(i, dx, dy) else x0 - Offset(i, dx, dy)
      invariant error == i * dx - Offset(i, dx, dy) * dy
      invariant -dy <= 2 * error < dy
    {
      pts := pts + [(x, y)];
      OffsetStep(i, dx, dy, error);
      error := error + dx;
      if 2 * error >= dy {
        x := if posTan then x + 1 else x - 1;
        error := error - dy;
      }
      y := y + 1;
      i := i + 1;
    }
  }
}
