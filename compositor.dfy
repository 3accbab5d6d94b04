/** The compositor's arithmetic: the source-over blend of an incoming colour
    into one stored byte, and the effect of blending a colour into every cell of
    a rectangle of a row-major RGBA byte buffer. Colour channels are exact reals
    here; the uint8_t casts of the renderer are `Floor` of a non-negative value. */
module Compositor {
  import opened Common

  /** An incoming colour with channels r, g, b and alpha a. */
  datatype Color = Color(r: real, g: real, b: real, a: real)

  /** Every channel lies in [0,1], as for all colours the renderer receives. */
  predicate IsUnitColor(c: Color)
  {
    0.0 <= c.r <= 1.0 && 0.0 <= c.g <= 1.0 && 0.0 <= c.b <= 1.0 && 0.0 <= c.a <= 1.0
  }

  /** Channel k (0 = r, 1 = g, 2 = b, 3 = a) of a colour. */
  function ChannelOf(c: Color, k: int): real
    requires 0 <= k < 4
  {
    if k == 0 then c.r else if k == 1 then c.g else if k == 2 then c.b else c.a
  }

  /** The channel value a stored byte stands for. */
  function Unit(d: Byte): (v: real)
    ensures 0.0 <= v <= 1.0
  {
    d as real / 255.0
  }

  /** The truncating conversion of a channel value in [0,1] back to a byte. */
  function Quantize(v: real): (b: Byte)
    requires 0.0 <= v <= 1.0
    ensures b as real <= v * 255.0 < b as real + 1.0
  {
    assert 0.0 <= v * 255.0 <= 255.0;
    (v * 255.0).Floor
  }

  lemma SumAtMostOne(a: real, b: real, t: real)
    requires a <= 1.0 - t && b <= t
    ensures a + b <= 1.0
  {
  }

  lemma ConvexInUnit(t: real, x: real, y: real)
    requires 0.0 <= t <= 1.0 && 0.0 <= x <= 1.0 && 0.0 <= y <= 1.0
    ensures 0.0 <= (1.0 - t) * x + y * t <= 1.0
  {
    MulAtMost(1.0 - t, x);
    MulAtMost(t, y);
    assert y * t == t * y;
    SumAtMostOne((1.0 - t) * x, y * t, t);
    MulNonneg(1.0 - t, x);
    MulNonneg(y, t);
  }

  lemma ProductInUnit(x: real, y: real)
    requires 0.0 <= x <= 1.0 && 0.0 <= y <= 1.0
    ensures 0.0 <= x * y <= 1.0
  {
    MulNonneg(x, y);
    MulAtMost(x, y);
  }

  /** The blended value, in [0,1], of channel k after compositing c over stored byte d. */
  function OverValue(d: Byte, k: int, c: Color): (v: real)
    requires 0 <= k < 4 && IsUnitColor(c)
    ensures 0.0 <= v <= 1.0
  {
    if k == 3 then
      ProductInUnit(1.0 - Unit(d), 1.0 - c.a);
      1.0 - (1.0 - Unit(d)) * (1.0 - c.a)
    else
      ConvexInUnit(c.a, Unit(d), ChannelOf(c, k));
      (1.0 - c.a) * Unit(d) + ChannelOf(c, k) * c.a
  }

  /** The byte that replaces stored byte d of channel k when c is composited over it. */
  function Over(d: Byte, k: int, c: Color): Byte
    requires 0 <= k < 4 && IsUnitColor(c)
  {
    Quantize(OverValue(d, k, c))
  }

  /** A fully opaque source replaces the stored channel by its own quantised value. */
  lemma OverOpaque(d: Byte, k: int, c: Color)
    requires 0 <= k < 4 && IsUnitColor(c) && c.a == 1.0
    ensures Over(d, k, c) == Quantize(ChannelOf(c, k))
  {
    if k < 3 {
      assert OverValue(d, k, c) == ChannelOf(c, k);
    } else {
      assert OverValue(d, k, c) == 1.0;
    }
  }

  /** A fully transparent source leaves the stored byte exactly as it was. */
  lemma OverTransparent(d: Byte, k: int, c: Color)
    requires 0 <= k < 4 && IsUnitColor(c) && c.a == 0.0
    ensures Over(d, k, c) == d
  {
    assert OverValue(d, k, c) == Unit(d);
    assert Unit(d) * 255.0 == d as real;
  }

  /** Byte p of a buffer of width w belongs to a cell in [x0,x1) x [y0,y1). */
  predicate InRect(p: int, w: int, x0: int, x1: int, y0: int, y1: int)
  {
    w > 0 && x0 <= CellX(p, w) < x1 && y0 <= CellY(p, w) < y1
  }

  /** The buffer after compositing c once into every cell of [x0,x1) x [y0,y1);
      cells of the rectangle outside the buffer are ignored. */
  function Paint(buf: seq<Byte>, w: int, x0: int, x1: int, y0: int, y1: int, c: Color): seq<Byte>
    requires IsUnitColor(c)
  {
    seq(|buf|, p requires 0 <= p < |buf| =>
      if InRect(p, w, x0, x1, y0, y1) then Over(buf[p], p % 4, c) else buf[p])
  }

  /** Compositing into one cell inside the buffer changes exactly its four bytes
      4*(x + y*w) .. 4*(x + y*w) + 3, each by the source-over blend of its channel. */
  lemma {:induction false} PaintCell(buf: seq<Byte>, w: int, h: int, x: int, y: int, c: Color)
    requires |buf| == 4 * w * h && 0 <= x < w && 0 <= y < h && IsUnitColor(c)
    ensures 0 <= CellBase(x, y, w) && CellBase(x, y, w) + 3 < |buf|
    ensures |Paint(buf, w, x, x + 1, y, y + 1, c)| == |buf|
    ensures forall p :: 0 <= p < |buf| && !(CellBase(x, y, w) <= p < CellBase(x, y, w) + 4) ==>
              Paint(buf, w, x, x + 1, y, y + 1, c)[p] == buf[p]
    ensures forall k :: 0 <= k < 4 ==>
              CellByte(Paint(buf, w, x, x + 1, y, y + 1, c), x, y, w, k) == Over(CellByte(buf, x, y, w, k), k, c)
  {
    var r := Paint(buf, w, x, x + 1, y, y + 1, c);
    CellInBuffer(x, y, w, h);
    forall p | 0 <= p < |buf| && !(CellBase(x, y, w) <= p < CellBase(x, y, w) + 4)
      ensures r[p] == buf[p]
    {
      CellOfByte(p, w, h);
    }
    forall k | 0 <= k < 4
      ensures CellByte(r, x, y, w, k) == Over(CellByte(buf, x, y, w, k), k, c)
    {
      CellOfBase(x, y, w, k);
    }
  }

  /** Painting one cell inside the buffer is overwriting its four bytes with
      their blends. */
  lemma PaintCellWrites(buf: seq<Byte>, w: int, h: int, x: int, y: int, c: Color)
    requires |buf| == 4 * w * h && 0 <= x < w && 0 <= y < h && IsUnitColor(c)
    ensures 0 <= CellBase(x, y, w) && CellBase(x, y, w) + 3 < |buf|
    ensures var i := CellBase(x, y, w);
            buf[i := Over(buf[i], 0, c)][i + 1 := Over(buf[i + 1], 1, c)]
               [i + 2 := Over(buf[i + 2], 2, c)][i + 3 := Over(buf[i + 3], 3, c)] ==
            Paint(buf, w, x, x + 1, y, y + 1, c)
  {
    PaintCell(buf, w, h, x, y, c);
    var i := CellBase(x, y, w);
    var written := buf[i := Over(buf[i], 0, c)][i + 1 := Over(buf[i + 1], 1, c)]
                      [i + 2 := Over(buf[i + 2], 2, c)][i + 3 := Over(buf[i + 3], 3, c)];
    var after := Paint(buf, w, x, x + 1, y, y + 1, c);
    forall p | 0 <= p < |buf|
      ensures written[p] == after[p]
    {
      if i <= p < i + 4 {
        assert CellByte(after, x, y, w, p - i) == Over(CellByte(buf, x, y, w, p - i), p - i, c);
      }
    }
  }

  /** A rectangle that misses [0,w) x [0,h) leaves the buffer unchanged. */
  lemma {:induction false} PaintOutside(buf: seq<Byte>, w: int, h: int, x0: int, x1: int, y0: int, y1: int, c: Color)
    requires |buf| == 4 * w * h && IsUnitColor(c)
    requires x1 <= 0 || x0 >= w || y1 <= 0 || y0 >= h
    ensures Paint(buf, w, x0, x1, y0, y1, c) == buf
  {
    var r := Paint(buf, w, x0, x1, y0, y1, c);
    forall p | 0 <= p < |buf|
      ensures r[p] == buf[p]
    {
      if w > 0 {
        CellOfByte(p, w, h);
      }
    }
  }

  /** The buffer after compositing c into each listed cell in turn. */
  function PaintCells(buf: seq<Byte>, w: int, cells: seq<(int, int)>, c: Color): (r: seq<Byte>)
    requires IsUnitColor(c)
    ensures |r| == |buf|
    decreases |cells|
  {
    if cells == [] then buf
    else
      var last := cells[|cells| - 1];
      Paint(PaintCells(buf, w, cells[..|cells| - 1], c), w, last.0, last.0 + 1, last.1, last.1 + 1, c)
  }

  /** Painting a list of cells changes no byte of a cell outside the list. */
  lemma {:induction false} PaintCellsElsewhere(buf: seq<Byte>, w: int, cells: seq<(int, int)>, c: Color)
    requires IsUnitColor(c)
    ensures forall p :: 0 <= p < |buf| && (w <= 0 || (CellX(p, w), CellY(p, w)) !in cells) ==>
              PaintCells(buf, w, cells, c)[p] == buf[p]
    decreases |cells|
  {
    if cells != [] {
      var init := cells[..|cells| - 1];
      PaintCellsElsewhere(buf, w, init, c);
      forall p | 0 <= p < |buf| && (w <= 0 || (CellX(p, w), CellY(p, w)) !in cells)
        ensures PaintCells(buf, w, cells, c)[p] == buf[p]
      {
        if w > 0 {
          assert cells == init + [cells[|cells| - 1]];
          assert (CellX(p, w), CellY(p, w)) !in init;
        }
      }
    }
  }

  /** Painting rows [y0, y1) and then row y1 of a column strip [x0, x1) is the
      same as painting rows [y0, y1 + 1) at once. */
  lemma {:induction false} PaintExtendDown(buf: seq<Byte>, w: int, x0: int, x1: int, y0: int, y1: int, c: Color)
    requires IsUnitColor(c) && y0 <= y1
    ensures Paint(Paint(buf, w, x0, x1, y0, y1, c), w, x0, x1, y1, y1 + 1, c) == Paint(buf, w, x0, x1, y0, y1 + 1, c)
  {
    var once := Paint(buf, w, x0, x1, y0, y1, c);
    var r := Paint(once, w, x0, x1, y1, y1 + 1, c);
    var whole := Paint(buf, w, x0, x1, y0, y1 + 1, c);
    forall p | 0 <= p < |buf|
      ensures r[p] == whole[p]
    {
      assert once[p] == if InRect(p, w, x0, x1, y0, y1) then Over(buf[p], p % 4, c) else buf[p];
    }
  }

  /** Painting columns [x0, x1) and then column x1 over the rows [y0, y1) is the
      same as painting columns [x0, x1 + 1) at once. */
  lemma {:induction false} PaintExtendRight(buf: seq<Byte>, w: int, x0: int, x1: int, y0: int, y1: int, c: Color)
    requires IsUnitColor(c) && x0 <= x1
    ensures Paint(Paint(buf, w, x0, x1, y0, y1, c), w, x1, x1 + 1, y0, y1, c) == Paint(buf, w, x0, x1 + 1, y0, y1, c)
  {
    var once := Paint(buf, w, x0, x1, y0, y1, c);
    var r := Paint(once, w, x1, x1 + 1, y0, y1, c);
    var whole := Paint(buf, w, x0, x1 + 1, y0, y1, c);
    forall p | 0 <= p < |buf|
      ensures r[p] == whole[p]
    {
      assert once[p] == if InRect(p, w, x0, x1, y0, y1) then Over(buf[p], p % 4, c) else buf[p];
    }
  }

  /** An empty rectangle changes nothing. */
  lemma PaintEmpty(buf: seq<Byte>, w: int, x0: int, x1: int, y0: int, y1: int, c: Color)
    requires IsUnitColor(c) && (x1 <= x0 || y1 <= y0)
    ensures Paint(buf, w, x0, x1, y0, y1, c) == buf
  {
  }

  /** Painting the cells of a + b is painting those of a, then those of b. */
  lemma {:induction false} PaintCellsAppend(buf: seq<Byte>, w: int, a: seq<(int, int)>, b: seq<(int, int)>, c: Color)
    requires IsUnitColor(c)
    ensures PaintCells(buf, w, a + b, c) == PaintCells(PaintCells(buf, w, a, c), w, b, c)
    decreases |b|
  {
    if b == [] {
      assert a + b == a;
    } else {
      assert (a + b)[..|a + b| - 1] == a + b[..|b| - 1];
      assert (a + b)[|a + b| - 1] == b[|b| - 1];
      PaintCellsAppend(buf, w, a, b[..|b| - 1], c);
    }
  }
}
