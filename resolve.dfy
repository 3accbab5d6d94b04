/** The box filter that turns the supersampled buffer into the render target:
    channel k of target pixel (i, j) is the integer mean of channel k over the
    s x s block of samples whose corner is (s*i, s*j). */
module SampleResolve {
  import opened Common

  /** Channel k of the sample at offset (dx, dy) from cell (x0, y0). */
  function Sample(buf: seq<Byte>, w: int, x0: int, y0: int, k: int, dx: int, dy: int): Byte
  {
    CellByte(buf, x0 + dx, y0 + dy, w, k)
  }

  /** Channel k summed over cells (x, y0) .. (x, y0 + n - 1), in that order. */
  function ColumnSum(buf: seq<Byte>, w: int, x: int, y0: int, k: int, n: nat): (r: int)
    ensures 0 <= r <= 255 * n
  {
    if n == 0 then 0
    else ColumnSum(buf, w, x, y0, k, n - 1) + Sample(buf, w, x, y0, k, 0, n - 1)
  }

  /** Channel k summed over the columns x0 .. x0 + m - 1 of n rows from y0: the
      outer loop runs over the columns, the inner one over the rows. */
  function BlockSum(buf: seq<Byte>, w: int, x0: int, y0: int, k: int, m: nat, n: nat): (r: int)
    ensures 0 <= r <= 255 * (m * n)
  {
    if m == 0 then 0
    else
      ScaledStep(255, m, n);
      BlockSum(buf, w, x0, y0, k, m - 1, n) + ColumnSum(buf, w, x0 + m - 1, y0, k, n)
  }

  /** One more column adds that column's sum. */
  lemma BlockSumStep(buf: seq<Byte>, w: int, x0: int, y0: int, k: int, m: nat, n: nat, acc: int, col: int)
    requires acc == BlockSum(buf, w, x0, y0, k, m, n) && col == ColumnSum(buf, w, x0 + m, y0, k, n)
    ensures acc + col == BlockSum(buf, w, x0, y0, k, m + 1, n)
  {
    assert x0 + (m + 1) - 1 == x0 + m;
  }

  lemma ScaledStep(c: int, m: int, n: int)
    ensures c * ((m - 1) * n) + c * n == c * (m * n)
  {
    assert (m - 1) * n == m * n - n;
    assert c * (m * n - n) == c * (m * n) - c * n;
  }

  /** Channel k of target pixel (i, j): the block sum divided by s*s. */
  function ResolvedByte(buf: seq<Byte>, w: int, s: int, i: int, j: int, k: int): Byte
    requires s >= 1
  {
    var total := BlockSum(buf, w, s * i, s * j, k, s, s);
    DivBetween(total, s * s, 0, 255);
    total / (s * s)
  }

  /** The render target contents after resolving a buffer of sample rate s for a
      tw x th target. */
  function Resolved(buf: seq<Byte>, s: int, tw: int, th: int): (r: seq<Byte>)
    requires s >= 1 && tw >= 0 && th >= 0
    ensures |r| == 4 * tw * th
  {
    seq(4 * tw * th, p requires 0 <= p < 4 * tw * th =>
      ResolvedByte(buf, s * tw, s, CellX(p, tw), CellY(p, tw), p % 4))
  }

  /** Every sample of a column lies in [lo, hi], so the sum lies in [lo*n, hi*n]. */
  lemma {:induction false} ColumnSumBetween(buf: seq<Byte>, w: int, x: int, y0: int, k: int, n: nat, lo: int, hi: int)
    requires forall dy :: 0 <= dy < n ==> lo <= Sample(buf, w, x, y0, k, 0, dy) <= hi
    ensures lo * n <= ColumnSum(buf, w, x, y0, k, n) <= hi * n
  {
    if n > 0 {
      ColumnSumBetween(buf, w, x, y0, k, n - 1, lo, hi);
      assert lo * (n - 1) + lo == lo * n && hi * (n - 1) + hi == hi * n;
    }
  }

  /** Every sample of a block lies in [lo, hi], so the sum lies in [lo*m*n, hi*m*n]. */
  lemma {:induction false} BlockSumBetween(buf: seq<Byte>, w: int, x0: int, y0: int, k: int, m: nat, n: nat, lo: int, hi: int)
    requires forall dx, dy :: 0 <= dx < m && 0 <= dy < n ==> lo <= Sample(buf, w, x0, y0, k, dx, dy) <= hi
    ensures lo * (m * n) <= BlockSum(buf, w, x0, y0, k, m, n) <= hi * (m * n)
  {
    if m > 0 {
      BlockSumBetween(buf, w, x0, y0, k, m - 1, n, lo, hi);
      var x := x0 + m - 1;
      forall dy | 0 <= dy < n
        ensures lo <= Sample(buf, w, x, y0, k, 0, dy) <= hi
      {
        assert Sample(buf, w, x, y0, k, 0, dy) == Sample(buf, w, x0, y0, k, m - 1, dy);
      }
      ColumnSumBetween(buf, w, x, y0, k, n, lo, hi);
      ScaledStep(lo, m, n);
      ScaledStep(hi, m, n);
    }
  }

  /** The resolved byte is a mean: it lies between the least and the greatest
      sample of its block. */
  lemma ResolvedBetween(buf: seq<Byte>, w: int, s: int, i: int, j: int, k: int, lo: int, hi: int)
    requires s >= 1
    requires forall dx, dy :: 0 <= dx < s && 0 <= dy < s ==> lo <= Sample(buf, w, s * i, s * j, k, dx, dy) <= hi
    ensures lo <= ResolvedByte(buf, w, s, i, j, k) <= hi
  {
    var total := BlockSum(buf, w, s * i, s * j, k, s, s);
    BlockSumBetween(buf, w, s * i, s * j, k, s, s, lo, hi);
    DivBetween(total, s * s, lo, hi);
  }

  /** A block whose samples all hold v in channel k resolves to v. */
  lemma ResolvedUniform(buf: seq<Byte>, w: int, s: int, i: int, j: int, k: int, v: Byte)
    requires s >= 1
    requires forall dx, dy :: 0 <= dx < s && 0 <= dy < s ==> Sample(buf, w, s * i, s * j, k, dx, dy) == v
    ensures ResolvedByte(buf, w, s, i, j, k) == v
  {
    ResolvedBetween(buf, w, s, i, j, k, v, v);
  }

  /** At one sample per pixel resolving copies the sample buffer unchanged. */
  lemma ResolvedAtUnitRate(buf: seq<Byte>, tw: int, th: int)
    requires tw >= 0 && th >= 0 && |buf| == 4 * tw * th
    ensures Resolved(buf, 1, tw, th) == buf
  {
    forall p | 0 <= p < |buf|
      ensures Resolved(buf, 1, tw, th)[p] == buf[p]
    {
      CellOfByte(p, tw, th);
      var x, y := CellX(p, tw), CellY(p, tw);
      assert Sample(buf, tw, 1 * x, 1 * y, p % 4, 0, 0) == buf[p];
      ResolvedUniform(buf, tw, 1, x, y, p % 4, buf[p]);
    }
  }

  /** Every sample of the block of target pixel (x, y) lies inside a buffer of
      (s*tw) x (s*th) cells, so in a buffer holding v in every byte each of them
      reads v. */
  lemma {:induction false} BlockOfConstant(buf: seq<Byte>, s: int, tw: int, th: int, x: int, y: int, k: int, v: Byte)
    requires s >= 1 && 0 <= x < tw && 0 <= y < th && 0 <= k < 4
    requires |buf| == 4 * (s * tw) * (s * th) && forall p :: 0 <= p < |buf| ==> buf[p] == v
    ensures forall dx, dy :: 0 <= dx < s && 0 <= dy < s ==> Sample(buf, s * tw, s * x, s * y, k, dx, dy) == v
  {
    forall dx, dy | 0 <= dx < s && 0 <= dy < s
      ensures Sample(buf, s * tw, s * x, s * y, k, dx, dy) == v
    {
      OffsetInside(s, x, tw, dx);
      OffsetInside(s, y, th, dy);
      CellInBuffer(s * x + dx, s * y + dy, s * tw, s * th);
    }
  }

  /** Sample d of the block of pixel i lies within the s*n samples of a row. */
  lemma OffsetInside(s: int, i: int, n: int, d: int)
    requires 0 <= i < n && 0 <= d < s
    ensures 0 <= s * i + d < s * n
  {
    MulMonotone(i + 1, n, s);
    assert (i + 1) * s == s * i + s;
  }

  /** A sample buffer holding v in every byte (the cleared buffer holds 255)
      resolves to a target holding v in every byte. */
  lemma {:induction false} ResolvedConstant(buf: seq<Byte>, s: int, tw: int, th: int, v: Byte)
    requires s >= 1 && tw >= 0 && th >= 0
    requires |buf| == 4 * (s * tw) * (s * th) && forall p :: 0 <= p < |buf| ==> buf[p] == v
    ensures forall p :: 0 <= p < 4 * tw * th ==> Resolved(buf, s, tw, th)[p] == v
  {
    forall p | 0 <= p < 4 * tw * th
      ensures Resolved(buf, s, tw, th)[p] == v
    {
      CellOfByte(p, tw, th);
      BlockOfConstant(buf, s, tw, th, CellX(p, tw), CellY(p, tw), p % 4, v);
      ResolvedUniform(buf, s * tw, s, CellX(p, tw), CellY(p, tw), p % 4, v);
    }
  }
}
