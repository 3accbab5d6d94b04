/** Shared vocabulary: bytes, optional values and the integer facts about
    row-major, four-bytes-per-cell layouts that every buffer in the renderer uses. */
module Common {

  /** An unsigned 8-bit channel value, as stored in every byte buffer. */
  type Byte = b: int | 0 <= b < 256

  datatype Option<T> = None | Some(value: T)

  function Abs(x: int): (r: nat)
    ensures r == x || r == -x
  {
    if x < 0 then -x else x
  }

  function Min(a: int, b: int): (r: int)
    ensures r <= a && r <= b && (r == a || r == b)
  {
    if a <= b then a else b
  }

  function Max(a: int, b: int): (r: int)
    ensures r >= a && r >= b && (r == a || r == b)
  {
    if a >= b then a else b
  }

  /** Division is characterised by its quotient bracket. */
  lemma DivUnique(n: int, d: int, q: int)
    requires d > 0
    requires q * d <= n < q * d + d
    ensures n / d == q && n % d == n - q * d
  {
    var r := n / d;
    assert (r - q) * d == r * d - q * d;
    BelowOne(r - q, d);
    AboveMinusOne(r - q, d);
  }

  lemma BelowOne(a: int, d: int)
    requires d > 0 && a * d < d
    ensures a < 1
  {
  }

  lemma AboveMinusOne(a: int, d: int)
    requires d > 0 && a * d > -d
    ensures a > -1
  {
  }

  lemma MulMonotone(a: int, b: int, d: int)
    requires a <= b && d >= 0
    ensures a * d <= b * d
  {
    assert b * d - a * d == (b - a) * d;
  }

  /** lo * d <= total <= hi * d gives lo <= total / d <= hi. */
  lemma DivBetween(total: int, d: int, lo: int, hi: int)
    requires d >= 1 && lo * d <= total <= hi * d
    ensures lo <= total / d <= hi
  {
    var q := total / d;
    assert q * d <= total < q * d + d;
    if q < lo {
      MulMonotone(q + 1, lo, d);
    }
    if q > hi {
      MulMonotone(hi + 1, q, d);
    }
  }

  /** k * d <= total gives k <= total / d. */
  lemma DivAtLeast(total: int, d: int, k: int)
    requires d >= 1 && k * d <= total
    ensures k <= total / d
  {
    var q := total / d;
    assert q * d <= total < q * d + d;
    if q < k {
      MulMonotone(q + 1, k, d);
    }
  }

  /** The byte offset of cell (x, y) in a row-major buffer of width w. */
  function CellBase(x: int, y: int, w: int): int
  {
    4 * (x + y * w)
  }

  /** The column of the cell that byte p belongs to. */
  function CellX(p: int, w: int): int
    requires w > 0
  {
    (p / 4) % w
  }

  /** The row of the cell that byte p belongs to. */
  function CellY(p: int, w: int): int
    requires w > 0
  {
    (p / 4) / w
  }

  /** Byte k of cell (x, y) of a buffer of width w; 0 for a cell outside the buffer. */
  function CellByte(buf: seq<Byte>, x: int, y: int, w: int, k: int): Byte
  {
    var p := CellBase(x, y, w) + k;
    if 0 <= p < |buf| then buf[p] else 0
  }

  /** Byte k of cell (x, y) is attributed back to cell (x, y) and channel k. */
  lemma CellOfBase(x: int, y: int, w: int, k: int)
    requires 0 <= x < w && 0 <= y && 0 <= k < 4
    ensures CellX(CellBase(x, y, w) + k, w) == x
    ensures CellY(CellBase(x, y, w) + k, w) == y
    ensures (CellBase(x, y, w) + k) % 4 == k
  {
    var q := x + y * w;
    DivUnique(4 * q + k, 4, q);
    DivUnique(q, w, y);
  }

  /** Every byte of a 4*w*h buffer belongs to a cell inside [0,w) x [0,h),
      and is byte p % 4 of that cell. */
  lemma CellOfByte(p: int, w: int, h: int)
    requires w > 0 && 0 <= p < 4 * w * h
    ensures 0 <= CellX(p, w) < w && 0 <= CellY(p, w) < h
    ensures p == CellBase(CellX(p, w), CellY(p, w), w) + p % 4
  {
    var q := p / 4;
    assert q < w * h;
    var y := q / w;
    assert y * w <= q;
    BelowOne(y - h + 1, w);
  }

  /** Every byte of a cell inside [0,w) x [0,h) lies in a 4*w*h buffer. */
  lemma CellInBuffer(x: int, y: int, w: int, h: int)
    requires 0 <= x < w && 0 <= y < h
    ensures 0 <= CellBase(x, y, w) && CellBase(x, y, w) + 3 < 4 * w * h
  {
    MulMonotone(y + 1, h, w);
    assert (y + 1) * w == y * w + w;
  }

  lemma MulNonneg(x: real, y: real)
    requires x >= 0.0 && y >= 0.0
    ensures x * y >= 0.0
  {
  }

  lemma MulAtMost(x: real, y: real)
    requires x >= 0.0 && y <= 1.0
    ensures x * y <= x
  {
    MulNonneg(x, 1.0 - y);
    assert x * (1.0 - y) == x - x * y;
  }
}
