/** The coverage test and the column scan of the triangle rasterizer.
    A sample is "lit" when the cross products of the three edge vectors with the
    vectors to the sample satisfy ea*eb >= 0 and ec*eb >= 0; the scan walks the
    subsample grid of the bounding box column by column and leaves a column at
    the first unlit sample after a lit one. Coordinates are exact reals. */
module Triangle {
  import opened Common

  datatype Vec = Vec(x: real, y: real)

  /** A triangle with vertices a, b and c in the order the caller passed them. */
  datatype Tri = Tri(a: Vec, b: Vec, c: Vec)

  /** cross(q - p, r - p): positive when r lies to the left of the directed edge p -> q. */
  function Edge(p: Vec, q: Vec, r: Vec): real
  {
    (q.x - p.x) * (r.y - p.y) - (q.y - p.y) * (r.x - p.x)
  }

  /** The coverage test: with ea, eb, ec the cross products along a->b, b->c and
      c->a, a point is lit when ea*eb >= 0 and ec*eb >= 0. */
  predicate Lit(t: Tri, p: Vec)
  {
    SameSide(Edge(t.a, t.b, p), Edge(t.b, t.c, p), Edge(t.c, t.a, p))
  }

  predicate SameSide(ea: real, eb: real, ec: real)
  {
    ea * eb >= 0.0 && ec * eb >= 0.0
  }

  /** The test the scan is meant to apply: the three cross products agree in
      sign, a zero agreeing with either sign. For a non-degenerate triangle this
      is the closed triangle (InsideIsClosed). */
  predicate Inside(t: Tri, p: Vec)
  {
    NonnegEdges(t, p) || NonposEdges(t, p)
  }

  predicate NonnegEdges(t: Tri, p: Vec)
  {
    Edge(t.a, t.b, p) >= 0.0 && Edge(t.b, t.c, p) >= 0.0 && Edge(t.c, t.a, p) >= 0.0
  }

  predicate NonposEdges(t: Tri, p: Vec)
  {
    Edge(t.a, t.b, p) <= 0.0 && Edge(t.b, t.c, p) <= 0.0 && Edge(t.c, t.a, p) <= 0.0
  }

  /** Which test the scan applies: the rasterizer's Lit, or the intended Inside. */
  datatype Coverage = LitTest | InsideTest

  predicate Covers(rule: Coverage, t: Tri, p: Vec)
  {
    match rule
    case LitTest => Lit(t, p)
    case InsideTest => Inside(t, p)
  }

  /** Twice the signed area of the triangle. */
  function Area2(t: Tri): real
  {
    Edge(t.a, t.b, t.c)
  }

  /** The point lies in the closed triangle: on the same side of every edge as
      the opposite vertex, or on the edge. */
  predicate InsideClosed(t: Tri, p: Vec)
  {
    Edge(t.a, t.b, p) * Area2(t) >= 0.0 &&
    Edge(t.b, t.c, p) * Area2(t) >= 0.0 &&
    Edge(t.c, t.a, p) * Area2(t) >= 0.0
  }

  /** The point lies on the infinite line through b and c. */
  predicate OnLineBC(t: Tri, p: Vec)
  {
    Edge(t.b, t.c, p) == 0.0
  }

  lemma EdgeSum(t: Tri, p: Vec)
    ensures Edge(t.a, t.b, p) + Edge(t.b, t.c, p) + Edge(t.c, t.a, p) == Area2(t)
  {
  }

  lemma EdgeReversed(p: Vec, q: Vec, r: Vec)
    ensures Edge(q, p, r) == -Edge(p, q, r)
  {
  }

  /** Listing the vertices in the opposite winding, a, c, b, gives the same test:
      the test does not depend on the triangle's orientation. */
  lemma LitReversedWinding(t: Tri, p: Vec)
    ensures Lit(Tri(t.a, t.c, t.b), p) == Lit(t, p)
  {
    EdgeReversed(t.a, t.c, p);
    EdgeReversed(t.c, t.b, p);
    EdgeReversed(t.b, t.a, p);
    var ea, eb, ec := Edge(t.a, t.b, p), Edge(t.b, t.c, p), Edge(t.c, t.a, p);
    assert (-ec) * (-eb) == ec * eb;
    assert (-ea) * (-eb) == ea * eb;
  }

  /** For a non-degenerate triangle the test lights exactly the closed triangle
      together with the whole line through b and c. */
  lemma {:induction false} LitCharacterised(t: Tri, p: Vec)
    requires Area2(t) != 0.0
    ensures Lit(t, p) <==> InsideClosed(t, p) || OnLineBC(t, p)
  {
    EdgeSum(t, p);
    var ea, eb, ec, d := Edge(t.a, t.b, p), Edge(t.b, t.c, p), Edge(t.c, t.a, p), Area2(t);
    if eb > 0.0 {
      SignsAgree(ea, eb, ec, d);
    } else if eb < 0.0 {
      SignsAgree(-ea, -eb, -ec, -d);
      assert (-ea) * (-eb) == ea * eb && (-ec) * (-eb) == ec * eb;
      assert (-ea) * (-d) == ea * d && (-eb) * (-d) == eb * d && (-ec) * (-d) == ec * d;
    }
  }

  /** With eb > 0 and ea + eb + ec == d: ea*eb, ec*eb >= 0 exactly when the three
      cross products agree in sign with d. */
  lemma SignsAgree(ea: real, eb: real, ec: real, d: real)
    requires eb > 0.0 && d != 0.0 && ea + eb + ec == d
    ensures (ea * eb >= 0.0 && ec * eb >= 0.0) <==> (ea * d >= 0.0 && eb * d >= 0.0 && ec * d >= 0.0)
  {
    if ea * eb >= 0.0 && ec * eb >= 0.0 {
      NonnegFactor(ea, eb);
      NonnegFactor(ec, eb);
      MulNonneg(ea, d);
      MulNonneg(eb, d);
      MulNonneg(ec, d);
    }
    if ea * d >= 0.0 && eb * d >= 0.0 && ec * d >= 0.0 {
      NonnegFactor(d, eb);
      NonnegFactor(ea, d);
      NonnegFactor(ec, d);
      MulNonneg(ea, eb);
      MulNonneg(ec, eb);
    }
  }

  lemma NonnegFactor(x: real, y: real)
    requires y > 0.0 && (x * y >= 0.0 || y * x >= 0.0)
    ensures x >= 0.0
  {
  }

  /** Every point of the line through b and c passes the test. */
  lemma LitOnLineBC(t: Tri, p: Vec)
    requires OnLineBC(t, p)
    ensures Lit(t, p)
  {
  }

  /** A point of the line through b and c that lies beyond b or beyond c (ea and
      ec of opposite signs) is outside the triangle, yet lit. */
  lemma {:induction false} LitOutsideTriangle(t: Tri, p: Vec)
    requires Area2(t) != 0.0
    requires OnLineBC(t, p) && Edge(t.a, t.b, p) * Edge(t.c, t.a, p) < 0.0
    ensures Lit(t, p) && !InsideClosed(t, p)
  {
    EdgeSum(t, p);
    var ea, ec, d := Edge(t.a, t.b, p), Edge(t.c, t.a, p), Area2(t);
    if ea < 0.0 {
      NegativeProduct(ea, ec);
      OppositeSigns(ea, ec, d);
    } else {
      NegativeProduct(ec, ea);
      OppositeSigns(ec, ea, d);
    }
  }

  lemma NegativeProduct(x: real, y: real)
    requires x < 0.0 && (x * y < 0.0 || y * x < 0.0)
    ensures y > 0.0
  {
  }

  lemma NegTimesPos(x: real, y: real)
    requires x < 0.0 && y > 0.0
    ensures x * y < 0.0 && y * x < 0.0
  {
  }

  lemma OppositeSigns(x: real, y: real, d: real)
    requires x < 0.0 && y > 0.0 && x + y == d && d != 0.0
    ensures x * d < 0.0 || y * d < 0.0
  {
    if d > 0.0 {
      NegTimesPos(x, d);
    } else {
      NegTimesPos(d, y);
    }
  }

  /** Listing the same triangle from b (as b, c, a) makes the line through c and a
      the lit one: the point of the previous lemma is no longer lit. */
  lemma LitDependsOnFirstVertex(t: Tri, p: Vec)
    requires OnLineBC(t, p) && Edge(t.a, t.b, p) * Edge(t.c, t.a, p) < 0.0
    ensures Lit(t, p) && !Lit(Tri(t.b, t.c, t.a), p)
  {
    var ea, ec := Edge(t.a, t.b, p), Edge(t.c, t.a, p);
    assert ec * ea < 0.0;
  }

  // The intended test.

  /** x*d >= 0 says x >= 0 when d > 0. */
  lemma ProductSign(x: real, d: real)
    requires d > 0.0
    ensures x * d >= 0.0 <==> x >= 0.0
  {
    if x >= 0.0 {
      MulNonneg(x, d);
    }
    if x * d >= 0.0 {
      NonnegFactor(x, d);
    }
  }

  /** For a non-degenerate triangle Inside is exactly the closed triangle. */
  lemma {:induction false} InsideIsClosed(t: Tri, p: Vec)
    requires Area2(t) != 0.0
    ensures Inside(t, p) <==> InsideClosed(t, p)
  {
    EdgeSum(t, p);
    var ea, eb, ec, d := Edge(t.a, t.b, p), Edge(t.b, t.c, p), Edge(t.c, t.a, p), Area2(t);
    if d > 0.0 {
      ProductSign(ea, d);
      ProductSign(eb, d);
      ProductSign(ec, d);
    } else {
      ProductSign(-ea, -d);
      ProductSign(-eb, -d);
      ProductSign(-ec, -d);
      assert (-ea) * (-d) == ea * d && (-eb) * (-d) == eb * d && (-ec) * (-d) == ec * d;
    }
  }

  /** Every point the intended test accepts is lit; for a non-degenerate
      triangle the rasterizer's test adds exactly the points of the line
      through b and c. */
  lemma {:induction false} InsideIsLit(t: Tri, p: Vec)
    ensures Inside(t, p) ==> Lit(t, p)
    ensures Area2(t) != 0.0 ==> (Lit(t, p) <==> Inside(t, p) || OnLineBC(t, p))
  {
    var ea, eb, ec := Edge(t.a, t.b, p), Edge(t.b, t.c, p), Edge(t.c, t.a, p);
    if NonnegEdges(t, p) {
      MulNonneg(ea, eb);
      MulNonneg(ec, eb);
    } else if NonposEdges(t, p) {
      MulNonneg(-ea, -eb);
      MulNonneg(-ec, -eb);
      assert (-ea) * (-eb) == ea * eb && (-ec) * (-eb) == ec * eb;
    }
    if Area2(t) != 0.0 {
      LitCharacterised(t, p);
      InsideIsClosed(t, p);
    }
  }

  /** Either test is unchanged when the vertices are listed as a, c, b. */
  lemma CoversReversedWinding(rule: Coverage, t: Tri, p: Vec)
    ensures Covers(rule, Tri(t.a, t.c, t.b), p) == Covers(rule, t, p)
  {
    if rule == LitTest {
      LitReversedWinding(t, p);
    } else {
      EdgeReversed(t.a, t.c, p);
      EdgeReversed(t.c, t.b, p);
      EdgeReversed(t.b, t.a, p);
    }
  }

  /** Along a vertical line a cross product changes in proportion to the height. */
  lemma EdgeAlongColumn(p: Vec, q: Vec, r0: Vec, r1: Vec)
    requires r0.x == r1.x
    ensures Edge(p, q, r1) - Edge(p, q, r0) == (q.x - p.x) * (r1.y - r0.y)
  {
  }

  /** A quantity that grows in proportion to the height, non-negative at two
      heights, is non-negative between them. */
  lemma AffineBetween(k: real, y0: real, y1: real, y2: real, g0: real, g1: real, g2: real)
    requires y0 <= y1 <= y2 && g0 >= 0.0 && g2 >= 0.0
    requires g1 - g0 == k * (y1 - y0) && g2 - g1 == k * (y2 - y1)
    ensures g1 >= 0.0
  {
    if k >= 0.0 {
      MulNonneg(k, y1 - y0);
    } else {
      var d := y2 - y1;
      MulNonneg(-k, d);
      assert (-k) * d == -(k * d);
      assert g2 - g1 == k * d;
    }
  }

  /** A cross product non-negative at two points of a vertical line is
      non-negative between them. */
  lemma EdgeBetween(p: Vec, q: Vec, r0: Vec, r1: Vec, r2: Vec)
    requires r0.x == r1.x == r2.x && r0.y <= r1.y <= r2.y
    requires Edge(p, q, r0) >= 0.0 && Edge(p, q, r2) >= 0.0
    ensures Edge(p, q, r1) >= 0.0
  {
    EdgeAlongColumn(p, q, r0, r1);
    EdgeAlongColumn(p, q, r1, r2);
    AffineBetween(q.x - p.x, r0.y, r1.y, r2.y, Edge(p, q, r0), Edge(p, q, r1), Edge(p, q, r2));
  }

  /** The same for a cross product non-positive at both points. */
  lemma EdgeBetweenNonpos(p: Vec, q: Vec, r0: Vec, r1: Vec, r2: Vec)
    requires r0.x == r1.x == r2.x && r0.y <= r1.y <= r2.y
    requires Edge(p, q, r0) <= 0.0 && Edge(p, q, r2) <= 0.0
    ensures Edge(p, q, r1) <= 0.0
  {
    EdgeReversed(p, q, r0);
    EdgeReversed(p, q, r1);
    EdgeReversed(p, q, r2);
    EdgeBetween(q, p, r0, r1, r2);
  }

  /** The points of a vertical line that pass the intended test form one
      interval: between two accepted points every point is accepted. */
  lemma {:induction false} InsideColumnConvex(t: Tri, r0: Vec, r1: Vec, r2: Vec)
    requires r0.x == r1.x == r2.x && r0.y <= r1.y <= r2.y
    requires Inside(t, r0) && Inside(t, r2)
    ensures Inside(t, r1)
  {
    EdgeSum(t, r0);
    EdgeSum(t, r2);
    if NonnegEdges(t, r0) && NonposEdges(t, r2) {
      assert NonnegEdges(t, r2);
    }
    if NonposEdges(t, r0) && NonnegEdges(t, r2) {
      assert NonnegEdges(t, r0);
    }
    if NonnegEdges(t, r0) && NonnegEdges(t, r2) {
      EdgeBetween(t.a, t.b, r0, r1, r2);
      EdgeBetween(t.b, t.c, r0, r1, r2);
      EdgeBetween(t.c, t.a, r0, r1, r2);
    } else {
      EdgeBetweenNonpos(t.a, t.b, r0, r1, r2);
      EdgeBetweenNonpos(t.b, t.c, r0, r1, r2);
      EdgeBetweenNonpos(t.c, t.a, r0, r1, r2);
    }
  }

  /** The triangle a = (10,10), b = (0,0), c = (4,2) meets the vertical line x = 8
      in the single point (8,8) of edge a-b, and the line through b and c crosses
      it at (8,4): of the integer rows of column 8 exactly these two are lit. */
  lemma ColumnEightLit(t: Tri, ky: int)
    requires t == Tri(Vec(10.0, 10.0), Vec(0.0, 0.0), Vec(4.0, 2.0))
    ensures Lit(t, Vec(8.0, ky as real)) <==> ky == 4 || ky == 8
  {
    var y := ky as real;
    assert Edge(t.a, t.b, Vec(8.0, y)) == 80.0 - 10.0 * y;
    assert Edge(t.b, t.c, Vec(8.0, y)) == 4.0 * y - 16.0;
    assert Edge(t.c, t.a, Vec(8.0, y)) == 6.0 * y - 44.0;
  }

  // The scan of the subsample grid.

  /** 1 / (2 * sample_rate) in integer arithmetic: the offset meant to move the
      candidate to the subsample's centre. */
  function HalfStep(s: int): int
    requires s >= 1
  {
    1 / (2 * s)
  }

  /** The centre offset is always zero, so the candidate is the subsample's corner. */
  lemma HalfStepIsZero(s: int)
    requires s >= 1
    ensures HalfStep(s) == 0
  {
  }

  /** The point tested for subsample (kx, ky) of the bounding box whose corner is
      (xmin, ymin), at sample rate s. */
  function Candidate(xmin: int, ymin: int, s: int, kx: int, ky: int): Vec
    requires s >= 1
  {
    Vec(xmin as real + kx as real / s as real + HalfStep(s) as real,
        ymin as real + ky as real / s as real + HalfStep(s) as real)
  }

  /** At one sample per pixel the candidate of subsample (kx, ky) is the integer
      point (xmin + kx, ymin + ky). */
  lemma CandidateAtUnitRate(xmin: int, ymin: int, kx: int, ky: int)
    ensures Candidate(xmin, ymin, 1, kx, ky) == Vec((xmin + kx) as real, (ymin + ky) as real)
  {
  }

  lemma DivMonotone(a: real, b: real, d: real)
    requires a <= b && d > 0.0
    ensures a / d <= b / d
  {
    assert b / d - a / d == (b - a) / d;
  }

  /** The candidates of one column share their x and rise with the row. */
  lemma CandidateColumn(xmin: int, ymin: int, s: int, kx: int, k0: int, k1: int)
    requires s >= 1 && k0 <= k1
    ensures Candidate(xmin, ymin, s, kx, k0).x == Candidate(xmin, ymin, s, kx, k1).x
    ensures Candidate(xmin, ymin, s, kx, k0).y <= Candidate(xmin, ymin, s, kx, k1).y
  {
    DivMonotone(k0 as real, k1 as real, s as real);
  }

  /** At one sample per pixel subsample (kx, ky) is tested at the integer
      point (xmin + kx, ymin + ky). */
  lemma SampleAtUnitRate(rule: Coverage, t: Tri, xmin: int, ymin: int, kx: int, ky: int)
    ensures LitSample(rule, t, xmin, ymin, 1, kx, ky) == Covers(rule, t, Vec((xmin + kx) as real, (ymin + ky) as real))
  {
    CandidateAtUnitRate(xmin, ymin, kx, ky);
  }

  /** Whether subsample (kx, ky) passes the test the scan applies. */
  predicate LitSample(rule: Coverage, t: Tri, xmin: int, ymin: int, s: int, kx: int, ky: int)
    requires s >= 1
  {
    Covers(rule, t, Candidate(xmin, ymin, s, kx, ky))
  }

  /** The rows ky in [k, last] that the scan of column kx fills, given whether it
      has already filled a row of this column: every lit row is filled, and the
      first unlit row after a filled one ends the column. */
  function ColumnRows(rule: Coverage, t: Tri, xmin: int, ymin: int, s: int, kx: int, k: int, last: int, filled: bool): seq<int>
    requires s >= 1
    decreases last + 1 - k
  {
    if k > last then []
    else if LitSample(rule, t, xmin, ymin, s, kx, k) then [k] + ColumnRows(rule, t, xmin, ymin, s, kx, k + 1, last, true)
    else if filled then []
    else ColumnRows(rule, t, xmin, ymin, s, kx, k + 1, last, false)
  }

  /** One step of the column scan at row k: the rows filled so far followed by
      the rows still to come is the whole column, before and after the step. */
  lemma ColumnRowsAdvance(rule: Coverage, t: Tri, xmin: int, ymin: int, s: int, kx: int, k: int, last: int, filled: bool,
                          done: seq<int>)
    requires s >= 1 && 0 <= k <= last
    requires ColumnRows(rule, t, xmin, ymin, s, kx, 0, last, false) == done + ColumnRows(rule, t, xmin, ymin, s, kx, k, last, filled)
    ensures LitSample(rule, t, xmin, ymin, s, kx, k) ==>
              ColumnRows(rule, t, xmin, ymin, s, kx, 0, last, false) == (done + [k]) + ColumnRows(rule, t, xmin, ymin, s, kx, k + 1, last, true)
    ensures !LitSample(rule, t, xmin, ymin, s, kx, k) && filled ==> ColumnRows(rule, t, xmin, ymin, s, kx, 0, last, false) == done
    ensures !LitSample(rule, t, xmin, ymin, s, kx, k) && !filled ==>
              ColumnRows(rule, t, xmin, ymin, s, kx, 0, last, false) == done + ColumnRows(rule, t, xmin, ymin, s, kx, k + 1, last, false)
  {
    if LitSample(rule, t, xmin, ymin, s, kx, k) {
      assert done + ([k] + ColumnRows(rule, t, xmin, ymin, s, kx, k + 1, last, true)) ==
             (done + [k]) + ColumnRows(rule, t, xmin, ymin, s, kx, k + 1, last, true);
    } else if filled {
      assert done + [] == done;
    }
  }

  /** Rows drawn from [k, last], all lit, in strictly increasing order. */
  predicate LitRowsIn(rows: seq<int>, rule: Coverage, t: Tri, xmin: int, ymin: int, s: int, kx: int, k: int, last: int)
    requires s >= 1
  {
    (forall i :: 0 <= i < |rows| ==> k <= rows[i] <= last && LitSample(rule, t, xmin, ymin, s, kx, rows[i])) &&
    (forall i, j :: 0 <= i < j < |rows| ==> rows[i] < rows[j])
  }

  /** The scan fills only lit rows of the range, each once and in increasing order. */
  lemma {:induction false} ColumnRowsSound(rule: Coverage, t: Tri, xmin: int, ymin: int, s: int, kx: int, k: int, last: int, filled: bool)
    requires s >= 1
    ensures LitRowsIn(ColumnRows(rule, t, xmin, ymin, s, kx, k, last, filled), rule, t, xmin, ymin, s, kx, k, last)
    decreases last + 1 - k
  {
    var rows := ColumnRows(rule, t, xmin, ymin, s, kx, k, last, filled);
    if k <= last {
      if LitSample(rule, t, xmin, ymin, s, kx, k) {
        ColumnRowsSound(rule, t, xmin, ymin, s, kx, k + 1, last, true);
        var rest := ColumnRows(rule, t, xmin, ymin, s, kx, k + 1, last, true);
        assert rows == [k] + rest;
        forall i | 0 <= i < |rows|
          ensures k <= rows[i] <= last && LitSample(rule, t, xmin, ymin, s, kx, rows[i])
        {
          if i > 0 {
            assert rows[i] == rest[i - 1];
          }
        }
        forall i, j | 0 <= i < j < |rows|
          ensures rows[i] < rows[j]
        {
          assert rows[j] == rest[j - 1];
          if i > 0 {
            assert rows[i] == rest[i - 1];
          }
        }
      } else if !filled {
        ColumnRowsSound(rule, t, xmin, ymin, s, kx, k + 1, last, false);
        assert rows == ColumnRows(rule, t, xmin, ymin, s, kx, k + 1, last, false);
      }
    }
  }

  /** Inside a run of lit rows starting at k, the scan fills every row of the run. */
  lemma {:induction false} ColumnRowsRun(rule: Coverage, t: Tri, xmin: int, ymin: int, s: int, kx: int, k: int, last: int, filled: bool, r: int)
    requires s >= 1 && k <= r <= last
    requires forall m :: k <= m <= r ==> LitSample(rule, t, xmin, ymin, s, kx, m)
    ensures r in ColumnRows(rule, t, xmin, ymin, s, kx, k, last, filled)
    decreases r - k
  {
    if k < r {
      ColumnRowsRun(rule, t, xmin, ymin, s, kx, k + 1, last, true, r);
    }
  }

  /** When the lit rows of the column form one contiguous run, the scan fills
      every lit row: the early exit is safe exactly for such columns. */
  lemma {:induction false} ColumnRowsComplete(rule: Coverage, t: Tri, xmin: int, ymin: int, s: int, kx: int, k: int, last: int, r: int)
    requires s >= 1 && k <= r <= last && LitSample(rule, t, xmin, ymin, s, kx, r)
    requires forall i, m, j ::
               (k <= i <= m <= j <= last && LitSample(rule, t, xmin, ymin, s, kx, i) && LitSample(rule, t, xmin, ymin, s, kx, j)) ==>
               LitSample(rule, t, xmin, ymin, s, kx, m)
    ensures r in ColumnRows(rule, t, xmin, ymin, s, kx, k, last, false)
    decreases r - k
  {
    if LitSample(rule, t, xmin, ymin, s, kx, k) {
      ColumnRowsRun(rule, t, xmin, ymin, s, kx, k, last, false, r);
    } else {
      ColumnRowsComplete(rule, t, xmin, ymin, s, kx, k + 1, last, r);
    }
  }

  /** The cells the scan of column kx fills: subsample (kx, ky) is cell
      (xmin*s + kx, ymin*s + ky) of the sample buffer. */
  function ColumnCells(rule: Coverage, t: Tri, xmin: int, ymin: int, s: int, kx: int, last: int): (cells: seq<(int, int)>)
    requires s >= 1
  {
    RowCells(xmin * s + kx, ymin * s, ColumnRows(rule, t, xmin, ymin, s, kx, 0, last, false))
  }

  /** Cells (x, y0 + ky) for the rows ky listed. */
  function RowCells(x: int, y0: int, rows: seq<int>): (cells: seq<(int, int)>)
  {
    seq(|rows|, i requires 0 <= i < |rows| => (x, y0 + rows[i]))
  }

  /** The cells filled by the scan of columns 0 .. columns-1, in order. */
  function ScanCells(rule: Coverage, t: Tri, xmin: int, ymin: int, s: int, columns: nat, last: int): seq<(int, int)>
    requires s >= 1
  {
    if columns == 0 then []
    else ScanCells(rule, t, xmin, ymin, s, columns - 1, last) + ColumnCells(rule, t, xmin, ymin, s, columns - 1, last)
  }

  /** Every cell is a lit subsample (kx, ky) of the first `columns` columns and
      the rows 0 .. last, at cell (xmin*s + kx, ymin*s + ky). */
  predicate LitCellsIn(cells: seq<(int, int)>, rule: Coverage, t: Tri, xmin: int, ymin: int, s: int, columns: int, last: int)
    requires s >= 1
  {
    forall i :: 0 <= i < |cells| ==>
      0 <= cells[i].0 - xmin * s < columns && 0 <= cells[i].1 - ymin * s <= last &&
      LitSample(rule, t, xmin, ymin, s, cells[i].0 - xmin * s, cells[i].1 - ymin * s)
  }

  /** Every filled cell is a lit subsample of the grid. */
  lemma {:induction false} ScanCellsSound(rule: Coverage, t: Tri, xmin: int, ymin: int, s: int, columns: nat, last: int)
    requires s >= 1
    ensures LitCellsIn(ScanCells(rule, t, xmin, ymin, s, columns, last), rule, t, xmin, ymin, s, columns, last)
  {
    if columns > 0 {
      ScanCellsSound(rule, t, xmin, ymin, s, columns - 1, last);
      ColumnRowsSound(rule, t, xmin, ymin, s, columns - 1, 0, last, false);
      var prev := ScanCells(rule, t, xmin, ymin, s, columns - 1, last);
      var col := ColumnCells(rule, t, xmin, ymin, s, columns - 1, last);
      var rows := ColumnRows(rule, t, xmin, ymin, s, columns - 1, 0, last, false);
      var cells := ScanCells(rule, t, xmin, ymin, s, columns, last);
      assert cells == prev + col;
      forall i | 0 <= i < |cells|
        ensures 0 <= cells[i].0 - xmin * s < columns && 0 <= cells[i].1 - ymin * s <= last &&
                LitSample(rule, t, xmin, ymin, s, cells[i].0 - xmin * s, cells[i].1 - ymin * s)
      {
        if i >= |prev| {
          assert cells[i] == col[i - |prev|] == (xmin * s + (columns - 1), ymin * s + rows[i - |prev|]);
        } else {
          assert cells[i] == prev[i];
        }
      }
    }
  }

  /** A filled cell of column kx comes from the scan of that column. */
  lemma {:induction false} ScanCellsByColumn(rule: Coverage, t: Tri, xmin: int, ymin: int, s: int, columns: nat, last: int)
    requires s >= 1
    ensures forall cell, kx ::
              (cell in ScanCells(rule, t, xmin, ymin, s, columns, last) && 0 <= kx < columns && cell.0 == xmin * s + kx) ==>
              cell in ColumnCells(rule, t, xmin, ymin, s, kx, last)
  {
    if columns > 0 {
      ScanCellsSound(rule, t, xmin, ymin, s, columns - 1, last);
      ScanCellsByColumn(rule, t, xmin, ymin, s, columns - 1, last);
      var prev := ScanCells(rule, t, xmin, ymin, s, columns - 1, last);
      var col := ColumnCells(rule, t, xmin, ymin, s, columns - 1, last);
      var cells := ScanCells(rule, t, xmin, ymin, s, columns, last);
      assert cells == prev + col;
      forall cell, kx | cell in cells && 0 <= kx < columns && cell.0 == xmin * s + kx
        ensures cell in ColumnCells(rule, t, xmin, ymin, s, kx, last)
      {
        if cell !in col {
          assert cell in prev;
          var i :| 0 <= i < |prev| && prev[i] == cell;
          assert kx < columns - 1;
        }
      }
    }
  }

  /** Reversing the winding (a, c, b) changes no row of a column's scan. */
  lemma {:induction false} ColumnRowsReversed(rule: Coverage, t: Tri, xmin: int, ymin: int, s: int, kx: int, k: int, last: int, filled: bool)
    requires s >= 1
    ensures ColumnRows(rule, Tri(t.a, t.c, t.b), xmin, ymin, s, kx, k, last, filled) ==
            ColumnRows(rule, t, xmin, ymin, s, kx, k, last, filled)
    decreases last + 1 - k
  {
    if k <= last {
      CoversReversedWinding(rule, t, Candidate(xmin, ymin, s, kx, k));
      ColumnRowsReversed(rule, t, xmin, ymin, s, kx, k + 1, last, true);
      ColumnRowsReversed(rule, t, xmin, ymin, s, kx, k + 1, last, false);
    }
  }

  /** Reversing the winding changes no cell of the scan. */
  lemma {:induction false} ScanCellsReversed(rule: Coverage, t: Tri, xmin: int, ymin: int, s: int, columns: nat, last: int)
    requires s >= 1
    ensures ScanCells(rule, Tri(t.a, t.c, t.b), xmin, ymin, s, columns, last) == ScanCells(rule, t, xmin, ymin, s, columns, last)
  {
    if columns > 0 {
      ScanCellsReversed(rule, t, xmin, ymin, s, columns - 1, last);
      ColumnRowsReversed(rule, t, xmin, ymin, s, columns - 1, 0, last, false);
    }
  }

  /** With the intended test the accepted rows of a column are contiguous, so
      the early exit of the scan is safe. */
  lemma InsideRowsContiguous(t: Tri, xmin: int, ymin: int, s: int, kx: int, last: int)
    requires s >= 1
    ensures forall i, m, j ::
              (0 <= i <= m <= j <= last && LitSample(InsideTest, t, xmin, ymin, s, kx, i) &&
               LitSample(InsideTest, t, xmin, ymin, s, kx, j)) ==>
              LitSample(InsideTest, t, xmin, ymin, s, kx, m)
  {
    forall i, m, j | 0 <= i <= m <= j <= last && LitSample(InsideTest, t, xmin, ymin, s, kx, i) &&
                     LitSample(InsideTest, t, xmin, ymin, s, kx, j)
      ensures LitSample(InsideTest, t, xmin, ymin, s, kx, m)
    {
      CandidateColumn(xmin, ymin, s, kx, i, m);
      CandidateColumn(xmin, ymin, s, kx, m, j);
      InsideColumnConvex(t, Candidate(xmin, ymin, s, kx, i), Candidate(xmin, ymin, s, kx, m), Candidate(xmin, ymin, s, kx, j));
    }
  }

  /** With the intended test every accepted row of a column is filled. */
  lemma InsideColumnComplete(t: Tri, xmin: int, ymin: int, s: int, kx: int, last: int, ky: int)
    requires s >= 1 && 0 <= ky <= last && LitSample(InsideTest, t, xmin, ymin, s, kx, ky)
    ensures ky in ColumnRows(InsideTest, t, xmin, ymin, s, kx, 0, last, false)
  {
    InsideRowsContiguous(t, xmin, ymin, s, kx, last);
    ColumnRowsComplete(InsideTest, t, xmin, ymin, s, kx, 0, last, ky);
  }

  /** With the intended test every accepted subsample of the grid is filled. */
  lemma {:induction false} InsideScanComplete(t: Tri, xmin: int, ymin: int, s: int, columns: nat, last: int, kx: int, ky: int)
    requires s >= 1 && 0 <= kx < columns && 0 <= ky <= last && LitSample(InsideTest, t, xmin, ymin, s, kx, ky)
    ensures (xmin * s + kx, ymin * s + ky) in ScanCells(InsideTest, t, xmin, ymin, s, columns, last)
  {
    var prev := ScanCells(InsideTest, t, xmin, ymin, s, columns - 1, last);
    var col := ColumnCells(InsideTest, t, xmin, ymin, s, columns - 1, last);
    assert ScanCells(InsideTest, t, xmin, ymin, s, columns, last) == prev + col;
    if kx == columns - 1 {
      InsideColumnComplete(t, xmin, ymin, s, kx, last, ky);
      var rows := ColumnRows(InsideTest, t, xmin, ymin, s, kx, 0, last, false);
      var i :| 0 <= i < |rows| && rows[i] == ky;
      assert col[i] == (xmin * s + kx, ymin * s + ky);
    } else {
      InsideScanComplete(t, xmin, ymin, s, columns - 1, last, kx, ky);
    }
  }

  /** With the intended test the scan fills a subsample of the grid exactly
      when that subsample passes the test. */
  lemma InsideScanExact(t: Tri, xmin: int, ymin: int, s: int, columns: nat, last: int, kx: int, ky: int)
    requires s >= 1 && 0 <= kx < columns && 0 <= ky <= last
    ensures (xmin * s + kx, ymin * s + ky) in ScanCells(InsideTest, t, xmin, ymin, s, columns, last) <==>
            LitSample(InsideTest, t, xmin, ymin, s, kx, ky)
  {
    var cells := ScanCells(InsideTest, t, xmin, ymin, s, columns, last);
    ScanCellsSound(InsideTest, t, xmin, ymin, s, columns, last);
    if (xmin * s + kx, ymin * s + ky) in cells {
      var i :| 0 <= i < |cells| && cells[i] == (xmin * s + kx, ymin * s + ky);
      assert cells[i].0 - xmin * s == kx && cells[i].1 - ymin * s == ky;
    }
    if LitSample(InsideTest, t, xmin, ymin, s, kx, ky) {
      InsideScanComplete(t, xmin, ymin, s, columns, last, kx, ky);
    }
  }

  /** The triangle a = (10,10), b = (0,0), c = (4,2) at one sample per pixel,
      scanned from the box corner (0,0): column 8 has the point (8,4) on the
      line through b and c lit and (8,5) unlit, so the scan fills row 4 alone
      and the unlit row 5 ends the column. */
  lemma ColumnEightRows(t: Tri, last: int)
    requires t == Tri(Vec(10.0, 10.0), Vec(0.0, 0.0), Vec(4.0, 2.0)) && last >= 5
    ensures ColumnRows(LitTest, t, 0, 0, 1, 8, 0, last, false) == [4]
  {
    forall ky | 0 <= ky <= 5
      ensures LitSample(LitTest, t, 0, 0, 1, 8, ky) <==> ky == 4
    {
      assert Candidate(0, 0, 1, 8, ky) == Vec(8.0, ky as real);
      ColumnEightLit(t, ky);
    }
    assert ColumnRows(LitTest, t, 0, 0, 1, 8, 5, last, true) == [];
    assert ColumnRows(LitTest, t, 0, 0, 1, 8, 4, last, false) == [4];
    assert ColumnRows(LitTest, t, 0, 0, 1, 8, 3, last, false) == [4];
    assert ColumnRows(LitTest, t, 0, 0, 1, 8, 2, last, false) == [4];
    assert ColumnRows(LitTest, t, 0, 0, 1, 8, 1, last, false) == [4];
  }

  /** Hence the scan of a box of that triangle never fills cell (8,8) ... */
  lemma ScanSkipsLitSample(t: Tri, columns: nat, last: int)
    requires t == Tri(Vec(10.0, 10.0), Vec(0.0, 0.0), Vec(4.0, 2.0)) && columns > 8 && last >= 8
    ensures (8, 8) !in ScanCells(LitTest, t, 0, 0, 1, columns, last)
  {
    ColumnEightRows(t, last);
    assert ColumnCells(LitTest, t, 0, 0, 1, 8, last) == [(8, 4)];
    ScanCellsByColumn(LitTest, t, 0, 0, 1, columns, last);
  }

  /** The cross products of the triangle (10,10), (0,0), (4,2) at (8,8), one
      edge at a time, and twice its area. */
  lemma EdgeABAtEight()
    ensures Edge(Vec(10.0, 10.0), Vec(0.0, 0.0), Vec(8.0, 8.0)) == 0.0
  {
  }

  lemma EdgeBCAtEight()
    ensures Edge(Vec(0.0, 0.0), Vec(4.0, 2.0), Vec(8.0, 8.0)) == 16.0
  {
  }

  lemma EdgeCAAtEight()
    ensures Edge(Vec(4.0, 2.0), Vec(10.0, 10.0), Vec(8.0, 8.0)) == 4.0
  {
  }

  lemma ExampleArea()
    ensures Edge(Vec(10.0, 10.0), Vec(0.0, 0.0), Vec(4.0, 2.0)) == 20.0
  {
  }

  /** The candidate point of that cell, (8,8) by CandidateAtUnitRate, passes
      the intended test ... */
  lemma SkippedSampleAccepted(t: Tri)
    requires t == Tri(Vec(10.0, 10.0), Vec(0.0, 0.0), Vec(4.0, 2.0))
    ensures Inside(t, Vec(8.0, 8.0))
  {
    EdgeABAtEight();
    EdgeBCAtEight();
    EdgeCAAtEight();
  }

  /** ... and the rasterizer's own test, and it lies in the closed triangle,
      on its edge from a to b. */
  lemma SkippedSampleInside(t: Tri)
    requires t == Tri(Vec(10.0, 10.0), Vec(0.0, 0.0), Vec(4.0, 2.0))
    ensures Lit(t, Vec(8.0, 8.0)) && InsideClosed(t, Vec(8.0, 8.0))
  {
    ColumnEightLit(t, 8);
    SkippedSampleAccepted(t);
    ExampleArea();
    InsideIsClosed(t, Vec(8.0, 8.0));
  }
}
