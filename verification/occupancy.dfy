/**
 * Occupancy-grid construction (`src/panel/demo_panel.rs`): rectangle and
 * circle fills into a blocked-cell map, and the fixed "A*" stage preset.
 * Coordinates are exact reals; `floor` and `ceil` are exact.
 */
module Occupancy {
  import opened Position
  import opened Navigation

  function Ceil(r: real): (c: int)
    ensures c as real - 1.0 < r <= c as real
  {
    -((-r).Floor)
  }

  /** The cells `fill_lut_with_rectangle` covers: inclusive floor-bounded ranges. */
  predicate InRectangle(c: (int, int), x: real, y: real, width: real, height: real) {
    x.Floor <= c.0 <= (x + width).Floor && y.Floor <= c.1 <= (y + height).Floor
  }

  /** `fill_lut_with_rectangle`: marks every covered cell blocked and keeps every other entry. */
  method FillRectangle(lut: Lut, x: real, y: real, width: real, height: real) returns (r: Lut)
    ensures forall c :: c in r <==> c in lut || InRectangle(c, x, y, width, height)
    ensures forall c :: c in r ==> r[c] == (if InRectangle(c, x, y, width, height) then true else lut[c])
  {
    var minIx, maxIx := x.Floor, (x + width).Floor;
    var minIy, maxIy := y.Floor, (y + height).Floor;
    r := lut;
    var ix := minIx;
    while ix <= maxIx
      invariant minIx <= ix && (ix <= maxIx + 1 || ix == minIx)
      invariant forall c :: c in r <==> c in lut || (minIx <= c.0 < ix && minIy <= c.1 <= maxIy)
      invariant forall c :: c in r ==>
                  r[c] == (if minIx <= c.0 < ix && minIy <= c.1 <= maxIy then true else lut[c])
    {
      var iy := minIy;
      while iy <= maxIy
        invariant minIy <= iy && (iy <= maxIy + 1 || iy == minIy)
        invariant forall c :: c in r <==>
                    c in lut || (minIx <= c.0 < ix && minIy <= c.1 <= maxIy) || (c.0 == ix && minIy <= c.1 < iy)
        invariant forall c :: c in r ==>
                    r[c] == (if (minIx <= c.0 < ix && minIy <= c.1 <= maxIy) || (c.0 == ix && minIy <= c.1 < iy)
                             then true else lut[c])
      {
        r := r[(ix, iy) := true];
        iy := iy + 1;
      }
      ix := ix + 1;
    }
  }

  /** A zero height still covers one full row: the ranges are inclusive. */
  lemma RectangleZeroHeightRow(c: (int, int), x: real, y: real, width: real)
    ensures InRectangle(c, x, y, width, 0.0) <==> x.Floor <= c.0 <= (x + width).Floor && c.1 == y.Floor
  {
  }

  /** The corner `(px, py)` lies in the closed disc: squared distance, no square root. */
  predicate CornerWithin(px: real, py: real, cx: real, cy: real, r: real) {
    (px - cx) * (px - cx) + (py - cy) * (py - cy) <= r * r
  }

  /** The corner `(x + i, y + j)` of cell `(x, y)` lies in the disc. */
  predicate CornerIn(x: int, y: int, i: int, j: int, cx: real, cy: real, r: real) {
    CornerWithin(x as real + i as real, y as real + j as real, cx, cy, r)
  }

  /** `is_inside_circle`: one of the cell's four corners lies in the disc. */
  function IsInsideCircle(x: int, y: int, cx: real, cy: real, r: real): (b: bool)
    ensures b <==> exists i, j :: 0 <= i <= 1 && 0 <= j <= 1 && CornerIn(x, y, i, j, cx, cy, r)
  {
    assert CornerIn(x, y, 0, 0, cx, cy, r) == CornerWithin(x as real, y as real, cx, cy, r);
    assert CornerIn(x, y, 1, 0, cx, cy, r) == CornerWithin(x as real + 1.0, y as real, cx, cy, r);
    assert CornerIn(x, y, 0, 1, cx, cy, r) == CornerWithin(x as real, y as real + 1.0, cx, cy, r);
    assert CornerIn(x, y, 1, 1, cx, cy, r) == CornerWithin(x as real + 1.0, y as real + 1.0, cx, cy, r);
    || CornerWithin(x as real, y as real, cx, cy, r)
    || CornerWithin(x as real + 1.0, y as real, cx, cy, r)
    || CornerWithin(x as real, y as real + 1.0, cx, cy, r)
    || CornerWithin(x as real + 1.0, y as real + 1.0, cx, cy, r)
  }

  /** The bounding box `fill_lut_with_circle` scans. */
  predicate InCircleBox(c: (int, int), cx: real, cy: real, r: real) {
    (cx - r).Floor <= c.0 <= Ceil(cx + r) && (cy - r).Floor <= c.1 <= Ceil(cy + r)
  }

  /** `fill_lut_with_circle`: marks the cells of the box that pass the corner test, keeps every other entry. */
  method FillCircle(lut: Lut, cx: real, cy: real, r: real) returns (out: Lut)
    ensures forall c :: c in out <==> c in lut || (InCircleBox(c, cx, cy, r) && IsInsideCircle(c.0, c.1, cx, cy, r))
    ensures forall c :: c in out ==>
              out[c] == (if InCircleBox(c, cx, cy, r) && IsInsideCircle(c.0, c.1, cx, cy, r) then true else lut[c])
  {
    var minX, maxX := (cx - r).Floor, Ceil(cx + r);
    var minY, maxY := (cy - r).Floor, Ceil(cy + r);
    out := lut;
    var x := minX;
    while x <= maxX
      invariant minX <= x && (x <= maxX + 1 || x == minX)
      invariant forall c :: c in out <==>
                  c in lut || (minX <= c.0 < x && minY <= c.1 <= maxY && IsInsideCircle(c.0, c.1, cx, cy, r))
      invariant forall c :: c in out ==>
                  out[c] == (if minX <= c.0 < x && minY <= c.1 <= maxY && IsInsideCircle(c.0, c.1, cx, cy, r)
                             then true else lut[c])
    {
      var y := minY;
      while y <= maxY
        invariant minY <= y && (y <= maxY + 1 || y == minY)
        invariant forall c :: c in out <==>
                    || c in lut
                    || (minX <= c.0 < x && minY <= c.1 <= maxY && IsInsideCircle(c.0, c.1, cx, cy, r))
                    || (c.0 == x && minY <= c.1 < y && IsInsideCircle(c.0, c.1, cx, cy, r))
        invariant forall c :: c in out ==>
                    out[c] == (if || (minX <= c.0 < x && minY <= c.1 <= maxY && IsInsideCircle(c.0, c.1, cx, cy, r))
                                  || (c.0 == x && minY <= c.1 < y && IsInsideCircle(c.0, c.1, cx, cy, r))
                               then true else lut[c])
      {
        if IsInsideCircle(x, y, cx, cy, r) {
          out := out[(x, y) := true];
        }
        y := y + 1;
      }
      x := x + 1;
    }
  }

  lemma SquareBelow(a: real, r: real)
    requires r >= 0.0 && a * a < r * r
    ensures -r < a < r
  {
  }

  /** Widening the radius never unmarks a cell. */
  lemma CircleMonotone(x: int, y: int, cx: real, cy: real, r: real, r': real)
    requires r * r <= r' * r'
    ensures IsInsideCircle(x, y, cx, cy, r) ==> IsInsideCircle(x, y, cx, cy, r')
  {
  }

  /**
   * The scanned box loses nothing but tangencies: every cell with a corner
   * strictly inside the circle lies in the box, so the fill marks it.
   */
  lemma CircleBoxCoversStrictCorners(x: int, y: int, cx: real, cy: real, r: real, i: int, j: int)
    requires r >= 0.0 && 0 <= i <= 1 && 0 <= j <= 1
    requires (x as real + i as real - cx) * (x as real + i as real - cx)
           + (y as real + j as real - cy) * (y as real + j as real - cy) < r * r
    ensures InCircleBox((x, y), cx, cy, r) && IsInsideCircle(x, y, cx, cy, r)
  {
    var dx := x as real + i as real - cx;
    var dy := y as real + j as real - cy;
    assert dx * dx < r * r && dy * dy < r * r;
    SquareBelow(dx, r);
    SquareBelow(dy, r);
    assert (i == 0 && j == 0) || (i == 1 && j == 0) || (i == 0 && j == 1) || (i == 1 && j == 1);
  }

  /** A cell touching the disc only at one corner on the rim can fall outside the box and stay free. */
  lemma CircleBoxMissesTangentCorner()
    ensures IsInsideCircle(3, 0, 5.0, 0.0, 1.0)
    ensures !InCircleBox((3, 0), 5.0, 0.0, 1.0)
  {
    assert CornerWithin(4.0, 0.0, 5.0, 0.0, 1.0);
    assert (5.0 - 1.0).Floor == 4;
  }

  /** The cells of the "A*" stage: a vertical bar and two horizontal walls. */
  predicate InAStarStage(c: (int, int)) {
    || (39 <= c.0 <= 40 && 37 <= c.1 <= 49)
    || (30 <= c.0 <= 49 && c.1 == 40)
    || (30 <= c.0 <= 49 && c.1 == 49)
  }

  /**
   * `swap_to_a_star_stage`: clears the map, fills the three fixed
   * rectangles and hands the navigation mesh an equal copy.
   */
  method SwapToAStarStage(nav: NavMesh) returns (lut: Lut, nav': NavMesh)
    ensures forall c :: c in lut <==> InAStarStage(c)
    ensures forall c :: c in lut ==> lut[c]
    ensures nav'.spaceLut == lut && nav'.min == nav.min && nav'.max == nav.max
  {
    lut := map[];
    lut := FillRectangle(lut, 39.0, 37.0, 1.0, 12.0);
    lut := FillRectangle(lut, 30.0, 40.0, 19.0, 0.0);
    lut := FillRectangle(lut, 30.0, 49.0, 19.0, 0.0);
    nav' := SetSpaceLut(nav, lut);
  }
}
