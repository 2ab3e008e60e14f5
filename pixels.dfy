/** Colours and normalised positions, the two kinds of per-cell values that the
    partitioner produces and the assignment engine and renderer consume. */
module Pixels {

  /** An RGB value; in images the channels lie in [0, 1]. */
  datatype Color = Color(r: real, g: real, b: real)

  /** A (y, x) position; cell centres are normalised to the unit square. */
  datatype Pos = Pos(y: real, x: real)

  /** Channel 0, 1 or 2 (red, green, blue) of a colour. */
  function Channel(c: Color, ch: nat): real
    requires ch < 3
  {
    if ch == 0 then c.r else if ch == 1 then c.g else c.b
  }

  predicate InUnitCube(c: Color) {
    0.0 <= c.r <= 1.0 && 0.0 <= c.g <= 1.0 && 0.0 <= c.b <= 1.0
  }

  predicate InUnitSquare(p: Pos) {
    0.0 <= p.y <= 1.0 && 0.0 <= p.x <= 1.0
  }

  /** Squared Euclidean distance in RGB space. */
  function ColorDist(a: Color, b: Color): (d: real)
    ensures 0.0 <= d
    ensures a == b ==> d == 0.0
    ensures InUnitCube(a) && InUnitCube(b) ==> d <= 3.0
  {
    var dr, dg, db := a.r - b.r, a.g - b.g, a.b - b.b;
    SquareBounds(dr);
    SquareBounds(dg);
    SquareBounds(db);
    dr * dr + dg * dg + db * db
  }

  /** Squared Euclidean distance between two positions. */
  function PosDist(a: Pos, b: Pos): (d: real)
    ensures 0.0 <= d
    ensures a == b ==> d == 0.0
    ensures InUnitSquare(a) && InUnitSquare(b) ==> d <= 2.0
  {
    var dy, dx := a.y - b.y, a.x - b.x;
    SquareBounds(dy);
    SquareBounds(dx);
    dy * dy + dx * dx
  }

  lemma SquareBounds(d: real)
    ensures 0.0 <= d * d
    ensures -1.0 <= d <= 1.0 ==> d * d <= 1.0
  {
    if d < 0.0 {
      assert d * d == (-d) * (-d);
    }
    if 0.0 <= d <= 1.0 {
      assert d * d <= d * 1.0;
    } else if -1.0 <= d < 0.0 {
      assert (-d) * (-d) <= (-d) * 1.0;
    }
  }
}
