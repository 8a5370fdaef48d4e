/** Colours as points in RGB space, and the lowest-index nearest centre of a point. */
module Colors {

  datatype Color = Color(r: real, g: real, b: real)

  const BLACK := Color(0.0, 0.0, 0.0)

  /** Squared Euclidean distance. */
  function Dist2(a: Color, b: Color): (d: real)
    ensures if a == b then d == 0.0 else d > 0.0
  {
    Square(a.r - b.r) + Square(a.g - b.g) + Square(a.b - b.b)
  }

  /** Products go through a function of two arguments so that the solver never meets a bare square. */
  function Mul(x: real, y: real): (p: real)
    ensures x > 0.0 && y > 0.0 ==> p > 0.0
    ensures x < 0.0 && y < 0.0 ==> p > 0.0
    ensures x == 0.0 || y == 0.0 ==> p == 0.0
  {
    x * y
  }

  function Square(x: real): (s: real)
    ensures if x == 0.0 then s == 0.0 else s > 0.0
  {
    Mul(x, x)
  }

  /** The distance between two colours is made up of the squares of what the channels differ by. */
  lemma DistOfChannels(c: Color, dr: real, dg: real, db: real)
    ensures Dist2(c, Color(c.r + dr, c.g + dg, c.b + db)) == dr * dr + dg * dg + db * db
  {
    SquareOfNegated(dr);
    SquareOfNegated(dg);
    SquareOfNegated(db);
    assert c.r - (c.r + dr) == -dr && c.g - (c.g + dg) == -dg && c.b - (c.b + db) == -db;
    hide Square;
  }

  lemma SquareOfNegated(x: real)
    ensures Square(-x) == x * x
  {
  }

  /** The nearest centre; among equally near ones, the one with the lowest index. */
  function Nearest(p: Color, centers: seq<Color>): (best: nat)
    requires centers != []
    ensures best < |centers|
  {
    var last := |centers| - 1;
    if last == 0 then 0
    else
      var best := Nearest(p, centers[..last]);
      if Dist2(p, centers[last]) < Dist2(p, centers[best]) then last else best
  }

  lemma {:induction false} NearestIsLeast(p: Color, centers: seq<Color>)
    requires centers != []
    ensures var best := Nearest(p, centers);
            && (forall c :: 0 <= c < |centers| ==> Dist2(p, centers[best]) <= Dist2(p, centers[c]))
            && (forall c :: 0 <= c < best ==> Dist2(p, centers[best]) < Dist2(p, centers[c]))
  {
    hide Dist2;
    var last := |centers| - 1;
    if last > 0 {
      NearestIsLeast(p, centers[..last]);
      assert centers == centers[..last] + [centers[last]];
    }
  }

  /** The squared distance from a point to the nearest of some centres. */
  function NearestDist(p: Color, centers: seq<Color>): (d: real)
    requires centers != []
    ensures d >= 0.0
  {
    Dist2(p, centers[Nearest(p, centers)])
  }

  lemma NearestDistIsLeast(p: Color, centers: seq<Color>)
    requires centers != []
    ensures forall c :: c in centers ==> NearestDist(p, centers) <= Dist2(p, c)
    ensures exists c :: c in centers && NearestDist(p, centers) == Dist2(p, c)
    ensures NearestDist(p, centers) == 0.0 <==> p in centers
  {
    NearestIsLeast(p, centers);
    assert centers[Nearest(p, centers)] in centers;
  }

  lemma NearestDistExtend(p: Color, centers: seq<Color>, c: Color)
    requires centers != []
    ensures NearestDist(p, centers + [c]) ==
            if Dist2(p, c) < NearestDist(p, centers) then Dist2(p, c) else NearestDist(p, centers)
  {
    assert (centers + [c])[..|centers|] == centers;
  }
}
