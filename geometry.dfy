/** Integer rectangles with OpenCV's `cv::Rect` conventions: an origin (x, y) and a
    size (width, height); the right edge is x + width and the bottom edge y + height,
    both exclusive. `|` is the bounding union and `&` the intersection. */
module Geometry {

  datatype Rect = Rect(x: int, y: int, width: int, height: int) {

    function Right(): int { x + width }

    function Bottom(): int { y + height }

    function Area(): int { width * height }

    predicate WellFormed() { width >= 0 && height >= 0 }

    /** The pixel (px, py) is covered by this rectangle. */
    predicate Covers(px: int, py: int) {
      x <= px < Right() && y <= py < Bottom()
    }

    /** This rectangle lies inside `outer`. */
    predicate Within(outer: Rect) {
      outer.x <= x && outer.y <= y && Right() <= outer.Right() && Bottom() <= outer.Bottom()
    }
  }

  function Min(a: int, b: int): int { if a <= b then a else b }

  function Max(a: int, b: int): int { if a <= b then b else a }

  function Abs(a: int): int { if a < 0 then -a else a }

  /** C++ integer division by two, which truncates toward zero. */
  function HalfTowardZero(a: int): (r: int)
    ensures 2 * Abs(r) <= Abs(a) <= 2 * Abs(r) + 1
    ensures a >= 0 ==> 0 <= r && r == a / 2
    ensures a < 0 ==> r <= 0
  {
    if a >= 0 then a / 2 else -((-a) / 2)
  }

  /** `a | b`: the smallest rectangle that contains both. */
  function Union(a: Rect, b: Rect): (r: Rect)
    ensures a.WellFormed() && b.WellFormed() ==> r.WellFormed() && a.Within(r) && b.Within(r)
    ensures forall c: Rect :: a.Within(c) && b.Within(c) ==> r.Within(c)
  {
    var x := Min(a.x, b.x);
    var y := Min(a.y, b.y);
    Rect(x, y, Max(a.Right(), b.Right()) - x, Max(a.Bottom(), b.Bottom()) - y)
  }

  /** The rectangle with no pixels, which `&` yields for disjoint arguments. */
  const Empty := Rect(0, 0, 0, 0)

  /** `a & b`: the pixels covered by both, or the empty rectangle. */
  function Intersect(a: Rect, b: Rect): (r: Rect)
    ensures r.WellFormed()
    ensures forall px, py :: r.Covers(px, py) <==> a.Covers(px, py) && b.Covers(px, py)
    ensures r.Area() > 0 ==> r.Within(a) && r.Within(b)
    ensures r.Area() == 0 ==> r == Empty
  {
    var x := Max(a.x, b.x);
    var y := Max(a.y, b.y);
    var w := Min(a.Right(), b.Right()) - x;
    var h := Min(a.Bottom(), b.Bottom()) - y;
    if w <= 0 || h <= 0 then Empty else Rect(x, y, w, h)
  }

  /** The overlap of a box with one it lies inside is the inner box itself. */
  lemma InnerOverlap(a: Rect, b: Rect)
    requires a.width > 0 && a.height > 0 && a.Within(b)
    ensures Intersect(a, b) == a
  {
    assert Max(a.x, b.x) == a.x && Max(a.y, b.y) == a.y;
    assert Min(a.Right(), b.Right()) == a.Right() && Min(a.Bottom(), b.Bottom()) == a.Bottom();
  }

  lemma UnionAssociative(a: Rect, b: Rect, c: Rect)
    ensures Union(Union(a, b), c) == Union(a, Union(b, c))
  {
  }

  lemma IntersectCommutative(a: Rect, b: Rect)
    ensures Intersect(a, b) == Intersect(b, a)
  {
  }

  /** Products of non-negative factors grow with each factor. */
  lemma MulMonotonic(a: int, b: int, c: int, d: int)
    requires 0 <= a <= c && 0 <= b <= d
    ensures a * b <= c * d
  {
    assert a * b <= c * b;
    assert c * b <= c * d;
  }

  /** The intersection never covers more area than either operand. */
  lemma IntersectAreaAtMost(a: Rect, b: Rect)
    requires b.WellFormed()
    ensures 0 <= Intersect(a, b).Area() <= b.Area()
  {
    var r := Intersect(a, b);
    if r.Area() > 0 {
      MulMonotonic(r.width, r.height, b.width, b.height);
    }
  }

  /** Shrinking one operand of `&` never enlarges the intersection's area. */
  lemma IntersectAreaMonotonic(a: Rect, b: Rect, p: Rect)
    requires a.WellFormed() && a.Within(p)
    ensures Intersect(a, b).Area() <= Intersect(p, b).Area()
  {
    var r, s := Intersect(a, b), Intersect(p, b);
    if r != Empty {
      IntersectSides(a, b, p);
      MulMonotonic(r.width, r.height, s.width, s.height);
    }
  }

  /** A non-empty intersection with the inner rectangle has sides no longer than
      the intersection with the outer one. */
  lemma IntersectSides(a: Rect, b: Rect, p: Rect)
    requires a.Within(p) && Intersect(a, b) != Empty
    ensures 0 < Intersect(a, b).width <= Intersect(p, b).width
    ensures 0 < Intersect(a, b).height <= Intersect(p, b).height
  {
    var w := Min(a.Right(), b.Right()) - Max(a.x, b.x);
    var h := Min(a.Bottom(), b.Bottom()) - Max(a.y, b.y);
    assert w > 0 && h > 0;
    assert Min(p.Right(), b.Right()) - Max(p.x, b.x) >= w;
    assert Min(p.Bottom(), b.Bottom()) - Max(p.y, b.y) >= h;
  }
}
