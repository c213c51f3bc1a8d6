/**
 * Screen geometry used by the sprite layer: image sizes, points, pygame-style
 * rectangles, and the region a group records for a sprite after drawing it.
 */
module Geometry {

  /** Pixel dimensions of an image (`Surface.get_size()`). */
  datatype Size = Size(w: int, h: int)

  /** A point or an offset on the screen. */
  datatype Point = Point(x: int, y: int)

  /** An axis-aligned rectangle: top-left corner plus width and height (`pygame.Rect`). */
  datatype Rect = Rect(x: int, y: int, w: int, h: int)
  {
    function TopLeft(): Point { Point(x, y) }
  }

  /** `pygame.Rect(0, 0, 0, 0)`, the seed an aggregate starts its union from. */
  const EmptyRect := Rect(0, 0, 0, 0)

  /**
   * What a group remembers about a member after a draw: the integer `0`
   * ("nothing drawn yet" / "drew nothing") or the rectangle the draw returned.
   */
  datatype Region = NoRegion | Drawn(rect: Rect)

  function Min(a: int, b: int): int { if a <= b then a else b }
  function Max(a: int, b: int): int { if a >= b then a else b }

  /** `inner` lies inside `outer` (edges included). */
  predicate Within(inner: Rect, outer: Rect)
  {
    && outer.x <= inner.x && inner.x + inner.w <= outer.x + outer.w
    && outer.y <= inner.y && inner.y + inner.h <= outer.y + outer.h
  }

  /**
   * `Rect.union_ip`: the bounding box of both rectangles. Like pygame, it
   * does not skip an empty rectangle, so a union seeded with
   * `Rect(0, 0, 0, 0)` always spans the origin.
   */
  function Union(a: Rect, b: Rect): (r: Rect)
    ensures Within(a, r) && Within(b, r)
  {
    var x := Min(a.x, b.x);
    var y := Min(a.y, b.y);
    Rect(x, y, Max(a.x + a.w, b.x + b.w) - x, Max(a.y + a.h, b.y + b.h) - y)
  }

  /** The union is the smallest rectangle holding both arguments. */
  lemma UnionIsLeast(a: Rect, b: Rect, q: Rect)
    requires Within(a, q) && Within(b, q)
    ensures Within(Union(a, b), q)
  {
  }

  /** The regions among `rs` that hold a rectangle, in order. */
  function DrawnRects(rs: seq<Region>): (out: seq<Rect>)
    ensures |out| <= |rs|
    ensures forall r :: r in out <==> Drawn(r) in rs
    ensures out == [] <==> forall i | 0 <= i < |rs| :: rs[i] == NoRegion
  {
    if rs == [] then []
    else
      var rest := DrawnRects(rs[..|rs| - 1]);
      assert forall r :: Drawn(r) in rs <==> Drawn(r) in rs[..|rs| - 1] || rs[|rs| - 1] == Drawn(r);
      match rs[|rs| - 1]
      case NoRegion => rest
      case Drawn(r) => rest + [r]
  }

  /**
   * Folds `Rect.union_ip` over `rects`, left to right, starting from `acc`;
   * the result keeps the seed and every folded rectangle inside it.
   */
  function UnionAll(acc: Rect, rects: seq<Rect>): (u: Rect)
    ensures Within(acc, u)
    ensures forall r :: r in rects ==> Within(r, u)
  {
    if rects == [] then acc
    else
      var init := rects[..|rects| - 1];
      assert forall r :: r in rects ==> r in init || r == rects[|rects| - 1];
      Union(UnionAll(acc, init), rects[|rects| - 1])
  }

  /** ... and it is the smallest such rectangle. */
  lemma {:induction false} UnionAllIsLeast(acc: Rect, rects: seq<Rect>, q: Rect)
    requires Within(acc, q)
    requires forall r :: r in rects ==> Within(r, q)
    ensures Within(UnionAll(acc, rects), q)
  {
    if rects != [] {
      var init := rects[..|rects| - 1];
      assert forall r :: r in init ==> r in rects;
      UnionAllIsLeast(acc, init, q);
      UnionIsLeast(UnionAll(acc, init), rects[|rects| - 1], q);
    }
  }

  /** One more region: a drawn one is folded into the union, a 0 leaves it as it was. */
  lemma UnionAllStep(acc: Rect, rs: seq<Region>, x: Region)
    ensures UnionAll(acc, DrawnRects(rs + [x])) ==
      if x.Drawn? then Union(UnionAll(acc, DrawnRects(rs)), x.rect) else UnionAll(acc, DrawnRects(rs))
  {
    assert (rs + [x])[..|rs + [x]| - 1] == rs;
  }

  /** Collecting drawn rectangles distributes over concatenation. */
  lemma {:induction false} DrawnRectsConcat(a: seq<Region>, b: seq<Region>)
    ensures DrawnRects(a + b) == DrawnRects(a) + DrawnRects(b)
  {
    if b != [] {
      var init := b[..|b| - 1];
      DrawnRectsConcat(a, init);
      assert (a + b)[..|a + b| - 1] == a + init;
    } else {
      assert a + b == a;
    }
  }
}
