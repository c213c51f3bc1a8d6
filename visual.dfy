/**
 * The visual state of one sprite and the pure rules behind its property
 * setters, its anchor, its lazily transformed image and its own draw.
 */
module Visual {
  import opened Geometry

  datatype Option<T> = None | Some(value: T)

  /**
   * The exceptions the modelled code can raise.
   *  - RatioNegative: the scale setter refuses a ratio below zero (AttributeError).
   *  - RectMissing: a position is set, or a blit is asked for, while `rect` is None.
   *  - ImageMissing: a visible sprite is drawn while its image is None (blit raises).
   */
  datatype Fault = RatioNegative | RectMissing | ImageMissing

  datatype Result<T> = Ok(value: T) | Err(fault: Fault)

  /**
   * The anchor: one of the five named constants (101..105) or an explicit
   * `(x, y)` offset tuple.
   */
  datatype Anchor = TopLeft | TopRight | BottomLeft | BottomRight | Center | Offset(dx: int, dy: int)

  /**
   * The graphics backend the sprite layer calls but does not implement:
   * the size of `pygame.transform.rotate(img, degrees)` for an image of a
   * given size, and the rectangle `Surface.blit(img, rect)` returns.
   */
  datatype Backend = Backend(rotatedSize: (Size, int) -> Size, blit: (Size, Rect) -> Rect)

  /**
   * The attributes the visual setters and `draw` work on. `image` is the
   * raw image `_image`, known only by its size.
   */
  datatype Look = Look(
    image: Option<Size>,
    rect: Option<Rect>,
    anchor: Anchor,
    position: Option<Point>,
    scale: real,
    rotate: int,
    visible: bool)

  /** One raw property setter together with the value it is called with. */
  datatype Change =
    | SetImage(image: Option<Size>)
    | SetPosition(position: Option<Point>)
    | SetVisible(visible: bool)
    | SetScale(ratio: real)
    | SetRotate(degree: int)

  /** What a raw setter leaves behind, and the exception it raised, if any. */
  datatype Applied = Applied(look: Look, fault: Option<Fault>)

  /** `anchor_value()`: the anchor's offset from the top-left corner of a `w` by `h` rect. */
  function AnchorValue(a: Anchor, w: int, h: int): (off: Point)
    ensures forall x, y :: AnchorPoint(a, Rect(x, y, w, h)) == Point(x + off.x, y + off.y)
  {
    match a
    case TopLeft => Point(0, 0)
    case TopRight => Point(w, 0)
    case BottomLeft => Point(0, h)
    case BottomRight => Point(w, h)
    case Center => Point(w / 2, h / 2)
    case Offset(dx, dy) => Point(dx, dy)
  }

  /**
   * The point of `r` that an anchor designates, read off the rectangle's
   * edges: a corner, the middle, or an explicit offset from the top-left.
   */
  function AnchorPoint(a: Anchor, r: Rect): Point
  {
    match a
    case TopLeft => Point(r.x, r.y)
    case TopRight => Point(r.x + r.w, r.y)
    case BottomLeft => Point(r.x, r.y + r.h)
    case BottomRight => Point(r.x + r.w, r.y + r.h)
    case Center => Point(r.x + r.w / 2, r.y + r.h / 2)
    case Offset(dx, dy) => Point(r.x + dx, r.y + dy)
  }

  /**
   * `rect.topleft = (x - anchor_x, y - anchor_y)`: moves `r` so that its
   * anchor point lands on `p`; the size is kept.
   */
  function Placed(p: Point, a: Anchor, r: Rect): (q: Rect)
    ensures q.w == r.w && q.h == r.h
    ensures AnchorPoint(a, q) == p
  {
    var off := AnchorValue(a, r.w, r.h);
    Rect(p.x - off.x, p.y - off.y, r.w, r.h)
  }

  /** `degree % 360`, with Python's modulo: the result is in [0, 360) for any sign. */
  function NormalizeDegrees(degree: int): (r: int)
    ensures 0 <= r < 360
    ensures (degree - r) % 360 == 0
  {
    var r := degree % 360;
    assert degree == 360 * (degree / 360) + r;
    assert degree - r == 360 * (degree / 360);
    r
  }

  /** Python's `int(x)` on a float: truncation toward zero. */
  function Trunc(x: real): (r: int)
    ensures x >= 0.0 ==> 0 <= r && r as real <= x < r as real + 1.0
    ensures x < 0.0 ==> r <= 0 && r as real - 1.0 < x <= r as real
  {
    if x >= 0.0 then x.Floor else -((-x).Floor)
  }

  /** `scaled_size()`: the image size times the ratio, each side truncated toward zero. */
  function ScaledSize(s: Size, ratio: real): (r: Size)
    ensures s.w >= 0 && ratio >= 0.0 ==>
      0 <= r.w && r.w as real <= s.w as real * ratio < r.w as real + 1.0
    ensures s.h >= 0 && ratio >= 0.0 ==>
      0 <= r.h && r.h as real <= s.h as real * ratio < r.h as real + 1.0
  {
    Size(Trunc(s.w as real * ratio), Trunc(s.h as real * ratio))
  }

  /**
   * The image getter transforms (and re-derives `rect`) only when this
   * holds. Skipping the scaling step otherwise loses nothing: at ratio 1
   * `scaled_size()` is the image's own size.
   */
  predicate Transformed(v: Look)
    ensures !Transformed(v) ==> forall s: Size :: ScaledSize(s, v.scale) == s
  {
    v.scale != 1.0 || v.rotate != 0
  }

  /**
   * The size of the image the getter returns: the raw image, scaled first
   * (to `scaled_size()`) when the scale is not 1, then rotated when the
   * rotation is not 0.
   */
  function RenderedSize(v: Look, rotatedSize: (Size, int) -> Size): (r: Option<Size>)
    ensures r.None? <==> v.image.None?
    ensures v.image.Some? && !Transformed(v) ==> r == v.image
    ensures v.image.Some? && v.rotate == 0 && v.scale != 1.0 ==> r == Some(ScaledSize(v.image.value, v.scale))
    ensures v.image.Some? && v.rotate != 0 ==>
      r == Some(rotatedSize(if v.scale != 1.0 then ScaledSize(v.image.value, v.scale) else v.image.value, v.rotate))
  {
    match v.image
    case None => None
    case Some(raw) =>
      if !Transformed(v) then Some(raw)
      else
        var scaled := if v.scale != 1.0 then ScaledSize(raw, v.scale) else raw;
        Some(if v.rotate != 0 then rotatedSize(scaled, v.rotate) else scaled)
  }

  /**
   * The raw setters (`_set_image`, `_set_position`, `_set_visible`,
   * `_set_scale`, `_set_rotate`), without the wrapper. `_set_position`
   * stores the value before it touches `rect`, so a position set while
   * `rect` is None is kept even though the call raises.
   */
  function Apply(v: Look, c: Change): (o: Applied)
    ensures o.fault ==
      if c.SetScale? && c.ratio < 0.0 then Some(RatioNegative)
      else if c.SetPosition? && c.position.Some? && v.rect.None? then Some(RectMissing)
      else None
    ensures o.fault.Some? ==> o.look == v.(position := o.look.position)
    ensures c.SetScale? && c.ratio >= 0.0 ==> o.look.scale == c.ratio
    ensures c.SetRotate? ==> 0 <= o.look.rotate < 360 && (c.degree - o.look.rotate) % 360 == 0
    ensures c.SetPosition? ==> o.look.position == c.position
    ensures c.SetPosition? && c.position.Some? && v.rect.Some? ==>
      o.look.rect.Some? && AnchorPoint(v.anchor, o.look.rect.value) == c.position.value
      && o.look.rect.value.w == v.rect.value.w && o.look.rect.value.h == v.rect.value.h
    ensures c.SetPosition? && c.position.None? ==> o.look.rect == v.rect
    ensures !c.SetPosition? ==> o.look.rect == v.rect && o.look.position == v.position
    ensures c.SetImage? ==> o.look.image == c.image
    ensures !c.SetImage? ==> o.look.image == v.image
    ensures c.SetVisible? ==> o.look.visible == c.visible
    ensures !c.SetScale? ==> o.look.scale == v.scale
    ensures !c.SetRotate? ==> o.look.rotate == v.rotate
    ensures !c.SetVisible? ==> o.look.visible == v.visible
    ensures o.look.anchor == v.anchor
  {
    match c
    case SetImage(img) => Applied(v.(image := img), None)
    case SetPosition(p) =>
      var stored := v.(position := p);
      if p.None? then Applied(stored, None)
      else if v.rect.None? then Applied(stored, Some(RectMissing))
      else Applied(stored.(rect := Some(Placed(p.value, v.anchor, v.rect.value))), None)
    case SetVisible(b) => Applied(v.(visible := b), None)
    case SetScale(ratio) =>
      if ratio < 0.0 then Applied(v, Some(RatioNegative)) else Applied(v.(scale := ratio), None)
    case SetRotate(d) => Applied(v.(rotate := NormalizeDegrees(d)), None)
  }

  /**
   * Running a raw setter a second time with the same argument changes
   * nothing and raises exactly when the first run did; so it does not
   * matter if an aggregate lists a child twice, or lists itself.
   */
  lemma {:induction false} ApplyIdempotent(v: Look, c: Change)
    ensures Apply(Apply(v, c).look, c) == Apply(v, c)
  {
    match c
    case SetPosition(p) =>
      if p.Some? && v.rect.Some? {
        var q := Placed(p.value, v.anchor, v.rect.value);
        assert Placed(p.value, v.anchor, q) == q;
      }
    case SetRotate(d) =>
      var r := NormalizeDegrees(d);
      assert r % 360 == r;
    case _ =>
  }

  /**
   * The image getter's effect on the attributes: when it transforms the
   * image it sets `rect = img.get_rect()` (a rect at the origin sized like
   * the rendered image) and then runs `position = position`, which moves
   * that rect so its anchor lands on the position again.
   */
  function Refreshed(v: Look, rotatedSize: (Size, int) -> Size): (u: Look)
    ensures u.(rect := v.rect) == v
    ensures v.image.Some? && Transformed(v) ==>
      u.rect.Some? && u.rect.value.w == RenderedSize(v, rotatedSize).value.w
      && u.rect.value.h == RenderedSize(v, rotatedSize).value.h
      && (v.position.Some? ==> AnchorPoint(v.anchor, u.rect.value) == v.position.value)
      && (v.position.None? ==> u.rect.value.TopLeft() == Point(0, 0))
    ensures !(v.image.Some? && Transformed(v)) ==> u == v
  {
    if v.image.Some? && Transformed(v) then
      var s := RenderedSize(v, rotatedSize).value;
      Apply(v.(rect := Some(Rect(0, 0, s.w, s.h))), SetPosition(v.position)).look
    else v
  }

  /** Reading the image twice has the same effect as reading it once. */
  lemma RefreshedIdempotent(v: Look, rotatedSize: (Size, int) -> Size)
    ensures Refreshed(Refreshed(v, rotatedSize), rotatedSize) == Refreshed(v, rotatedSize)
  {
  }

  /**
   * `Sprite.draw`: 0 when invisible; otherwise the image is read (which may
   * re-derive `rect`) and blitted at `rect`, raising when either is None.
   */
  function LeafDraw(v: Look, b: Backend): (r: Result<Region>)
    ensures !v.visible ==> r == Ok(NoRegion)
    ensures v.visible && v.image.None? ==> r == Err(ImageMissing)
    ensures v.visible && v.image.Some? && v.rect.None? && !Transformed(v) ==> r == Err(RectMissing)
    ensures v.visible && r.Ok? ==> r.value.Drawn?
    ensures v.visible && v.image.Some? && Transformed(v) ==> r.Ok?
    ensures v.visible && v.image.Some? && v.rect.Some? && !Transformed(v) ==>
      r == Ok(Drawn(b.blit(v.image.value, v.rect.value)))
    ensures v.visible && v.image.Some? && Refreshed(v, b.rotatedSize).rect.Some? ==>
      r == Ok(Drawn(b.blit(RenderedSize(v, b.rotatedSize).value, Refreshed(v, b.rotatedSize).rect.value)))
  {
    if !v.visible then Ok(NoRegion)
    else
      var img := RenderedSize(v, b.rotatedSize);
      var after := Refreshed(v, b.rotatedSize);
      if img.None? then Err(ImageMissing)
      else if after.rect.None? then Err(RectMissing)
      else Ok(Drawn(b.blit(img.value, after.rect.value)))
  }

  /** Drawing does not depend on whether the image has already been read. */
  lemma LeafDrawAfterRefresh(v: Look, b: Backend)
    ensures LeafDraw(Refreshed(v, b.rotatedSize), b) == LeafDraw(v, b)
  {
    RefreshedIdempotent(v, b.rotatedSize);
  }
}
