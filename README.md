# pygame-sprites in Dafny

A model of `sprite.py`, the sprite layer of a small pygame extension. The
model covers:

- `Sprite`, whose visual properties go through a wrapper that marks the
  sprite dirty;
- `AggregatedSprite`, which forwards every visual change to its children
  and draws the union of what they draw;
- `AbstractGroup` / `Group`, containers that record, for every member, what
  its last draw returned and the regions of removed members that still have
  to be cleared.

Membership is two-sided. A group keeps `spritedict` (sprite to last drawn
region). A sprite keeps its own dictionary of groups. Every `add`,
`remove`, `kill` and `empty` keeps both sides in agreement.

Modules:

- `Geometry` (`geometry.dfy`): sizes, points, `Rect`, the stored region
  (`0` or a rectangle), and `Rect.union_ip` as a bounding box.
- `Visual` (`visual.dfy`): a sprite's visual attributes. Holds the raw
  property setters as the pure function `Apply`, `anchor_value`,
  `scaled_size` and the `rotate` normalisation. Also the image getter's
  effect (`Refreshed`) and what a plain sprite's `draw` returns (`LeafDraw`).
- `Items` (`items.dfy`): the arguments of `Group.add/remove/has`. A sprite,
  a nested iterable or a group is an explicit variant instead of the
  source's run-time probing. The module gives the set of sprites the
  arguments name, and the exact rule `has` decides by.
- `Scene` (`scene.dfy`): what drawing any sprite returns, as a function
  (`DrawOutcome`) of a snapshot of all sprites. An aggregate's result is the
  union of its children's results, seeded with `Rect(0, 0, 0, 0)`. The
  module also proves that the only state a draw changes never changes what
  a later draw returns.
- `Sprites` (`sprites.dfy`): the classes `Sprite` and `Group`, whose methods
  update their fields in place. They are proved against the functions
  above and against the membership invariant `Agree`.

Python's object identity is Dafny object identity. Iterating a dictionary
is a nondeterministic choice of the next key, and a ghost `order` records
the order actually taken. The graphics backend is a parameter: the size of
a rotated image and the rectangle `blit` returns. Nothing about it is
assumed.

## Model

| member | source | states |
|---|---|---|
| Geometry.Union | sprite.py:276-282 | `union_ip` yields a rectangle that contains both operands |
| Geometry.UnionIsLeast | sprite.py:276-282 | any rectangle containing both operands contains their union |
| Geometry.DrawnRects | sprite.py:324-328 | the rectangles kept from a list of stored regions are exactly the non-zero ones; the result is empty iff every region is 0 |
| Geometry.UnionAll | sprite.py:277-281 | the `union_ip` fold from a seed keeps the seed and every folded rectangle inside the result |
| Geometry.UnionAllIsLeast | sprite.py:276-282 | the fold is the least rectangle containing the seed and every folded rectangle |
| Geometry.UnionAllStep | sprite.py:279-281 | a 0 result leaves the running union unchanged; a rectangle is unioned in |
| Geometry.DrawnRectsConcat | sprite.py:324-328 | collecting non-zero regions distributes over concatenation, so lost regions accumulate in removal order |
| Visual.Apply | sprite.py:78-156 | the raw setters: scale raises (RatioNegative) exactly for a negative ratio and then changes nothing; 0 is accepted; rotate stores `degree % 360` in [0, 360); position is stored first, a None position touches nothing else, a position with no rect raises (RectMissing) and leaves `rect` as it was (None), otherwise the rect is moved so its anchor point lands on the position, size kept; image and visible are stored as given; every other attribute is unchanged |
| Visual.ApplyIdempotent | sprite.py:284-286 | running a raw setter twice with the same argument equals running it once, fault included |
| Visual.NormalizeDegrees | sprite.py:155-156 | Python's `degree % 360` is in [0, 360) and congruent to `degree`, also for negative degrees |
| Visual.Trunc | sprite.py:143-147 | Python's `int()` on a float truncates toward zero |
| Visual.ScaledSize | sprite.py:143-147 | `scaled_size()` is each side times the ratio, truncated: non-negative and within 1 below the exact product |
| Visual.Transformed | sprite.py:67-68 | the getter transforms only when scale is not 1 or rotate is not 0; skipping the scaling step at ratio 1 loses nothing, since `scaled_size()` is then the image's own size |
| Visual.Placed | sprite.py:87-112 | `rect.topleft = position - anchor_value()` keeps the size and puts the rect's anchor point (corner, centre or offset) at the position |
| Visual.AnchorValue | sprite.py:87-101 | `anchor_value()` is the offset from a rect's top-left corner to its anchor point, for every anchor and every rect of the given size |
| Visual.RenderedSize | sprite.py:61-76 | the getter returns None exactly when there is no image; the raw image when scale is 1 and rotate is 0; the scaled size when only the scale differs; with a rotation, the backend's rotation of the scaled image (or of the raw image at scale 1) |
| Visual.Refreshed | sprite.py:61-76 | the getter changes only `rect`; when it transforms, `rect` takes the rendered size and is re-placed on the anchor (at the origin when position is None); otherwise nothing changes |
| Visual.RefreshedIdempotent | sprite.py:61-76 | reading the image twice has the same effect as reading it once |
| Visual.LeafDraw | sprite.py:45-49 | `Sprite.draw` returns 0 when invisible; raises on a missing image, or on a missing rect the getter does not supply; otherwise returns what `blit` returns for the rendered image at the refreshed rect (the raw image at the stored rect when nothing is transformed) |
| Visual.LeafDrawAfterRefresh | sprite.py:45-76 | a plain sprite's draw result does not depend on whether its image was read before |
| Items.Holds | sprite.py:417-455 | `has` answers True iff every sprite the arguments name is a member and no argument, at any depth, is empty; so `has()` is False and True means something was checked |
| Scene.ChildOutcomes | sprite.py:277-281 | the loop over an aggregate's children: on success one result per child; an exception needs at least one child (which one is stated by `ChildOutcomesAt`) |
| Scene.ChildOutcomesAt | sprite.py:276-282 | an aggregate's child results line up with its children; an exception comes from some child; all succeed iff each child succeeds |
| Scene.AggregateUnion | sprite.py:276-282 | an aggregate's result contains `Rect(0, 0, 0, 0)` and every child's rectangle, and is the least rectangle that does |
| Scene.AggregateNothingDrawn | sprite.py:276-282 | when no child draws anything, an aggregate returns `Rect(0, 0, 0, 0)` |
| Scene.DrawOutcome | sprite.py:45-49 | `draw` returns 0 for an invisible plain sprite; any other sprite (a visible one, or an aggregate whatever its own `visible`) that does not raise returns a rectangle, never 0 |
| Scene.DrawEffect | sprite.py:61-76 | a draw changes a sprite only through the image getter of a visible plain sprite: its look becomes `Refreshed` and `dirty` is set exactly when it has an image and a scale or rotation; only `rect` and `dirty` can change; an aggregate or an invisible sprite is unchanged |
| Scene.OutcomeStable | sprite.py:45-76 | after any sequence of draws, every sprite, plain or aggregate, returns what it returned before |
| Scene.Tree | sprite.py:276-282 | the sprites a draw reaches: the sprite itself, and for an aggregate what its children's draws reach; all of them in the snapshot |
| Scene.TreeStable | sprite.py:45-76 | draws never change which sprites a later draw reaches |
| Scene.ExactlyTrans | sprite.py:61-76 | drawing a sprite again after it was drawn leaves it as one draw does, so a sprite reached twice (listed by two aggregates) ends as if reached once |
| Scene.ChildOutcomesStep | sprite.py:278-281 | drawing one more child appends its result or ends with its exception |
| Sprites.ListsCard | sprite.py:526-534 | a list holding each member once is as long as the member set is large |
| Sprites.LostAppend | sprite.py:324-328 | the lost regions of two removal runs concatenate |
| Sprites.RemovalTrans | sprite.py:399-415 | two removal runs in a row are one removal run over both orders: kept entries unchanged, each removed member listed once, its non-zero region appended once |
| Sprites.RemovalOne | sprite.py:324-328 | removing one member is a removal run of that member |
| Sprites.GrownTrans | sprite.py:358-383 | two add runs in a row are one add run: old entries keep their regions, new ones start at 0 |
| Sprites.Sprite.constructor | sprite.py:27-43 | a new sprite has no image, rect or position, anchor top-left, scale 1, rotate 0, visible, and is dirty; it is in exactly the argument groups, each recording it with no region, and agreement holds |
| Sprites.Sprite.Set | sprite.py:52-59 | the wrapper: the raw setter's result; on a raise nothing else happens; otherwise dirty is set and an aggregate runs the raw setter (not the wrapper) on each child in order, stopping at the first raise; children are not marked dirty, and children not reached are untouched |
| Sprites.Sprite.Forward | sprite.py:284-286 | `on_visual_set`: the raw setter runs on each child in order; children reached take the change, the others are untouched; with no raise every child was reached, otherwise the error is that of the last child reached and all earlier children did not raise |
| Sprites.Sprite.Image | sprite.py:61-76 | the getter returns the rendered image and leaves the look `Refreshed`; it goes through the wrapper (sets dirty, forwards the position to children) only when it transforms; children other than the sprite itself then take the position in order, and the getter raises the position error of the first child whose setter raises, if any |
| Sprites.Sprite.AddSprite | sprite.py:269-270 | appends the child to the aggregate's list |
| Sprites.Sprite.Draw | sprite.py:45-49 | the draw result is `DrawOutcome` of the state before the call; no sprite outside `Tree` (this sprite and, for an aggregate, everything below it) changes, and those in it show their `DrawEffect` or nothing; a draw that returns has given every sprite of `Tree` exactly its `DrawEffect` |
| Sprites.Sprite.DrawPlain | sprite.py:45-49 | `Sprite.draw` against `DrawOutcome`; the new state is the old one with exactly this sprite's `DrawEffect` (the getter's refreshed `rect` and `dirty`), every other sprite unchanged |
| Sprites.Sprite.DrawAggregate | sprite.py:276-282 | `AggregatedSprite.draw` (its own `visible` not consulted) against `DrawOutcome`; only sprites of its `Tree` change, and when it returns, every one of them shows exactly its `DrawEffect` |
| Sprites.Sprite.DrawIn | sprite.py:479-481 | one sprite's draw inside a longer run over the sprites `all`, judged against the state as the run began: its result is that state's `DrawOutcome`; no sprite outside its own `Tree` changes; the run so far stays within the `Forest` of `all`; when it returns, exactly the `Forest` of the sprites drawn so far shows its `DrawEffect` |
| Sprites.Sprite.Add | sprite.py:162-178 | the sprite joins every group the arguments mention; a new group records it with no region, a group it was already in keeps its region; agreement holds |
| Sprites.Sprite.AddArg | sprite.py:172-178 | one argument of `add`: the sprite joins each group it names (a nested iterable recursively) that it is not in, with region 0; groups it was already in are untouched; agreement holds |
| Sprites.Sprite.Enter | sprite.py:174-176 | `group.add_internal(self)` then `self.add_internal(group)` keep agreement |
| Sprites.Sprite.Remove | sprite.py:180-196 | the sprite leaves every mentioned group it is in; each such group appends its non-zero region once; other groups are untouched; agreement holds |
| Sprites.Sprite.RemoveArg | sprite.py:190-196 | one argument of `remove`: the sprite leaves each named group it is in, which appends its non-zero region once; named groups it is not in are untouched; agreement holds |
| Sprites.Sprite.Quit | sprite.py:192-194 | `group.remove_internal(self)` then `self.remove_internal(group)` keep agreement and append the region once |
| Sprites.Sprite.AddInternal | sprite.py:198-199 | the group is added to the sprite's groups |
| Sprites.Sprite.RemoveInternal | sprite.py:201-202 | the group is deleted from the sprite's groups |
| Sprites.Sprite.Kill | sprite.py:219-232 | the sprite is in no group afterwards; each former group drops it and appends its non-zero region once; only group bookkeeping is in the frame, so the visual state is untouched; agreement holds |
| Sprites.Sprite.Groups | sprite.py:234-242 | lists each group holding the sprite exactly once; under agreement, a group is listed iff its dictionary holds the sprite |
| Sprites.Sprite.Alive | sprite.py:244-251 | True iff the sprite is in some group, on either side of the agreement |
| Sprites.Group.constructor | sprite.py:559-561 | `Group(*sprites)` holds exactly the sprites the arguments name, each with no region and no lost regions; exactly those sprites gain the group; agreement holds |
| Sprites.Group.AddInternal | sprite.py:321-322 | records the sprite with region 0 |
| Sprites.Group.RemoveInternal | sprite.py:324-328 | deletes the sprite and appends its region to the lost list iff it is non-zero |
| Sprites.Group.Join | sprite.py:362-365 | `add_internal` on both sides keeps agreement |
| Sprites.Group.Leave | sprite.py:400-403 | `remove_internal` on both sides keeps agreement and appends the region once |
| Sprites.Group.AddMembers | sprite.py:366-370 | adding the sprites of a group argument adds exactly those, keeping existing regions |
| Sprites.Group.Add | sprite.py:350-383 | the members grow by exactly the sprites the arguments name; existing members keep their region, new ones start at 0, so adding again changes nothing; agreement holds; other groups are unchanged |
| Sprites.Group.AddItems | sprite.py:358-383 | the argument loop of `add`, with a group argument naming its members when reached |
| Sprites.Group.AddArg | sprite.py:358-383 | one argument of `add`: the members grow by exactly the sprites it names, existing regions kept, new ones at 0; no sprite's membership in other groups changes; agreement holds |
| Sprites.Group.RemoveMembers | sprite.py:404-406 | removing the sprites of a group argument removes exactly the members among them, each region recorded once |
| Sprites.Group.Remove | sprite.py:385-415 | the members shrink by exactly the named sprites; kept members keep their region; the removed ones are listed once each, and their non-zero regions are appended in that order; agreement holds |
| Sprites.Group.RemoveItems | sprite.py:399-415 | the argument loop of `remove` |
| Sprites.Group.RemoveArg | sprite.py:399-415 | one argument of `remove`: the members shrink by exactly the sprites it names, as one removal run; no sprite's membership in other groups changes; agreement holds |
| Sprites.Group.Empty | sprite.py:511-521 | no member is left, every former member leaves the group on its side too, and the non-zero regions are recorded as lost |
| Sprites.Group.Has | sprite.py:417-455 | the answer is `Holds` of the arguments (see `Items.Holds`) |
| Sprites.Group.HasArg | sprite.py:420-453 | one argument of `has`, including a group that answers False when it is empty |
| Sprites.Group.Members | sprite.py:308-319 | `sprites()` lists each member exactly once |
| Sprites.Group.Len | sprite.py:526-534 | `len(group)` is the number of members |
| Sprites.Group.Copy | sprite.py:333-342 | the copy is a new group holding the same members with no region; every member also joins the copy; agreement holds with the copy included |
| Sprites.Group.Draw | sprite.py:469-484 | with no exception, every member's entry becomes its draw result (`DrawOutcome`), the lost list is emptied, and exactly the sprites of the members' `Forest` show their `DrawEffect`; on an exception, some member raised it, the lost list is kept, entries already drawn are updated, and no sprite outside the `Forest` has changed |
| Sprites.Group.DrawMembers | sprite.py:477-483 | the loop of `draw`: same keys, each entry either kept or replaced by the member's draw result; only sprites of the members' `Forest` change, all of them to their `DrawEffect` when no member raises |
| Sprites.Group.Clear | sprite.py:486-509 | paints every lost region first, in order, then every non-zero recorded region, each member once; the state is unchanged |

## Left out

- Duck typing: the model's sprites are all `Sprite` instances, and a group argument is always a group. So `Group.add/remove/has` never take the `except (TypeError, AttributeError)` branches for old-style groups or non-Sprite sprites. `Group.draw` never takes the `hasattr(spr, 'draw')` fallback.
- A `Sprite` passed to `Sprite.add` or `Sprite.remove` raises TypeError in Python. The argument type `GroupArg` does not admit it.
- An anchor outside the five constants or a tuple: `anchor_value` returns None, and the position setter then raises. The `Anchor` datatype does not admit such a value.
- `ANCHOR_CENTER` halves width and height with `/`. Under Python 2 that is integer division; under Python 3 it gives a float. The model uses integer division, which is Python's floor division `//`.
- Scale is a real number, not an IEEE float. Rotation is an integer number of degrees.
- Pixels: `pygame.transform.scale/rotate` and `Surface.blit` appear only through their sizes and returned rectangles (`Backend`). The painting that `clear` does is the list of areas it paints.
- `rect` is a value. A program that keeps a reference to a sprite's `rect` and mutates it is not modelled.
- `Sprite.update` and `Group.update`: the base `update` hook does nothing, so `Group.update` changes no modelled state. Subclass overrides are outside the model.
- `__repr__`, `__iter__`, `__contains__` (which is `has`), `__nonzero__`, the `sprites` property setter of `AggregatedSprite`, and the aliases `RenderPlain`/`RenderClear` are not modelled.
- Dictionary iteration order: the order in which members are drawn, painted or removed by `empty` is a nondeterministic choice. The ghost `order` records the order taken. The contracts hold for every order.
- A cycle of aggregates (an aggregate among its own descendants) makes `draw` recurse until Python raises RecursionError, unless a child drawn earlier raises first; `Group.draw` passes either error on with some entries already updated. `Sprite.Draw` and `Group.Draw` require a ranking of the aggregate tree, which excludes both cases; neither is modelled. `Sprite.Set` needs no such ranking: it only touches direct children.
- Sprites.Group.Draw: the source writes each member's entry as soon as that member is drawn. The model collects the entries and writes the dictionary once after the loop, or once at the first exception. The resulting state is the same.
- Sprites.Group.Clear: whether `bgd` is a callback or a surface does not change which areas are painted, so the two branches are one.
- In two places the source's behaviour differs from its own text, and the model follows the behaviour:
  - a scale of 0 is accepted (only a negative ratio raises), although the error message at sprite.py:135 asks for a positive ratio;
  - `empty()` goes through `remove_internal` and so records the members' drawn regions as lost, which its docstring at sprite.py:512-516 does not mention.
