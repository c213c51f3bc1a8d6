/**
 * `Sprite` (with `AggregatedSprite` folded in as a flag) and `Group`
 * (`AbstractGroup` and its one concrete subclass): the two-sided
 * membership bookkeeping, the visual-change wrapper, drawing and clearing.
 */
module Sprites {
  import opened Geometry
  import opened Visual
  import opened Items
  import opened Scene

  /**
   * The sprites and groups a program has created so far. It only serves
   * to state the invariant that both sides of the membership relation agree.
   */
  datatype Universe = Universe(sprites: set<Sprite>, groups: set<Group>)

  /**
   * The membership invariant: a group holds a sprite in its `spritedict`
   * exactly when the sprite holds the group in its own group dictionary,
   * and neither side refers outside the universe.
   */
  ghost predicate Agree(w: Universe)
    reads w.sprites`groups, w.groups`spritedict
  {
    && (forall g | g in w.groups :: g.spritedict.Keys <= w.sprites)
    && (forall s | s in w.sprites :: s.groups <= w.groups)
    && (forall g, s | g in w.groups && s in w.sprites :: s in g.spritedict <==> g in s.groups)
  }

  /** The current members of each group in `gs`. */
  function KeysOf(gs: set<Group>): (k: map<Group, set<Sprite>>)
    reads gs`spritedict
    ensures k.Keys == gs
  {
    map g | g in gs :: g.spritedict.Keys
  }

  /** Everything drawing reads, for every sprite in `u`. */
  ghost function SceneOf(u: set<Sprite>): (m: map<Sprite, Node<Sprite>>)
    reads u`look, u`dirty, u`sprites
    ensures m.Keys == u
  {
    map s | s in u :: Node(s.aggregated, s.sprites, s.look, s.dirty)
  }

  /** The regions `d` records for `order`, in that order. */
  function RegionsOf(d: map<Sprite, Region>, order: seq<Sprite>): (rs: seq<Region>)
    requires forall s | s in order :: s in d
    ensures |rs| == |order| && forall i | 0 <= i < |order| :: rs[i] == d[order[i]]
  {
    seq(|order|, i requires 0 <= i < |order| => d[order[i]])
  }

  ghost predicate Distinct<T>(xs: seq<T>)
  {
    forall i, j | 0 <= i < j < |xs| :: xs[i] != xs[j]
  }

  /** `xs` lists the elements of `s`, each exactly once. */
  ghost predicate Lists<T>(xs: seq<T>, s: set<T>)
  {
    && Distinct(xs)
    && (forall x | x in xs :: x in s)
    && (forall x | x in s :: x in xs)
  }

  lemma ListsAppend<T>(xs: seq<T>, s: set<T>, x: T)
    requires Lists(xs, s) && x !in s
    ensures Lists(xs + [x], s + {x})
  {
  }

  lemma ListsConcat<T>(a: seq<T>, sa: set<T>, b: seq<T>, sb: set<T>)
    requires Lists(a, sa) && Lists(b, sb) && sa !! sb
    ensures Lists(a + b, sa + sb)
  {
    forall i, j | 0 <= i < j < |a + b| ensures (a + b)[i] != (a + b)[j] {
      if i < |a| <= j {
        assert (a + b)[i] in sa && (a + b)[j] in sb;
      }
    }
  }

  /** A list of each element of a set, once, is as long as the set is large. */
  lemma {:induction false} ListsCard<T>(xs: seq<T>, s: set<T>)
    requires Lists(xs, s)
    ensures |xs| == |s|
  {
    if xs != [] {
      var x := xs[|xs| - 1];
      var init := xs[..|xs| - 1];
      assert Lists(init, s - {x}) by {
        forall y ensures y in init <==> y in s - {x} {
          if y in init {
            var k :| 0 <= k < |init| && init[k] == y;
            assert xs[k] != xs[|xs| - 1];
          }
        }
      }
      ListsCard(init, s - {x});
    }
  }

  /**
   * An argument of `Sprite.add` / `Sprite.remove`: a group, or an iterable
   * of further arguments.
   */
  datatype GroupArg = One(group: Group) | Many(args: seq<GroupArg>)

  /** Every group the arguments mention, at any depth. */
  function GroupsOf(args: seq<GroupArg>): set<Group>
    decreases args
  {
    if args == [] then {}
    else
      GroupsOf(args[..|args| - 1]) +
      match args[|args| - 1]
      case One(g) => {g}
      case Many(more) => GroupsOf(more)
  }

  lemma {:induction false} GroupsOfPrefix(args: seq<GroupArg>, i: nat)
    requires i <= |args|
    ensures GroupsOf(args[..i]) <= GroupsOf(args)
    ensures i < |args| ==> GroupsOf([args[i]]) <= GroupsOf(args)
    decreases |args|
  {
    if i < |args| {
      var init := args[..|args| - 1];
      assert [args[i]][..0] == [];
      if i < |init| {
        GroupsOfPrefix(init, i);
        assert init[..i] == args[..i] && init[i] == args[i];
      } else {
        assert args[..i] == init;
      }
    } else {
      assert args[..i] == args;
    }
  }

  class Sprite {
    /** The visual attributes the setters maintain. */
    var look: Look
    /** Set by every visual change that goes through the wrapper. */
    var dirty: bool
    /** The groups this sprite is in (the keys of its private group dictionary). */
    var groups: set<Group>
    /** Whether this is an `AggregatedSprite`. */
    const aggregated: bool
    /** An aggregate's children, in drawing order; always empty for a plain sprite. */
    var sprites: seq<Sprite>

    /** The sprites a visual change is propagated to. */
    function Kids(): set<Sprite>
      reads this`sprites
    {
      if aggregated then set c | c in sprites else {}
    }

    /**
     * `Sprite(*groups)` / `AggregatedSprite(*groups)`. The initializer assigns
     * `image`, `position` and `scale` through the wrapper after setting
     * `dirty = False`, so a new sprite starts dirty.
     */
    constructor (aggregated: bool, args: seq<GroupArg>, ghost w: Universe)
      requires Agree(w) && GroupsOf(args) <= w.groups
      modifies GroupsOf(args)`spritedict
      ensures this.aggregated == aggregated && sprites == []
      ensures look == Look(None, None, TopLeft, None, 1.0, 0, true) && dirty
      ensures groups == GroupsOf(args)
      ensures forall g | g in GroupsOf(args) :: g.spritedict == old(g.spritedict)[this := NoRegion]
      ensures Agree(Universe(w.sprites + {this}, w.groups))
    {
      this.aggregated := aggregated;
      look := Look(None, None, TopLeft, None, 1.0, 0, true);
      dirty := true;
      groups := {};
      sprites := [];
      new;
      ghost var w' := Universe(w.sprites + {this}, w.groups);
      assert Agree(w');
      if args != [] {
        Add(args, w');
      }
    }

    /**
     * A property assignment through the `_visual_set` wrapper: the raw
     * setter runs on this sprite; if it raises, nothing else happens.
     * Otherwise `dirty` is set and, for an aggregate, `on_visual_set` runs
     * the same raw setter (not the wrapper) on each child in order, stopping
     * at the first child whose setter raises. `reached` counts the children
     * the raw setter ran on.
     */
    method Set(c: Change) returns (fault: Option<Fault>, ghost reached: nat)
      modifies this`look, this`dirty, Kids()`look
      ensures look == Apply(old(look), c).look
      ensures dirty == (old(dirty) || Apply(old(look), c).fault.None?)
      ensures Apply(old(look), c).fault.Some? ==> fault == Apply(old(look), c).fault
      ensures reached <= |sprites|
      ensures !aggregated || Apply(old(look), c).fault.Some? ==> reached == 0
      ensures forall j | 0 <= j < reached && sprites[j] != this ::
        sprites[j].look == Apply(old(sprites[j].look), c).look
      ensures forall x | x in Kids() && x != this && x !in sprites[..reached] :: x.look == old(x.look)
      ensures forall j | 0 <= j < reached - 1 :: Apply(old(sprites[j].look), c).fault.None?
      ensures Apply(old(look), c).fault.None? && aggregated ==>
        if fault.None? then reached == |sprites| && forall j | 0 <= j < |sprites| :: Apply(old(sprites[j].look), c).fault.None?
        else 0 < reached && fault == Apply(old(sprites[reached - 1].look), c).fault
      ensures !aggregated ==> fault == Apply(old(look), c).fault
    {
      var o := Apply(look, c);
      look := o.look;
      if o.fault.Some? {
        return o.fault, 0;
      }
      dirty := true;
      fault, reached := None, 0;
      if aggregated {
        ApplyIdempotent(old(look), c);
        fault, reached := Forward(c);
        assert fault.Some? ==> sprites[reached - 1] != this;
      }
    }

    /**
     * `on_visual_set` of an aggregate that has already taken the change:
     * the raw setter runs on each child in order, stopping at the first
     * child whose setter raises; `reached` counts the children it ran on.
     */
    method Forward(c: Change) returns (fault: Option<Fault>, ghost reached: nat)
      requires aggregated && Apply(look, c) == Applied(look, None)
      modifies Kids()`look
      ensures look == old(look)
      ensures reached <= |sprites|
      ensures forall j | 0 <= j < reached && sprites[j] != this ::
        sprites[j].look == Apply(old(sprites[j].look), c).look
      ensures forall x | x in Kids() && x != this && x !in sprites[..reached] :: x.look == old(x.look)
      ensures forall j | 0 <= j < reached - 1 :: Apply(old(sprites[j].look), c).fault.None?
      ensures if fault.None? then reached == |sprites| && forall j | 0 <= j < |sprites| :: Apply(old(sprites[j].look), c).fault.None?
        else 0 < reached && fault == Apply(old(sprites[reached - 1].look), c).fault
    {
      var i := 0;
      while i < |sprites|
        invariant 0 <= i <= |sprites|
        invariant look == old(look)
        invariant forall j | 0 <= j < i && sprites[j] != this ::
          sprites[j].look == Apply(old(sprites[j].look), c).look
        invariant forall x | x in Kids() && x != this && x !in sprites[..i] :: x.look == old(x.look)
        invariant forall j | 0 <= j < i :: Apply(old(sprites[j].look), c).fault.None?
      {
        var x := sprites[i];
        ApplyIdempotent(old(x.look), c);
        var ox := Apply(x.look, c);
        x.look := ox.look;
        if ox.fault.Some? {
          return ox.fault, i + 1;
        }
        i := i + 1;
      }
      return None, i;
    }

    /**
     * The `image` getter. With a scale other than 1 or a rotation other
     * than 0 it renders a transformed image, sets `rect` to that image's
     * rectangle at the origin and re-assigns `position` through the
     * wrapper, which moves `rect` back onto the anchor and sets `dirty`.
     */
    method Image(rotatedSize: (Size, int) -> Size) returns (img: Option<Size>, fault: Option<Fault>, ghost reached: nat)
      modifies this`look, this`dirty, Kids()`look
      ensures img == RenderedSize(old(look), rotatedSize)
      ensures look == Refreshed(old(look), rotatedSize)
      ensures dirty == (old(dirty) || (old(look).image.Some? && Transformed(old(look))))
      ensures !(old(look).image.Some? && Transformed(old(look))) ==>
        fault.None? && reached == 0 && forall x | x in Kids() :: x.look == old(x.look)
      ensures !aggregated ==> fault.None? && reached == 0
      ensures reached <= |sprites|
      ensures forall j | 0 <= j < reached && sprites[j] != this ::
        sprites[j].look == Apply(old(sprites[j].look), SetPosition(old(look).position)).look
      ensures forall x | x in Kids() && x != this && x !in sprites[..reached] :: x.look == old(x.look)
      ensures forall j | 0 <= j < reached - 1 && sprites[j] != this ::
        Apply(old(sprites[j].look), SetPosition(old(look).position)).fault.None?
      ensures old(look).image.Some? && Transformed(old(look)) && aggregated ==>
        if fault.None? then
          reached == |sprites| && forall j | 0 <= j < |sprites| && sprites[j] != this ::
            Apply(old(sprites[j].look), SetPosition(old(look).position)).fault.None?
        else
          0 < reached && sprites[reached - 1] != this
          && fault == Apply(old(sprites[reached - 1].look), SetPosition(old(look).position)).fault
    {
      img := RenderedSize(look, rotatedSize);
      if look.image.Some? && Transformed(look) {
        look := look.(rect := Some(Rect(0, 0, img.value.w, img.value.h)));
        label Placing:
        fault, reached := Set(SetPosition(look.position));
        assert forall x | x in old(Kids()) && x != this :: old@Placing(x.look) == old(x.look);
      } else {
        fault, reached := None, 0;
      }
    }

    /** `aggregated.add_sprite(sprite)`: appends a child. */
    method AddSprite(child: Sprite)
      requires aggregated
      modifies this`sprites
      ensures sprites == old(sprites) + [child]
      ensures Kids() == old(Kids()) + {child}
    {
      sprites := sprites + [child];
    }

    /**
     * `draw(surface)`, dispatched on the class as Python does. The result
     * is what `DrawOutcome` says for the snapshot taken before the call;
     * the only changes are those the image getter makes, on sprites of the
     * tree being drawn, and a draw that returns has made them on all of it.
     */
    method Draw(b: Backend, ghost u: set<Sprite>, ghost rank: map<Sprite, nat>) returns (r: Result<Region>)
      requires this in u && Ranked(SceneOf(u), rank)
      modifies u`look, u`dirty
      ensures RedrawnWithin(old(SceneOf(u)), SceneOf(u), Tree(old(SceneOf(u)), this, rank), b)
      ensures r.Ok? ==> RedrawnExactly(old(SceneOf(u)), SceneOf(u), Tree(old(SceneOf(u)), this, rank), b)
      ensures r == DrawOutcome(old(SceneOf(u)), this, rank, b)
      decreases rank[this], 1
    {
      if aggregated {
        r := DrawAggregate(b, u, rank);
      } else {
        r := DrawPlain(b, u, rank);
      }
    }

    /**
     * One sprite's draw inside a larger draw (a group's or an aggregate's)
     * of the sprites `all`, judged against the scene `m0` as that larger
     * draw began, once the sprites of `done` have been drawn.
     */
    static method DrawIn(s: Sprite, b: Backend, ghost u: set<Sprite>, ghost rank: map<Sprite, nat>,
                         ghost m0: map<Sprite, Node<Sprite>>, ghost done: set<Sprite>, ghost all: set<Sprite>)
      returns (r: Result<Region>)
      requires s in u && Ranked(m0, rank) && done <= all && s in all
      requires RedrawnExactly(m0, SceneOf(u), Forest(m0, done, rank), b)
      modifies u`look, u`dirty
      ensures RedrawnWithin(old(SceneOf(u)), SceneOf(u), Tree(m0, s, rank), b)
      ensures RedrawnWithin(m0, SceneOf(u), Forest(m0, all, rank), b)
      ensures r.Ok? ==> RedrawnExactly(m0, SceneOf(u), Forest(m0, done + {s}, rank), b)
      ensures r == DrawOutcome(m0, s, rank, b)
      decreases rank[s], 2
    {
      ghost var m1 := SceneOf(u);
      ExactlyWithin(m0, m1, Forest(m0, done, rank), b);
      TreeStable(m0, m1, s, rank, b);
      r := s.Draw(b, u, rank);
      OutcomeStable(m0, m1, s, rank, b);
      DrawnStep(m0, m1, SceneOf(u), done, s, all, rank, b);
    }

    /**
     * `Sprite.draw`: 0 when invisible; otherwise the image, read through
     * the getter, is blitted at `rect` (read after the getter ran).
     */
    method DrawPlain(b: Backend, ghost u: set<Sprite>, ghost rank: map<Sprite, nat>) returns (r: Result<Region>)
      requires this in u && Ranked(SceneOf(u), rank) && !aggregated
      modifies u`look, u`dirty
      ensures Redrawn(old(SceneOf(u)), SceneOf(u), b)
      ensures SceneOf(u) == old(SceneOf(u))[this := DrawEffect(old(SceneOf(u))[this], b)]
      ensures r == DrawOutcome(old(SceneOf(u)), this, rank, b)
      decreases rank[this], 0
    {
      ghost var m0 := SceneOf(u);
      if !look.visible {
        return Ok(NoRegion);
      }
      var img, _, _ := Image(b.rotatedSize);
      assert SceneOf(u) == m0[this := DrawEffect(m0[this], b)];
      if img.None? {
        return Err(ImageMissing);
      }
      if look.rect.None? {
        return Err(RectMissing);
      }
      return Ok(Drawn(b.blit(img.value, look.rect.value)));
    }

    /**
     * `AggregatedSprite.draw`: unions what the children return, in order,
     * into a rectangle that starts as `Rect(0, 0, 0, 0)`, skipping a 0; its
     * own `visible` is not consulted. An exception from a child ends it.
     */
    method DrawAggregate(b: Backend, ghost u: set<Sprite>, ghost rank: map<Sprite, nat>) returns (r: Result<Region>)
      requires this in u && Ranked(SceneOf(u), rank) && aggregated
      modifies u`look, u`dirty
      ensures RedrawnWithin(old(SceneOf(u)), SceneOf(u), Tree(old(SceneOf(u)), this, rank), b)
      ensures r.Ok? ==> RedrawnExactly(old(SceneOf(u)), SceneOf(u), Tree(old(SceneOf(u)), this, rank), b)
      ensures r == DrawOutcome(old(SceneOf(u)), this, rank, b)
      decreases rank[this], 0
    {
      ghost var m0 := SceneOf(u);
      ghost var k := rank[this];
      var cs := sprites;
      assert m0[this].sprites == cs;
      assert forall c | c in cs :: c in m0 && c in rank && rank[c] < k;
      ghost var done: set<Sprite> := {};
      var acc := EmptyRect;
      ghost var rs: seq<Region> := [];
      var i := 0;
      while i < |cs|
        invariant 0 <= i <= |cs|
        invariant forall c | c in cs[..i] :: c in m0 && c in rank && rank[c] < k
        invariant ChildOutcomes(m0, cs[..i], rank, k, b) == Ok(rs)
        invariant acc == UnionAll(EmptyRect, DrawnRects(rs))
        invariant done == Elems(cs[..i])
        invariant RedrawnExactly(m0, SceneOf(u), Forest(m0, done, rank), b)
      {
        ElemsStep(cs, i);
        var rc := DrawIn(cs[i], b, u, rank, m0, done, done + {cs[i]});
        ChildOutcomesStep(m0, cs, i, rank, k, b, rs);
        if rc.Err? {
          ChildOutcomesErrExtends(m0, cs, i + 1, rank, k, b);
          AggregateReach(m0, SceneOf(u), this, i + 1, rank, b);
          return rc;
        }
        done := done + {cs[i]};
        UnionAllStep(EmptyRect, rs, rc.value);
        if rc.value.Drawn? {
          acc := Union(acc, rc.value.rect);
        }
        rs := rs + [rc.value];
        i := i + 1;
      }
      assert cs[..i] == cs;
      AggregateReach(m0, SceneOf(u), this, |cs|, rank, b);
      return Ok(Drawn(acc));
    }

    method AddInternal(g: Group)
      modifies this`groups
      ensures groups == old(groups) + {g}
    {
      groups := groups + {g};
    }

    method RemoveInternal(g: Group)
      requires g in groups
      modifies this`groups
      ensures groups == old(groups) - {g}
    {
      groups := groups - {g};
    }

    /**
     * `sprite.add(*groups)`: joins every group the arguments mention that
     * it is not yet in; a group it is already in keeps its recorded region.
     */
    method Add(args: seq<GroupArg>, ghost w: Universe)
      requires Agree(w) && this in w.sprites && GroupsOf(args) <= w.groups
      modifies this`groups, GroupsOf(args)`spritedict
      ensures groups == old(groups) + GroupsOf(args)
      ensures forall g | g in GroupsOf(args) ::
        g.spritedict == if g in old(groups) then old(g.spritedict) else old(g.spritedict)[this := NoRegion]
      ensures Agree(w)
      decreases args
    {
      var i := 0;
      while i < |args|
        invariant 0 <= i <= |args|
        invariant GroupsOf(args[..i]) <= GroupsOf(args)
        invariant groups == old(groups) + GroupsOf(args[..i])
        invariant forall g | g in GroupsOf(args) ::
          g.spritedict == if g in groups && g !in old(groups) then old(g.spritedict)[this := NoRegion] else old(g.spritedict)
        invariant Agree(w)
      {
        GroupsOfPrefix(args, i + 1);
        assert args[..i + 1][..i] == args[..i];
        label Step:
        AddArg(args[i], w);
        forall g | g in GroupsOf(args)
          ensures g.spritedict == if g in groups && g !in old(groups) then old(g.spritedict)[this := NoRegion] else old(g.spritedict)
        {
          if g in GroupsOf([args[i]]) && g !in old@Step(groups) {
            assert g.spritedict == old@Step(g.spritedict)[this := NoRegion];
          }
        }
        i := i + 1;
      }
      assert args[..i] == args;
    }

    /** One argument of `add`: a group, or an iterable of further arguments. */
    method AddArg(arg: GroupArg, ghost w: Universe)
      requires Agree(w) && this in w.sprites && GroupsOf([arg]) <= w.groups
      modifies this`groups, GroupsOf([arg])`spritedict
      ensures groups == old(groups) + GroupsOf([arg])
      ensures forall g | g in GroupsOf([arg]) && g !in old(groups) :: g.spritedict == old(g.spritedict)[this := NoRegion]
      ensures forall g | g in GroupsOf([arg]) && g in old(groups) :: g.spritedict == old(g.spritedict)
      ensures Agree(w)
      decreases arg
    {
      assert [arg][..0] == [];
      match arg {
        case One(g) =>
          if g !in groups {
            Enter(g, w);
          }
        case Many(more) =>
          Add(more, w);
      }
    }

    /** `group.add_internal(self)` followed by `self.add_internal(group)`. */
    method Enter(g: Group, ghost w: Universe)
      requires Agree(w) && this in w.sprites && g in w.groups && g !in groups
      modifies this`groups, g`spritedict
      ensures groups == old(groups) + {g}
      ensures g.spritedict == old(g.spritedict)[this := NoRegion]
      ensures Agree(w)
    {
      g.AddInternal(this);
      AddInternal(g);
      forall h, t | h in w.groups && t in w.sprites ensures t in h.spritedict <==> h in t.groups {
        assert old(t in h.spritedict <==> h in t.groups);
      }
    }

    /** `group.remove_internal(self)` followed by `self.remove_internal(group)`. */
    method Quit(g: Group, ghost w: Universe)
      requires Agree(w) && this in w.sprites && g in groups
      modifies this`groups, g`spritedict, g`lostsprites
      ensures this in old(g.spritedict)
      ensures groups == old(groups) - {g}
      ensures g.spritedict == old(g.spritedict) - {this}
      ensures g.lostsprites == old(g.lostsprites) + DrawnRects([old(g.spritedict)[this]])
      ensures Agree(w)
    {
      g.RemoveInternal(this);
      RemoveInternal(g);
      forall h, t | h in w.groups && t in w.sprites ensures t in h.spritedict <==> h in t.groups {
        assert old(t in h.spritedict <==> h in t.groups);
      }
    }

    /**
     * `sprite.remove(*groups)`: leaves every group the arguments mention
     * that it is in; each such group records the region it last drew this
     * sprite in as lost, once.
     */
    method Remove(args: seq<GroupArg>, ghost w: Universe)
      requires Agree(w) && this in w.sprites && GroupsOf(args) <= w.groups
      modifies this`groups, GroupsOf(args)`spritedict, GroupsOf(args)`lostsprites
      ensures groups == old(groups) - GroupsOf(args)
      ensures forall g | g in GroupsOf(args) && g in old(groups) ::
        && g.spritedict == old(g.spritedict) - {this}
        && g.lostsprites == old(g.lostsprites) + DrawnRects([old(g.spritedict)[this]])
      ensures forall g | g in GroupsOf(args) && g !in old(groups) ::
        g.spritedict == old(g.spritedict) && g.lostsprites == old(g.lostsprites)
      ensures Agree(w)
      decreases args
    {
      var i := 0;
      while i < |args|
        invariant 0 <= i <= |args|
        invariant GroupsOf(args[..i]) <= GroupsOf(args)
        invariant groups == old(groups) - GroupsOf(args[..i])
        invariant forall g | g in GroupsOf(args) && g in old(groups) && g !in groups ::
          && g.spritedict == old(g.spritedict) - {this}
          && g.lostsprites == old(g.lostsprites) + DrawnRects([old(g.spritedict)[this]])
        invariant forall g | g in GroupsOf(args) && (g !in old(groups) || g in groups) ::
          g.spritedict == old(g.spritedict) && g.lostsprites == old(g.lostsprites)
        invariant Agree(w)
      {
        GroupsOfPrefix(args, i + 1);
        assert args[..i + 1][..i] == args[..i];
        RemoveArg(args[i], w);
        i := i + 1;
      }
      assert args[..i] == args;
    }

    /** One argument of `remove`: a group, or an iterable of further arguments. */
    method RemoveArg(arg: GroupArg, ghost w: Universe)
      requires Agree(w) && this in w.sprites && GroupsOf([arg]) <= w.groups
      modifies this`groups, GroupsOf([arg])`spritedict, GroupsOf([arg])`lostsprites
      ensures groups == old(groups) - GroupsOf([arg])
      ensures forall g | g in GroupsOf([arg]) && g in old(groups) ::
        && g.spritedict == old(g.spritedict) - {this}
        && g.lostsprites == old(g.lostsprites) + DrawnRects([old(g.spritedict)[this]])
      ensures forall g | g in GroupsOf([arg]) && g !in old(groups) ::
        g.spritedict == old(g.spritedict) && g.lostsprites == old(g.lostsprites)
      ensures Agree(w)
      decreases arg
    {
      assert [arg][..0] == [];
      match arg {
        case One(g) =>
          if g in groups {
            Quit(g, w);
          }
        case Many(more) =>
          Remove(more, w);
      }
    }

    /**
     * `sprite.kill()`: leaves every group it is in, each of which records
     * the sprite's last drawn region as lost. Its visual state is not
     * touched (the frame says so), and it may join groups again later.
     */
    method Kill(ghost w: Universe)
      requires Agree(w) && this in w.sprites
      modifies this`groups, groups`spritedict, groups`lostsprites
      ensures groups == {}
      ensures forall g | g in old(groups) ::
        && g.spritedict == old(g.spritedict) - {this}
        && g.lostsprites == old(g.lostsprites) + DrawnRects([old(g.spritedict)[this]])
      ensures Agree(w)
    {
      var todo := groups;
      while todo != {}
        invariant todo <= groups && groups == old(groups)
        invariant forall g | g in groups && g !in todo ::
          && g.spritedict == old(g.spritedict) - {this}
          && g.lostsprites == old(g.lostsprites) + DrawnRects([old(g.spritedict)[this]])
        invariant forall g | g in todo :: g.spritedict == old(g.spritedict) && g.lostsprites == old(g.lostsprites)
        decreases todo
      {
        var g :| g in todo;
        g.RemoveInternal(this);
        todo := todo - {g};
      }
      groups := {};
    }

    /** `sprite.groups()`: a list, without repetitions, of the groups that hold this sprite. */
    method Groups(ghost w: Universe) returns (gs: seq<Group>)
      requires Agree(w) && this in w.sprites
      ensures Lists(gs, groups)
      ensures forall g | g in w.groups :: g in gs <==> this in g.spritedict
    {
      gs := [];
      var todo := groups;
      while todo != {}
        invariant todo <= groups
        invariant Lists(gs, groups - todo)
        decreases todo
      {
        var g :| g in todo;
        ListsAppend(gs, groups - todo, g);
        gs := gs + [g];
        todo := todo - {g};
      }
    }

    /** `sprite.alive()`: whether some group holds this sprite. */
    method Alive(ghost w: Universe) returns (b: bool)
      requires Agree(w) && this in w.sprites
      ensures b <==> groups != {}
      ensures b <==> exists g | g in w.groups :: this in g.spritedict
    {
      b := groups != {};
      if b {
        var g :| g in groups;
        assert g in w.groups && this in g.spritedict;
      }
    }
  }

  /** Appending to an order appends the rectangles recorded for the new sprites. */
  lemma {:induction false} LostAppend(d: map<Sprite, Region>, a: seq<Sprite>, b: seq<Sprite>)
    requires forall s | s in a + b :: s in d
    ensures DrawnRects(RegionsOf(d, a + b)) == DrawnRects(RegionsOf(d, a)) + DrawnRects(RegionsOf(d, b))
  {
    assert RegionsOf(d, a + b) == RegionsOf(d, a) + RegionsOf(d, b);
    DrawnRectsConcat(RegionsOf(d, a), RegionsOf(d, b));
  }

  class Group {
    /** Members, each mapped to what its last draw returned (or `NoRegion`). */
    var spritedict: map<Sprite, Region>
    /** Areas of removed members still to be cleared. */
    var lostsprites: seq<Rect>

    /**
     * `Group(*sprites)`: an empty group to which `add(*sprites)` is applied.
     */
    constructor (items: seq<Item<Sprite, Group>>, ghost w: Universe)
      requires Agree(w) && GroupsIn(items) <= w.groups
      requires Named(items, KeysOf(w.groups)) <= w.sprites
      modifies w.sprites`groups
      ensures spritedict.Keys == old(Named(items, KeysOf(w.groups)))
      ensures forall s | s in spritedict :: spritedict[s] == NoRegion
      ensures lostsprites == []
      ensures forall s | s in w.sprites :: s.groups == old(s.groups) + (if s in spritedict then {this} else {})
      ensures Agree(Universe(w.sprites, w.groups + {this}))
    {
      spritedict := map[];
      lostsprites := [];
      new;
      ghost var k0 := KeysOf(w.groups);
      assert k0 == old(KeysOf(w.groups));
      ghost var w' := Universe(w.sprites, w.groups + {this});
      assert Agree(w');
      ghost var k1 := k0[this := {}];
      forall x | x in Named(items, k1) + Named(items, k0)
        ensures x in Named(items, k1) <==> x in Named(items, k0)
      {
        NamedPointwise(items, k1, k0, x);
      }
      AddItems(items, w', k1);
      forall s | s in w.sprites ensures s.groups == old(s.groups) + (if s in spritedict then {this} else {}) {
        assert this !in old(s.groups);
        assert this in s.groups <==> s in spritedict;
      }
    }

    method AddInternal(s: Sprite)
      modifies this`spritedict
      ensures spritedict == old(spritedict)[s := NoRegion]
    {
      spritedict := spritedict[s := NoRegion];
    }

    /** Forgets `s`, recording its last drawn region, if any, as lost. */
    method RemoveInternal(s: Sprite)
      requires s in spritedict
      modifies this`spritedict, this`lostsprites
      ensures spritedict == old(spritedict) - {s}
      ensures lostsprites == old(lostsprites) + DrawnRects([old(spritedict)[s]])
    {
      var r := spritedict[s];
      if r.Drawn? {
        lostsprites := lostsprites + [r.rect];
      }
      spritedict := spritedict - {s};
    }

    /** `self.add_internal(s)` followed by `s.add_internal(self)`. */
    method Join(s: Sprite, ghost w: Universe)
      requires Agree(w) && this in w.groups && s in w.sprites && s !in spritedict
      modifies this`spritedict, s`groups
      ensures spritedict == old(spritedict)[s := NoRegion]
      ensures s.groups == old(s.groups) + {this}
      ensures Agree(w)
    {
      AddInternal(s);
      s.AddInternal(this);
      forall g, t | g in w.groups && t in w.sprites ensures t in g.spritedict <==> g in t.groups {
        assert old(t in g.spritedict <==> g in t.groups);
      }
    }

    /** `self.remove_internal(s)` followed by `s.remove_internal(self)`. */
    method Leave(s: Sprite, ghost w: Universe)
      requires Agree(w) && this in w.groups && s in spritedict
      modifies this`spritedict, this`lostsprites, s`groups
      ensures spritedict == old(spritedict) - {s}
      ensures lostsprites == old(lostsprites) + DrawnRects([old(spritedict)[s]])
      ensures s.groups == old(s.groups) - {this}
      ensures Agree(w)
    {
      RemoveInternal(s);
      s.RemoveInternal(this);
      forall g, t | g in w.groups && t in w.sprites ensures t in g.spritedict <==> g in t.groups {
        assert old(t in g.spritedict <==> g in t.groups);
      }
    }

    /**
     * Adds each sprite of `ss` not yet a member, on both sides; as
     * `add(*other_group)` does with the sprites of another group.
     */
    method AddMembers(ss: set<Sprite>, ghost w: Universe)
      requires Agree(w) && this in w.groups && ss <= w.sprites
      modifies this`spritedict, w.sprites`groups
      ensures Agree(w)
      ensures spritedict.Keys == old(spritedict.Keys) + ss
      ensures Grown(old(spritedict), spritedict)
      ensures forall s | s in w.sprites :: s.groups - {this} == old(s.groups) - {this}
    {
      var todo := ss;
      while todo != {}
        invariant todo <= ss
        invariant Agree(w)
        invariant spritedict.Keys == old(spritedict.Keys) + (ss - todo)
        invariant Grown(old(spritedict), spritedict)
        invariant forall s | s in w.sprites :: s.groups - {this} == old(s.groups) - {this}
        decreases todo
      {
        var s :| s in todo;
        ghost var before := spritedict.Keys;
        ghost var d1 := spritedict;
        if s !in spritedict {
          Join(s, w);
        }
        GrownTrans(old(spritedict), d1, spritedict);
        TodoAddStep(old(spritedict.Keys), ss, todo, s, before, spritedict.Keys);
        todo := todo - {s};
      }
    }

    /**
     * `k` records the members of every group as this operation began: the
     * other groups still have exactly those, and this one has at least them.
     */
    ghost predicate MembersAtLeast(w: Universe, k: map<Group, set<Sprite>>)
      reads w.groups`spritedict, this`spritedict
    {
      && k.Keys == w.groups && this in k && k[this] <= spritedict.Keys
      && forall g | g in w.groups && g != this :: g.spritedict.Keys == k[g]
    }

    /**
     * `group.add(*sprites)`: every sprite the arguments name (a group
     * argument naming its members at the moment it is reached) becomes a
     * member on both sides; a sprite already in the group keeps the region
     * recorded for it, a new one starts with none.
     */
    method Add(items: seq<Item<Sprite, Group>>, ghost w: Universe)
      requires Agree(w) && this in w.groups && GroupsIn(items) <= w.groups
      requires Named(items, KeysOf(w.groups)) <= w.sprites
      modifies this`spritedict, w.sprites`groups
      ensures Agree(w)
      ensures spritedict.Keys == old(spritedict.Keys) + old(Named(items, KeysOf(w.groups)))
      ensures Grown(old(spritedict), spritedict)
      ensures forall s | s in w.sprites :: s.groups - {this} == old(s.groups) - {this}
    {
      AddItems(items, w, KeysOf(w.groups));
    }

    /**
     * The loop of `add` over its arguments. A group argument other than
     * this one names the members `k` records for it; this group, reached
     * again, names its current members, which include those `k` records.
     */
    method AddItems(items: seq<Item<Sprite, Group>>, ghost w: Universe, ghost k: map<Group, set<Sprite>>)
      requires Agree(w) && this in w.groups && GroupsIn(items) <= w.groups && MembersAtLeast(w, k)
      requires Named(items, k) <= w.sprites
      modifies this`spritedict, w.sprites`groups
      ensures Agree(w)
      ensures spritedict.Keys == old(spritedict.Keys) + Named(items, k)
      ensures Grown(old(spritedict), spritedict)
      ensures forall s | s in w.sprites :: s.groups - {this} == old(s.groups) - {this}
      decreases items
    {
      var i := 0;
      while i < |items|
        invariant 0 <= i <= |items|
        invariant Agree(w) && MembersAtLeast(w, k)
        invariant GroupsIn(items[..i]) <= GroupsIn(items)
        invariant spritedict.Keys == old(spritedict.Keys) + Named(items[..i], k)
        invariant Grown(old(spritedict), spritedict)
        invariant forall s | s in w.sprites :: s.groups - {this} == old(s.groups) - {this}
      {
        GroupsInPrefix(items, i + 1);
        NamedPrefix(items, i, k);
        ghost var d1 := spritedict;
        AddArg(items[i], w, k);
        GrownTrans(old(spritedict), d1, spritedict);
        NamedStep(items, i, k, old(spritedict.Keys), spritedict.Keys);
        i := i + 1;
      }
      assert items[..i] == items;
    }

    /** One argument of `add`: a sprite, a group, or a nested iterable. */
    method AddArg(it: Item<Sprite, Group>, ghost w: Universe, ghost k: map<Group, set<Sprite>>)
      requires Agree(w) && this in w.groups && GroupsIn([it]) <= w.groups && MembersAtLeast(w, k)
      requires NamedBy(it, k) <= w.sprites
      modifies this`spritedict, w.sprites`groups
      ensures Agree(w)
      ensures spritedict.Keys == old(spritedict.Keys) + NamedBy(it, k)
      ensures Grown(old(spritedict), spritedict)
      ensures forall s | s in w.sprites :: s.groups - {this} == old(s.groups) - {this}
      decreases it
    {
      assert [it][..0] == [];
      match it {
        case S(s) =>
          if s !in spritedict {
            Join(s, w);
          }
        case G(h) =>
          AddMembers(h.spritedict.Keys, w);
        case Nested(xs) =>
          AddItems(xs, w, k);
      }
    }

    /**
     * Removes each sprite of `ss` that is a member, on both sides; `order`
     * lists the removed sprites in the order they were removed.
     */
    method RemoveMembers(ss: set<Sprite>, ghost w: Universe) returns (ghost order: seq<Sprite>)
      requires Agree(w) && this in w.groups
      modifies this`spritedict, this`lostsprites, w.sprites`groups
      ensures Agree(w)
      ensures spritedict.Keys == old(spritedict.Keys) - ss
      ensures Removal(old(spritedict), spritedict, order, old(lostsprites), lostsprites)
      ensures forall s | s in w.sprites :: s.groups - {this} == old(s.groups) - {this}
    {
      order := [];
      RemovalNone(spritedict, lostsprites);
      var todo := ss;
      while todo != {}
        invariant todo <= ss
        invariant Agree(w)
        invariant spritedict.Keys == old(spritedict.Keys) - (ss - todo)
        invariant Removal(old(spritedict), spritedict, order, old(lostsprites), lostsprites)
        invariant forall s | s in w.sprites :: s.groups - {this} == old(s.groups) - {this}
        decreases todo
      {
        var s :| s in todo;
        ghost var before := spritedict.Keys;
        if s in spritedict {
          ghost var d1, l1 := spritedict, lostsprites;
          Leave(s, w);
          RemovalOne(d1, s, l1);
          RemovalTrans(old(spritedict), d1, spritedict, order, [s], old(lostsprites), l1, lostsprites);
          order := order + [s];
        }
        TodoStep(old(spritedict.Keys), ss, todo, s, before, spritedict.Keys);
        todo := todo - {s};
      }
    }

    /**
     * `k` records the members of every group as this operation began: the
     * other groups still have exactly those, and this one has at most them.
     */
    ghost predicate MembersAtMost(w: Universe, k: map<Group, set<Sprite>>)
      reads w.groups`spritedict, this`spritedict
    {
      && k.Keys == w.groups && this in k && spritedict.Keys <= k[this]
      && forall g | g in w.groups && g != this :: g.spritedict.Keys == k[g]
    }

    /**
     * `group.remove(*sprites)`: every member the arguments name (a group
     * argument naming its members at the moment it is reached) leaves the
     * group on both sides, and the region last drawn for it, if any, is
     * recorded as lost, once per removed sprite, in removal order.
     */
    method Remove(items: seq<Item<Sprite, Group>>, ghost w: Universe) returns (ghost order: seq<Sprite>)
      requires Agree(w) && this in w.groups && GroupsIn(items) <= w.groups
      modifies this`spritedict, this`lostsprites, w.sprites`groups
      ensures Agree(w)
      ensures spritedict.Keys == old(spritedict.Keys) - old(Named(items, KeysOf(w.groups)))
      ensures Removal(old(spritedict), spritedict, order, old(lostsprites), lostsprites)
      ensures forall s | s in w.sprites :: s.groups - {this} == old(s.groups) - {this}
    {
      order := RemoveItems(items, w, KeysOf(w.groups));
    }

    /**
     * The loop of `remove` over its arguments. A group argument other than
     * this one names the members `k` records for it; this group, reached
     * again, names its current members, which are among those `k` records.
     */
    method RemoveItems(items: seq<Item<Sprite, Group>>, ghost w: Universe, ghost k: map<Group, set<Sprite>>)
      returns (ghost order: seq<Sprite>)
      requires Agree(w) && this in w.groups && GroupsIn(items) <= w.groups && MembersAtMost(w, k)
      modifies this`spritedict, this`lostsprites, w.sprites`groups
      ensures Agree(w)
      ensures spritedict.Keys == old(spritedict.Keys) - Named(items, k)
      ensures Removal(old(spritedict), spritedict, order, old(lostsprites), lostsprites)
      ensures forall s | s in w.sprites :: s.groups - {this} == old(s.groups) - {this}
      decreases items
    {
      order := [];
      RemovalNone(spritedict, lostsprites);
      var i := 0;
      while i < |items|
        invariant 0 <= i <= |items|
        invariant Agree(w) && MembersAtMost(w, k)
        invariant GroupsIn(items[..i]) <= GroupsIn(items)
        invariant spritedict.Keys == old(spritedict.Keys) - Named(items[..i], k)
        invariant Removal(old(spritedict), spritedict, order, old(lostsprites), lostsprites)
        invariant forall s | s in w.sprites :: s.groups - {this} == old(s.groups) - {this}
      {
        GroupsInPrefix(items, i);
        GroupsInPrefix(items, i + 1);
        ghost var d1, l1 := spritedict, lostsprites;
        var sub := RemoveArg(items[i], w, k);
        NamedStep(items, i, k, {}, Named(items[..i], k) + NamedBy(items[i], k));
        MinusStep(old(spritedict.Keys), Named(items[..i], k), NamedBy(items[i], k), d1.Keys, spritedict.Keys);
        RemovalTrans(old(spritedict), d1, spritedict, order, sub, old(lostsprites), l1, lostsprites);
        order := order + sub;
        i := i + 1;
      }
      assert items[..i] == items;
    }

    /** One argument of `remove`: a sprite, a group, or a nested iterable. */
    method RemoveArg(it: Item<Sprite, Group>, ghost w: Universe, ghost k: map<Group, set<Sprite>>)
      returns (ghost order: seq<Sprite>)
      requires Agree(w) && this in w.groups && GroupsIn([it]) <= w.groups && MembersAtMost(w, k)
      modifies this`spritedict, this`lostsprites, w.sprites`groups
      ensures Agree(w)
      ensures spritedict.Keys == old(spritedict.Keys) - NamedBy(it, k)
      ensures Removal(old(spritedict), spritedict, order, old(lostsprites), lostsprites)
      ensures forall s | s in w.sprites :: s.groups - {this} == old(s.groups) - {this}
      decreases it
    {
      assert [it][..0] == [];
      match it {
        case S(s) =>
          if s in spritedict {
            Leave(s, w);
            RemovalOne(old(spritedict), s, old(lostsprites));
            order := [s];
          } else {
            RemovalNone(spritedict, lostsprites);
            order := [];
          }
        case G(h) =>
          order := RemoveMembers(h.spritedict.Keys, w);
        case Nested(xs) =>
          order := RemoveItems(xs, w, k);
      }
    }

    /** `group.empty()`: removes every member, on both sides, recording their drawn regions as lost. */
    method Empty(ghost w: Universe) returns (ghost order: seq<Sprite>)
      requires Agree(w) && this in w.groups
      modifies this`spritedict, this`lostsprites, w.sprites`groups
      ensures Agree(w)
      ensures spritedict == map[]
      ensures Removal(old(spritedict), spritedict, order, old(lostsprites), lostsprites)
      ensures forall s | s in w.sprites :: s.groups == old(s.groups) - {this}
    {
      order := RemoveMembers(spritedict.Keys, w);
    }

    /**
     * `group.has(*sprites)`: True when every argument checks (see `Holds`),
     * False at the first one that does not, and False for no arguments.
     */
    method Has(items: seq<Item<Sprite, Group>>, ghost w: Universe) returns (r: bool)
      requires GroupsIn(items) <= w.groups
      ensures r == Holds(items, KeysOf(w.groups), spritedict.Keys)
      decreases items
    {
      ghost var k := KeysOf(w.groups);
      ghost var m := spritedict.Keys;
      r := false;
      var i := 0;
      while i < |items|
        invariant 0 <= i <= |items|
        invariant GroupsIn(items[..i]) <= GroupsIn(items)
        invariant AllHold(items[..i], k, m)
        invariant r == (i > 0)
      {
        AllHoldStep(items, i, k, m);
        var ok := HasArg(items[i], w);
        if !ok {
          return false;
        }
        r := true;
        i := i + 1;
      }
      assert items[..i] == items;
    }

    /** Whether one argument of `has` checks. */
    method HasArg(it: Item<Sprite, Group>, ghost w: Universe) returns (ok: bool)
      requires GroupsIn([it]) <= w.groups
      ensures ok == HoldsBy(it, KeysOf(w.groups), spritedict.Keys)
      decreases it
    {
      assert [it][..0] == [];
      match it {
        case S(s) =>
          ok := s in spritedict;
        case Nested(xs) =>
          ok := Has(xs, w);
        case G(h) =>
          var members := h.spritedict.Keys;
          var todo := members;
          ok := false;
          while todo != {}
            invariant todo <= members
            invariant ok == (todo != members)
            invariant members - todo <= spritedict.Keys
            decreases todo
          {
            var s :| s in todo;
            if s !in spritedict {
              return false;
            }
            ok := true;
            todo := todo - {s};
          }
      }
    }

    /** `group.sprites()`: the members, as a list without repetitions. */
    method Members() returns (ss: seq<Sprite>)
      ensures Lists(ss, spritedict.Keys)
    {
      ss := [];
      var todo := spritedict.Keys;
      while todo != {}
        invariant todo <= spritedict.Keys
        invariant Lists(ss, spritedict.Keys - todo)
        decreases todo
      {
        var s :| s in todo;
        ListsAppend(ss, spritedict.Keys - todo, s);
        ss := ss + [s];
        todo := todo - {s};
      }
    }

    /** `len(group)`: the number of members. */
    method Len() returns (n: nat)
      ensures n == |spritedict.Keys|
    {
      var ss := Members();
      ListsCard(ss, spritedict.Keys);
      n := |ss|;
    }

    /**
     * `group.copy()`: a new group holding the same members, each with no
     * region recorded; every member also joins the copy.
     */
    method Copy(ghost w: Universe) returns (c: Group)
      requires Agree(w) && this in w.groups
      modifies w.sprites`groups
      ensures fresh(c) && c.lostsprites == []
      ensures c.spritedict.Keys == spritedict.Keys && forall s | s in c.spritedict :: c.spritedict[s] == NoRegion
      ensures forall s | s in w.sprites :: s.groups == old(s.groups) + (if s in spritedict then {c} else {})
      ensures Agree(Universe(w.sprites, w.groups + {c}))
    {
      var ss := Members();
      NamedSingles<Sprite, Group>(ss, KeysOf(w.groups));
      assert [Nested(Singles<Sprite, Group>(ss))][..0] == [];
      c := new Group([Nested(Singles(ss))], w);
    }

    /**
     * `group.draw(surface)`: draws every member (in no particular order),
     * records what each draw returned, then forgets the lost regions. An
     * exception from a member's draw ends it with the lost regions kept.
     */
    method Draw(b: Backend, ghost u: set<Sprite>, ghost rank: map<Sprite, nat>)
      returns (fault: Option<Fault>)
      requires spritedict.Keys <= u && Ranked(SceneOf(u), rank)
      modifies this`spritedict, this`lostsprites, u`look, u`dirty
      ensures spritedict.Keys == old(spritedict.Keys)
      ensures RedrawnWithin(old(SceneOf(u)), SceneOf(u), Forest(old(SceneOf(u)), spritedict.Keys, rank), b)
      ensures fault.None? ==> RedrawnExactly(old(SceneOf(u)), SceneOf(u), Forest(old(SceneOf(u)), spritedict.Keys, rank), b)
      ensures fault.None? ==> lostsprites == []
      ensures fault.None? ==>
        forall s | s in spritedict :: DrawOutcome(old(SceneOf(u)), s, rank, b) == Ok(spritedict[s])
      ensures fault.Some? ==> lostsprites == old(lostsprites)
      ensures fault.Some? ==>
        exists s | s in spritedict :: DrawOutcome(old(SceneOf(u)), s, rank, b) == Err(fault.value)
      ensures forall s | s in spritedict ::
        spritedict[s] == old(spritedict[s]) || DrawOutcome(old(SceneOf(u)), s, rank, b) == Ok(spritedict[s])
    {
      var d;
      d, fault := DrawMembers(spritedict, b, u, rank);
      spritedict := d;
      if fault.None? {
        lostsprites := [];
      }
    }

    /**
     * The loop of `group.draw` over the members recorded in `d0`: the
     * recorded regions, updated with each draw's result up to the first
     * exception, if any.
     */
    static method DrawMembers(d0: map<Sprite, Region>, b: Backend, ghost u: set<Sprite>, ghost rank: map<Sprite, nat>)
      returns (d: map<Sprite, Region>, fault: Option<Fault>)
      requires d0.Keys <= u && Ranked(SceneOf(u), rank)
      modifies u`look, u`dirty
      ensures d.Keys == d0.Keys
      ensures RedrawnWithin(old(SceneOf(u)), SceneOf(u), Forest(old(SceneOf(u)), d0.Keys, rank), b)
      ensures fault.None? ==> RedrawnExactly(old(SceneOf(u)), SceneOf(u), Forest(old(SceneOf(u)), d0.Keys, rank), b)
      ensures fault.None? ==> forall s | s in d :: DrawOutcome(old(SceneOf(u)), s, rank, b) == Ok(d[s])
      ensures fault.Some? ==> exists s | s in d :: DrawOutcome(old(SceneOf(u)), s, rank, b) == Err(fault.value)
      ensures forall s | s in d :: d[s] == d0[s] || DrawOutcome(old(SceneOf(u)), s, rank, b) == Ok(d[s])
    {
      ghost var m0 := SceneOf(u);
      d := d0;
      var todo := d0.Keys;
      ghost var done: set<Sprite> := {};
      while todo != {}
        invariant d.Keys == d0.Keys && done <= d0.Keys && todo == d0.Keys - done
        invariant RedrawnExactly(m0, SceneOf(u), Forest(m0, done, rank), b)
        invariant forall s | s in d :: if s in done then DrawOutcome(m0, s, rank, b) == Ok(d[s]) else d[s] == d0[s]
        decreases todo
      {
        var s :| s in todo;
        var r := Sprite.DrawIn(s, b, u, rank, m0, done, d0.Keys);
        if r.Err? {
          assert DrawOutcome(m0, s, rank, b) == Err(r.fault);
          return d, Some(r.fault);
        }
        done := done + {s};
        d := d[s := r.value];
        todo := todo - {s};
      }
      fault := None;
    }

    /**
     * `group.clear(surface, bgd)`: repaints the background over every lost
     * region, then over every non-zero recorded region (in no particular
     * order). `painted` lists the areas repainted, in order; whether `bgd`
     * is a surface or a callback does not change which areas those are.
     */
    method Clear() returns (painted: seq<Rect>, ghost order: seq<Sprite>)
      ensures forall s | s in order :: s in spritedict
      ensures Lists(order, spritedict.Keys)
      ensures painted == lostsprites + DrawnRects(RegionsOf(spritedict, order))
      ensures |lostsprites| <= |painted| && painted[..|lostsprites|] == lostsprites
      ensures forall r :: r in painted[|lostsprites|..] <==> exists s | s in spritedict :: spritedict[s] == Drawn(r)
    {
      painted := [];
      var i := 0;
      while i < |lostsprites|
        invariant 0 <= i <= |lostsprites|
        invariant painted == lostsprites[..i]
      {
        painted := painted + [lostsprites[i]];
        i := i + 1;
      }
      assert lostsprites[..i] == lostsprites;
      order := [];
      var d := spritedict;
      var todo := d.Keys;
      while todo != {}
        invariant todo <= d.Keys
        invariant forall s | s in order :: s in d
        invariant Lists(order, d.Keys - todo)
        invariant painted == lostsprites + DrawnRects(RegionsOf(d, order))
        decreases todo
      {
        var s :| s in todo;
        ghost var p0 := painted;
        var r := d[s];
        if r.Drawn? {
          painted := painted + [r.rect];
        }
        PaintStep(d, order, s, lostsprites, p0, painted);
        ListsAppend(order, d.Keys - todo, s);
        order := order + [s];
        todo := todo - {s};
      }
      assert Lists(order, d.Keys);
      var rs := RegionsOf(d, order);
      assert painted[|lostsprites|..] == DrawnRects(rs);
      forall r ensures Drawn(r) in rs <==> exists s | s in d :: d[s] == Drawn(r) {
        if exists s | s in d :: d[s] == Drawn(r) {
          var s :| s in d && d[s] == Drawn(r);
          assert s in order;
          var i :| 0 <= i < |order| && order[i] == s;
          assert rs[i] == Drawn(r);
        }
      }
    }
  }

  lemma MinusStep<T>(all: set<T>, x: set<T>, y: set<T>, before: set<T>, after: set<T>)
    requires before == all - x && after == before - y
    ensures after == all - (x + y)
  {
  }

  lemma TodoStep<T>(all: set<T>, ss: set<T>, todo: set<T>, x: T, before: set<T>, after: set<T>)
    requires x in todo && todo <= ss && before == all - (ss - todo) && after == before - {x}
    ensures after == all - (ss - (todo - {x}))
  {
  }

  lemma TodoAddStep<T>(all: set<T>, ss: set<T>, todo: set<T>, x: T, before: set<T>, after: set<T>)
    requires x in todo && todo <= ss && before == all + (ss - todo) && after == before + {x}
    ensures after == all + (ss - (todo - {x}))
  {
  }

  /** Repainting one more recorded region, if it holds a rectangle. */
  lemma {:induction false} PaintStep(d: map<Sprite, Region>, order: seq<Sprite>, s: Sprite,
                                     base: seq<Rect>, p0: seq<Rect>, p1: seq<Rect>)
    requires (forall t | t in order :: t in d) && s in d
    requires p0 == base + DrawnRects(RegionsOf(d, order))
    requires p1 == p0 + (if d[s].Drawn? then [d[s].rect] else [])
    ensures forall t | t in order + [s] :: t in d
    ensures p1 == base + DrawnRects(RegionsOf(d, order + [s]))
  {
    var a := DrawnRects(RegionsOf(d, order));
    LostAppend(d, order, [s]);
    assert RegionsOf(d, [s]) == [d[s]];
    assert DrawnRects([d[s]]) == (if d[s].Drawn? then [d[s].rect] else []) by {
      assert [d[s]][..0] == [];
    }
    SeqAssoc(base, a, DrawnRects([d[s]]));
  }

  /**
   * `d` extends the dictionary `d0`: every sprite of `d0` keeps its
   * recorded region, and every sprite new in `d` has none yet.
   */
  ghost predicate Grown(d0: map<Sprite, Region>, d: map<Sprite, Region>)
  {
    && (forall s | s in d0 :: s in d && d[s] == d0[s])
    && (forall s | s in d && s !in d0 :: d[s] == NoRegion)
  }

  lemma GrownTrans(d0: map<Sprite, Region>, d1: map<Sprite, Region>, d2: map<Sprite, Region>)
    requires Grown(d0, d1) && Grown(d1, d2)
    ensures Grown(d0, d2)
  {
  }

  /** Two dictionaries that agree on `order` record the same regions for it. */
  lemma {:induction false} RegionsAgree(d0: map<Sprite, Region>, d1: map<Sprite, Region>, order: seq<Sprite>)
    requires forall t | t in d1 :: t in d0 && d1[t] == d0[t]
    requires forall t | t in order :: t in d1
    ensures forall t | t in order :: t in d0
    ensures RegionsOf(d1, order) == RegionsOf(d0, order)
  {
  }

  /**
   * `d` is what is left of the dictionary `d0` once the members listed in
   * `order` were removed one at a time, in that order, each appending the
   * region drawn for it, if any, to the lost regions `lost0`, giving `lost`.
   */
  ghost predicate Removal(d0: map<Sprite, Region>, d: map<Sprite, Region>, order: seq<Sprite>,
                          lost0: seq<Rect>, lost: seq<Rect>)
  {
    && (forall s | s in d :: s in d0 && d[s] == d0[s])
    && (forall s | s in order :: s in d0)
    && Lists(order, d0.Keys - d.Keys)
    && lost == lost0 + DrawnRects(RegionsOf(d0, order))
  }

  /** Removing nothing. */
  lemma RemovalNone(d: map<Sprite, Region>, lost: seq<Rect>)
    ensures Removal(d, d, [], lost, lost)
  {
    assert d.Keys - d.Keys == {};
  }

  /** `remove_internal` of one member. */
  lemma RemovalOne(d: map<Sprite, Region>, s: Sprite, lost: seq<Rect>)
    requires s in d
    ensures Removal(d, d - {s}, [s], lost, lost + DrawnRects([d[s]]))
  {
    assert RegionsOf(d, [s]) == [d[s]];
    assert d.Keys - (d - {s}).Keys == {s};
  }

  /** Two removals one after the other are one removal, in the concatenated order. */
  lemma {:induction false} RemovalTrans(d0: map<Sprite, Region>, d1: map<Sprite, Region>, d2: map<Sprite, Region>,
                                        o1: seq<Sprite>, o2: seq<Sprite>, l0: seq<Rect>, l1: seq<Rect>, l2: seq<Rect>)
    requires Removal(d0, d1, o1, l0, l1) && Removal(d1, d2, o2, l1, l2)
    ensures Removal(d0, d2, o1 + o2, l0, l2)
  {
    ListsConcat(o1, d0.Keys - d1.Keys, o2, d1.Keys - d2.Keys);
    assert (d0.Keys - d1.Keys) + (d1.Keys - d2.Keys) == d0.Keys - d2.Keys;
    RegionsAgree(d0, d1, o2);
    var a, b := DrawnRects(RegionsOf(d0, o1)), DrawnRects(RegionsOf(d0, o2));
    LostAppend(d0, o1, o2);
    calc {
      l2;
      (l0 + a) + b;
      { SeqAssoc(l0, a, b); }
      l0 + (a + b);
    }
  }

  lemma SeqAssoc<T>(a: seq<T>, b: seq<T>, c: seq<T>)
    ensures (a + b) + c == a + (b + c)
  {
  }
}
