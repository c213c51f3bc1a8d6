/**
 * What drawing a sprite returns, as a function of a snapshot of every
 * sprite's state: a plain sprite blits its image, an aggregate returns the
 * union of what its children return. Also the only state a draw changes
 * (the image getter's re-derived `rect` and `dirty`) and why that change
 * never alters what any later draw returns.
 */
module Scene {
  import opened Geometry
  import opened Visual

  /** The part of one sprite that drawing reads or writes. */
  datatype Node<S> = Node(aggregated: bool, sprites: seq<S>, look: Look, dirty: bool)

  /**
   * Every aggregate's children are in the snapshot and rank strictly lower
   * than it: the aggregate tree has no cycle, so drawing terminates.
   */
  ghost predicate Ranked<S>(m: map<S, Node<S>>, rank: map<S, nat>)
  {
    forall s | s in m ::
      s in rank &&
      (m[s].aggregated ==> forall c | c in m[s].sprites :: c in m && c in rank && rank[c] < rank[s])
  }

  /**
   * What `s.draw(surface)` returns: `Sprite.draw` for a plain sprite;
   * for an aggregate, the union of its children's non-zero results seeded
   * with `Rect(0, 0, 0, 0)`, or the first exception a child raises.
   */
  ghost function DrawOutcome<S>(m: map<S, Node<S>>, s: S, rank: map<S, nat>, b: Backend): (r: Result<Region>)
    requires s in m && Ranked(m, rank)
    ensures !m[s].aggregated && !m[s].look.visible ==> r == Ok(NoRegion)
    ensures (m[s].aggregated || m[s].look.visible) && r.Ok? ==> r.value.Drawn?
    decreases rank[s] + 1, 0
  {
    if !m[s].aggregated then LeafDraw(m[s].look, b)
    else
      match ChildOutcomes(m, m[s].sprites, rank, rank[s], b)
      case Err(f) => Err(f)
      case Ok(rs) => Ok(Drawn(UnionAll(EmptyRect, DrawnRects(rs))))
  }

  /** The children's draw results in order, or the first exception. */
  ghost function ChildOutcomes<S>(m: map<S, Node<S>>, cs: seq<S>, rank: map<S, nat>, k: nat, b: Backend)
    : (r: Result<seq<Region>>)
    requires Ranked(m, rank)
    requires forall c | c in cs :: c in m && c in rank && rank[c] < k
    ensures r.Ok? ==> |r.value| == |cs|
    ensures r.Err? ==> cs != []
    decreases k, |cs|
  {
    if cs == [] then Ok([])
    else
      var init := cs[..|cs| - 1];
      assert forall c | c in init :: c in cs;
      match ChildOutcomes(m, init, rank, k, b)
      case Err(f) => Err(f)
      case Ok(rs) =>
        match DrawOutcome(m, cs[|cs| - 1], rank, b)
        case Err(f) => Err(f)
        case Ok(r) => Ok(rs + [r])
  }

  /** Child results line up with the children; an exception comes from some child. */
  lemma ChildOutcomesAt<S>(m: map<S, Node<S>>, cs: seq<S>, rank: map<S, nat>, k: nat, b: Backend)
    requires Ranked(m, rank)
    requires forall c | c in cs :: c in m && c in rank && rank[c] < k
    ensures ChildOutcomes(m, cs, rank, k, b).Ok? ==>
      forall i | 0 <= i < |cs| :: DrawOutcome(m, cs[i], rank, b) == Ok(ChildOutcomes(m, cs, rank, k, b).value[i])
    ensures ChildOutcomes(m, cs, rank, k, b).Err? ==>
      exists i | 0 <= i < |cs| :: DrawOutcome(m, cs[i], rank, b) == Err(ChildOutcomes(m, cs, rank, k, b).fault)
    ensures ChildOutcomes(m, cs, rank, k, b).Ok? <==> forall i | 0 <= i < |cs| :: DrawOutcome(m, cs[i], rank, b).Ok?
  {
    ChildOutcomesOkAt(m, cs, rank, k, b);
    ChildOutcomesErrAt(m, cs, rank, k, b);
  }

  /** When every child draws, result `i` is child `i`'s. */
  lemma {:induction false} ChildOutcomesOkAt<S>(m: map<S, Node<S>>, cs: seq<S>, rank: map<S, nat>, k: nat, b: Backend)
    requires Ranked(m, rank)
    requires forall c | c in cs :: c in m && c in rank && rank[c] < k
    ensures ChildOutcomes(m, cs, rank, k, b).Ok? ==>
      forall i | 0 <= i < |cs| :: DrawOutcome(m, cs[i], rank, b) == Ok(ChildOutcomes(m, cs, rank, k, b).value[i])
    decreases |cs|
  {
    if cs != [] {
      var n := |cs| - 1;
      var init := cs[..n];
      assert forall c | c in init :: c in cs;
      ChildOutcomesOkAt(m, init, rank, k, b);
      if ChildOutcomes(m, init, rank, k, b).Ok? {
        ChildOutcomesStep(m, cs, n, rank, k, b, ChildOutcomes(m, init, rank, k, b).value);
        assert cs[..n + 1] == cs;
        forall i | 0 <= i < n ensures init[i] == cs[i] { }
      }
    }
  }

  /** An exception among the children is some child's exception. */
  lemma {:induction false} ChildOutcomesErrAt<S>(m: map<S, Node<S>>, cs: seq<S>, rank: map<S, nat>, k: nat, b: Backend)
    requires Ranked(m, rank)
    requires forall c | c in cs :: c in m && c in rank && rank[c] < k
    ensures ChildOutcomes(m, cs, rank, k, b).Err? ==>
      exists i | 0 <= i < |cs| :: DrawOutcome(m, cs[i], rank, b) == Err(ChildOutcomes(m, cs, rank, k, b).fault)
    decreases |cs|
  {
    if cs != [] {
      var n := |cs| - 1;
      var init := cs[..n];
      assert forall c | c in init :: c in cs;
      ChildOutcomesErrAt(m, init, rank, k, b);
      match ChildOutcomes(m, init, rank, k, b)
      case Err(f) =>
        assert ChildOutcomes(m, cs, rank, k, b) == Err(f);
        var i :| 0 <= i < n && DrawOutcome(m, init[i], rank, b) == Err(f);
        assert cs[i] == init[i];
      case Ok(rs) =>
        ChildOutcomesStep(m, cs, n, rank, k, b, rs);
        assert cs[..n + 1] == cs;
    }
  }

  /**
   * The rectangles an aggregate folds are exactly those its children drew.
   */
  lemma ChildRects<S>(m: map<S, Node<S>>, cs: seq<S>, rank: map<S, nat>, k: nat, b: Backend)
    requires Ranked(m, rank)
    requires forall c | c in cs :: c in m && c in rank && rank[c] < k
    requires ChildOutcomes(m, cs, rank, k, b).Ok?
    ensures forall c, r | c in cs && DrawOutcome(m, c, rank, b) == Ok(Drawn(r)) ::
      r in DrawnRects(ChildOutcomes(m, cs, rank, k, b).value)
    ensures forall r | r in DrawnRects(ChildOutcomes(m, cs, rank, k, b).value) ::
      exists c | c in cs :: DrawOutcome(m, c, rank, b) == Ok(Drawn(r))
  {
    var rs := ChildOutcomes(m, cs, rank, k, b).value;
    ChildOutcomesAt(m, cs, rank, k, b);
    forall c, r | c in cs && DrawOutcome(m, c, rank, b) == Ok(Drawn(r))
      ensures Drawn(r) in rs
    {
      var i :| 0 <= i < |cs| && cs[i] == c;
      assert rs[i] == Drawn(r);
    }
    forall r | Drawn(r) in rs
      ensures exists c | c in cs :: DrawOutcome(m, c, rank, b) == Ok(Drawn(r))
    {
      var i :| 0 <= i < |rs| && rs[i] == Drawn(r);
      assert DrawOutcome(m, cs[i], rank, b) == Ok(Drawn(r));
    }
  }

  /**
   * An aggregate's result holds the seed `Rect(0, 0, 0, 0)` and every
   * rectangle a child drew, and is the least rectangle that does.
   */
  lemma AggregateUnion<S>(m: map<S, Node<S>>, s: S, rank: map<S, nat>, b: Backend)
    requires s in m && Ranked(m, rank) && m[s].aggregated
    requires DrawOutcome(m, s, rank, b).Ok?
    ensures DrawOutcome(m, s, rank, b).value.Drawn?
    ensures Within(EmptyRect, DrawOutcome(m, s, rank, b).value.rect)
    ensures forall c, r | c in m[s].sprites && DrawOutcome(m, c, rank, b) == Ok(Drawn(r)) ::
      Within(r, DrawOutcome(m, s, rank, b).value.rect)
    ensures forall q: Rect | Encloses(m, s, rank, b, q) :: Within(DrawOutcome(m, s, rank, b).value.rect, q)
  {
    var cs := m[s].sprites;
    var rects := DrawnRects(ChildOutcomes(m, cs, rank, rank[s], b).value);
    ChildRects(m, cs, rank, rank[s], b);
    forall q: Rect | Encloses(m, s, rank, b, q)
      ensures Within(UnionAll(EmptyRect, rects), q)
    {
      UnionAllIsLeast(EmptyRect, rects, q);
    }
  }

  /** `q` spans the origin and every rectangle a child of aggregate `s` draws. */
  ghost predicate Encloses<S>(m: map<S, Node<S>>, s: S, rank: map<S, nat>, b: Backend, q: Rect)
    requires s in m && Ranked(m, rank) && m[s].aggregated
  {
    && Within(EmptyRect, q)
    && forall c, r | c in m[s].sprites && DrawOutcome(m, c, rank, b) == Ok(Drawn(r)) :: Within(r, q)
  }

  /** An aggregate none of whose children drew anything returns `Rect(0, 0, 0, 0)`. */
  lemma AggregateNothingDrawn<S>(m: map<S, Node<S>>, s: S, rank: map<S, nat>, b: Backend)
    requires s in m && Ranked(m, rank) && m[s].aggregated
    requires forall c | c in m[s].sprites :: DrawOutcome(m, c, rank, b) == Ok(NoRegion)
    ensures DrawOutcome(m, s, rank, b) == Ok(Drawn(EmptyRect))
  {
    var cs := m[s].sprites;
    ChildOutcomesAt(m, cs, rank, rank[s], b);
    assert forall i | 0 <= i < |cs| :: DrawOutcome(m, cs[i], rank, b) == Ok(NoRegion) by {
      forall i | 0 <= i < |cs| ensures DrawOutcome(m, cs[i], rank, b) == Ok(NoRegion) {
        assert cs[i] in cs;
      }
    }
  }

  /**
   * What drawing leaves behind on one sprite: a visible plain sprite with
   * an image and a scale or rotation reads its image, which re-derives
   * `rect` and sets `dirty`; nothing else changes.
   */
  function DrawEffect<S>(n: Node<S>, b: Backend): (e: Node<S>)
    ensures e.aggregated == n.aggregated && e.sprites == n.sprites
    ensures e.look.(rect := n.look.rect) == n.look
    ensures !n.aggregated && n.look.visible ==>
      e.look == Refreshed(n.look, b.rotatedSize) && e.dirty == (n.dirty || (n.look.image.Some? && Transformed(n.look)))
    ensures n.aggregated || !n.look.visible ==> e == n
  {
    if !n.aggregated && n.look.visible && n.look.image.Some? && Transformed(n.look)
    then n.(look := Refreshed(n.look, b.rotatedSize), dirty := true)
    else n
  }

  /** `m2` is `m1` after some draws: every sprite is as it was or shows the draw effect. */
  ghost predicate Redrawn<S>(m1: map<S, Node<S>>, m2: map<S, Node<S>>, b: Backend)
  {
    m1.Keys == m2.Keys &&
    forall s | s in m1 :: m2[s] == m1[s] || m2[s] == DrawEffect(m1[s], b)
  }

  lemma RedrawnTrans<S>(m1: map<S, Node<S>>, m2: map<S, Node<S>>, m3: map<S, Node<S>>, b: Backend)
    requires Redrawn(m1, m2, b) && Redrawn(m2, m3, b)
    ensures Redrawn(m1, m3, b)
  {
    forall s | s in m1 ensures m3[s] == m1[s] || m3[s] == DrawEffect(m1[s], b) {
      RefreshedIdempotent(m1[s].look, b.rotatedSize);
    }
  }

  /**
   * Draws do not change what a later draw returns: after any sequence of
   * draws every sprite (plain or aggregate) returns what it returned before.
   */
  lemma {:induction false} OutcomeStable<S>(m1: map<S, Node<S>>, m2: map<S, Node<S>>, s: S, rank: map<S, nat>, b: Backend)
    requires s in m1 && Ranked(m1, rank) && Redrawn(m1, m2, b)
    ensures Ranked(m2, rank)
    ensures DrawOutcome(m2, s, rank, b) == DrawOutcome(m1, s, rank, b)
    decreases rank[s] + 1, 0
  {
    RankedRedrawn(m1, m2, rank, b);
    if !m1[s].aggregated {
      LeafDrawAfterRefresh(m1[s].look, b);
    } else {
      ChildOutcomesStable(m1, m2, m1[s].sprites, rank, rank[s], b);
    }
  }

  lemma {:induction false} ChildOutcomesStable<S>(m1: map<S, Node<S>>, m2: map<S, Node<S>>, cs: seq<S>, rank: map<S, nat>, k: nat, b: Backend)
    requires Ranked(m1, rank) && Redrawn(m1, m2, b)
    requires forall c | c in cs :: c in m1 && c in rank && rank[c] < k
    ensures Ranked(m2, rank)
    ensures ChildOutcomes(m2, cs, rank, k, b) == ChildOutcomes(m1, cs, rank, k, b)
    decreases k, |cs|
  {
    RankedRedrawn(m1, m2, rank, b);
    if cs != [] {
      var init := cs[..|cs| - 1];
      assert forall c | c in init :: c in cs;
      ChildOutcomesStable(m1, m2, init, rank, k, b);
      OutcomeStable(m1, m2, cs[|cs| - 1], rank, b);
    }
  }

  lemma RankedRedrawn<S>(m1: map<S, Node<S>>, m2: map<S, Node<S>>, rank: map<S, nat>, b: Backend)
    requires Ranked(m1, rank) && Redrawn(m1, m2, b)
    ensures Ranked(m2, rank)
  {
    forall s | s in m2 ensures m2[s].aggregated == m1[s].aggregated && m2[s].sprites == m1[s].sprites {
    }
  }

  /** One more child: its result is appended, or its exception ends the list. */
  lemma ChildOutcomesStep<S>(m: map<S, Node<S>>, cs: seq<S>, i: nat, rank: map<S, nat>, k: nat, b: Backend, rs: seq<Region>)
    requires Ranked(m, rank) && i < |cs|
    requires forall c | c in cs :: c in m && c in rank && rank[c] < k
    requires forall c | c in cs[..i] :: c in m && c in rank && rank[c] < k
    requires ChildOutcomes(m, cs[..i], rank, k, b) == Ok(rs)
    ensures forall c | c in cs[..i + 1] :: c in m && c in rank && rank[c] < k
    ensures DrawOutcome(m, cs[i], rank, b).Err? ==>
      ChildOutcomes(m, cs[..i + 1], rank, k, b) == Err(DrawOutcome(m, cs[i], rank, b).fault)
    ensures DrawOutcome(m, cs[i], rank, b).Ok? ==>
      ChildOutcomes(m, cs[..i + 1], rank, k, b) == Ok(rs + [DrawOutcome(m, cs[i], rank, b).value])
  {
    assert cs[..i + 1][..i] == cs[..i];
    assert forall c | c in cs[..i + 1] :: c in cs;
  }

  /** Once a prefix of the children raises, the whole list raises the same. */
  lemma {:induction false} ChildOutcomesErrExtends<S>(m: map<S, Node<S>>, cs: seq<S>, j: nat, rank: map<S, nat>, k: nat, b: Backend)
    requires Ranked(m, rank) && j <= |cs|
    requires forall c | c in cs :: c in m && c in rank && rank[c] < k
    requires forall c | c in cs[..j] :: c in m && c in rank && rank[c] < k
    requires ChildOutcomes(m, cs[..j], rank, k, b).Err?
    ensures ChildOutcomes(m, cs, rank, k, b) == ChildOutcomes(m, cs[..j], rank, k, b)
    decreases |cs|
  {
    if j < |cs| {
      var init := cs[..|cs| - 1];
      assert init[..j] == cs[..j];
      assert forall c | c in init :: c in cs;
      ChildOutcomesErrExtends(m, init, j, rank, k, b);
    } else {
      assert cs[..j] == cs;
    }
  }

  /**
   * The sprites a draw of `s` reaches: `s` itself and, for an aggregate,
   * everything its children's draws reach.
   */
  ghost function Tree<S>(m: map<S, Node<S>>, s: S, rank: map<S, nat>): (t: set<S>)
    requires s in m && Ranked(m, rank)
    ensures s in t && t <= m.Keys
    decreases rank[s]
  {
    {s} + if !m[s].aggregated then {} else set x | x in m && exists c | c in m[s].sprites :: x in Tree(m, c, rank)
  }

  /** The sprites reached by drawing every sprite of `ss`. */
  ghost function Forest<S>(m: map<S, Node<S>>, ss: set<S>, rank: map<S, nat>): set<S>
    requires Ranked(m, rank)
  {
    set x | x in m && exists s | s in ss && s in m :: x in Tree(m, s, rank)
  }

  /** The elements of `cs`, gathered from the front. */
  function Elems<S>(cs: seq<S>): set<S>
  {
    if cs == [] then {} else Elems(cs[..|cs| - 1]) + {cs[|cs| - 1]}
  }

  lemma {:induction false} ElemsAll<S>(cs: seq<S>)
    ensures Elems(cs) == set c | c in cs
  {
    if cs != [] {
      ElemsAll(cs[..|cs| - 1]);
      assert cs == cs[..|cs| - 1] + [cs[|cs| - 1]];
    }
  }

  lemma ElemsStep<S>(cs: seq<S>, i: nat)
    requires i < |cs|
    ensures Elems(cs[..i + 1]) == Elems(cs[..i]) + {cs[i]}
  {
    assert cs[..i + 1][..i] == cs[..i];
  }

  /** `m2` is `m1` after draws that reached no sprite outside `t`. */
  ghost predicate RedrawnWithin<S>(m1: map<S, Node<S>>, m2: map<S, Node<S>>, t: set<S>, b: Backend)
  {
    Redrawn(m1, m2, b) && forall s | s in m1 && s !in t :: m2[s] == m1[s]
  }

  /** `m2` is `m1` after every sprite of `t`, and no other, has been drawn. */
  ghost predicate RedrawnExactly<S>(m1: map<S, Node<S>>, m2: map<S, Node<S>>, t: set<S>, b: Backend)
  {
    m1.Keys == m2.Keys && forall s | s in m1 :: m2[s] == if s in t then DrawEffect(m1[s], b) else m1[s]
  }

  lemma ExactlyWithin<S>(m1: map<S, Node<S>>, m2: map<S, Node<S>>, t: set<S>, b: Backend)
    requires RedrawnExactly(m1, m2, t, b)
    ensures RedrawnWithin(m1, m2, t, b)
  {
  }

  /** Drawing a sprite twice leaves it as drawing it once does. */
  lemma ExactlyTrans<S>(m1: map<S, Node<S>>, m2: map<S, Node<S>>, m3: map<S, Node<S>>, t1: set<S>, t2: set<S>, b: Backend)
    requires RedrawnExactly(m1, m2, t1, b) && RedrawnExactly(m2, m3, t2, b)
    ensures RedrawnExactly(m1, m3, t1 + t2, b)
  {
    forall s | s in m1 && s in t1 && s in t2 ensures m3[s] == DrawEffect(m1[s], b) {
      RefreshedIdempotent(m1[s].look, b.rotatedSize);
    }
  }

  lemma WithinTrans<S>(m1: map<S, Node<S>>, m2: map<S, Node<S>>, m3: map<S, Node<S>>, t1: set<S>, t2: set<S>, b: Backend)
    requires RedrawnWithin(m1, m2, t1, b) && RedrawnWithin(m2, m3, t2, b)
    ensures RedrawnWithin(m1, m3, t1 + t2, b)
  {
    RedrawnTrans(m1, m2, m3, b);
  }

  /** What a draw reaches depends only on the aggregate tree, which draws leave alone. */
  lemma {:induction false} TreeStable<S>(m1: map<S, Node<S>>, m2: map<S, Node<S>>, s: S, rank: map<S, nat>, b: Backend)
    requires s in m1 && Ranked(m1, rank) && Redrawn(m1, m2, b)
    ensures Ranked(m2, rank) && Tree(m2, s, rank) == Tree(m1, s, rank)
    decreases rank[s]
  {
    RankedRedrawn(m1, m2, rank, b);
    if m1[s].aggregated {
      forall c | c in m1[s].sprites ensures Tree(m2, c, rank) == Tree(m1, c, rank) {
        TreeStable(m1, m2, c, rank, b);
      }
    }
  }

  /** An aggregate reaches itself and what its children reach. */
  lemma TreeOfAggregate<S>(m: map<S, Node<S>>, s: S, rank: map<S, nat>)
    requires s in m && Ranked(m, rank) && m[s].aggregated
    ensures Tree(m, s, rank) == {s} + Forest(m, (set c | c in m[s].sprites), rank)
  {
  }

  /** One more sprite drawn: the forest grows by its tree. */
  lemma ForestAdd<S>(m: map<S, Node<S>>, ss: set<S>, s: S, rank: map<S, nat>)
    requires s in m && Ranked(m, rank)
    ensures Forest(m, ss + {s}, rank) == Forest(m, ss, rank) + Tree(m, s, rank)
  {
    forall x | x in Forest(m, ss + {s}, rank) && x !in Tree(m, s, rank) ensures x in Forest(m, ss, rank) {
      var c :| c in ss + {s} && c in m && x in Tree(m, c, rank);
    }
  }

  lemma ForestMono<S>(m: map<S, Node<S>>, ss: set<S>, tt: set<S>, rank: map<S, nat>)
    requires ss <= tt && Ranked(m, rank)
    ensures Forest(m, ss, rank) <= Forest(m, tt, rank)
  {
  }

  /**
   * One more sprite `s` of `all` drawn after those of `done`: the draws so
   * far reach nothing outside the forest of `all`, and when `s`'s draw
   * completes, they have drawn exactly the forest of `done` and `s`.
   */
  lemma DrawnStep<S>(m0: map<S, Node<S>>, m1: map<S, Node<S>>, m2: map<S, Node<S>>, done: set<S>, s: S,
                     all: set<S>, rank: map<S, nat>, b: Backend)
    requires done <= all && s in all && s in m0 && Ranked(m0, rank)
    requires RedrawnExactly(m0, m1, Forest(m0, done, rank), b)
    requires RedrawnWithin(m1, m2, Tree(m0, s, rank), b)
    ensures RedrawnWithin(m0, m2, Forest(m0, all, rank), b)
    ensures RedrawnExactly(m1, m2, Tree(m0, s, rank), b) ==>
      RedrawnExactly(m0, m2, Forest(m0, done + {s}, rank), b)
  {
    ForestAdd(m0, done, s, rank);
    ForestMono(m0, done + {s}, all, rank);
    ExactlyWithin(m0, m1, Forest(m0, done, rank), b);
    WithinTrans(m0, m1, m2, Forest(m0, done, rank), Tree(m0, s, rank), b);
    if RedrawnExactly(m1, m2, Tree(m0, s, rank), b) {
      ExactlyTrans(m0, m1, m2, Forest(m0, done, rank), Tree(m0, s, rank), b);
    }
  }

  /**
   * An aggregate's own node is not changed by drawing, so drawing its
   * first `j` children stays within its tree, and drawing all of them
   * draws exactly its tree.
   */
  lemma AggregateReach<S>(m0: map<S, Node<S>>, m2: map<S, Node<S>>, s: S, j: nat, rank: map<S, nat>, b: Backend)
    requires s in m0 && Ranked(m0, rank) && m0[s].aggregated && j <= |m0[s].sprites|
    ensures RedrawnWithin(m0, m2, Forest(m0, Elems(m0[s].sprites[..j]), rank), b) ==>
      RedrawnWithin(m0, m2, Tree(m0, s, rank), b)
    ensures RedrawnExactly(m0, m2, Forest(m0, Elems(m0[s].sprites), rank), b) ==>
      RedrawnExactly(m0, m2, Tree(m0, s, rank), b)
  {
    var cs := m0[s].sprites;
    ElemsAll(cs[..j]);
    ElemsAll(cs);
    assert forall c | c in cs[..j] :: c in cs;
    TreeOfAggregate(m0, s, rank);
    ForestMono(m0, Elems(cs[..j]), Elems(cs), rank);
  }
}
