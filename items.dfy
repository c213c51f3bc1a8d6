/**
 * The arguments of `Group.add`, `Group.remove` and `Group.has`, which the
 * source tells apart by probing them (`isinstance(x, Sprite)`, "is it
 * iterable?", `hasattr(x, '_spritegroup')`), as an explicit variant, and
 * the flattening rules those operations share.
 */
module Items {

  /**
   * A sprite; a nested iterable of further arguments; or a group, which is
   * iterated for the sprites it holds at the moment it is reached.
   */
  datatype Item<Spr, Grp> = S(sprite: Spr) | Nested(items: seq<Item<Spr, Grp>>) | G(group: Grp)

  /** Every group mentioned in `items`, at any depth. */
  function GroupsIn<Spr, Grp>(items: seq<Item<Spr, Grp>>): set<Grp>
    decreases items
  {
    if items == [] then {}
    else
      GroupsIn(items[..|items| - 1]) +
      match items[|items| - 1]
      case S(_) => {}
      case Nested(xs) => GroupsIn(xs)
      case G(g) => {g}
  }

  /**
   * The sprites `items` stand for once flattened, where `keysOf` gives the
   * members of each mentioned group.
   */
  function Named<Spr, Grp>(items: seq<Item<Spr, Grp>>, keysOf: map<Grp, set<Spr>>): set<Spr>
    requires GroupsIn(items) <= keysOf.Keys
    decreases items
  {
    if items == [] then {}
    else
      var init := items[..|items| - 1];
      assert GroupsIn(init) <= GroupsIn(items);
      Named(init, keysOf) + NamedBy(items[|items| - 1], keysOf)
  }

  function NamedBy<Spr, Grp>(it: Item<Spr, Grp>, keysOf: map<Grp, set<Spr>>): set<Spr>
    requires GroupsIn([it]) <= keysOf.Keys
    decreases it
  {
    assert [it][..0] == [];
    match it
    case S(s) => {s}
    case Nested(xs) => Named(xs, keysOf)
    case G(g) => keysOf[g]
  }

  /**
   * What `has(*items)` returns when `members` are the group's sprites: it
   * starts from False, returns False at the first argument that does not
   * check, and otherwise returns True once at least one argument checked.
   * So it answers True exactly when every sprite the arguments stand for
   * is a member and no argument (at any depth) is empty; in particular
   * `has()` with no arguments answers False, and a True answer means at
   * least one sprite was checked.
   */
  function Holds<Spr, Grp>(items: seq<Item<Spr, Grp>>, keysOf: map<Grp, set<Spr>>, members: set<Spr>): (r: bool)
    requires GroupsIn(items) <= keysOf.Keys
    ensures r <==> NoneEmpty(items, keysOf) && Named(items, keysOf) <= members
    ensures r ==> Named(items, keysOf) != {}
    decreases items, 2
  {
    AllHoldExactly(items, keysOf, members);
    items != [] && AllHold(items, keysOf, members)
  }

  /** Every argument in `items` checks (true of no arguments). */
  function AllHold<Spr, Grp>(items: seq<Item<Spr, Grp>>, keysOf: map<Grp, set<Spr>>, members: set<Spr>): bool
    requires GroupsIn(items) <= keysOf.Keys
    decreases items, 0
  {
    if items == [] then true
    else
      var init := items[..|items| - 1];
      assert GroupsIn(init) <= GroupsIn(items);
      AllHold(init, keysOf, members) && HoldsBy(items[|items| - 1], keysOf, members)
  }

  /**
   * One argument checks: a sprite that is a member; a nested iterable for
   * which `has` itself answers True; a group, iterated, all of whose
   * sprites are members, provided it has at least one.
   */
  function HoldsBy<Spr, Grp>(it: Item<Spr, Grp>, keysOf: map<Grp, set<Spr>>, members: set<Spr>): bool
    requires GroupsIn([it]) <= keysOf.Keys
    decreases it
  {
    assert [it][..0] == [];
    match it
    case S(s) => s in members
    case Nested(xs) => Holds(xs, keysOf, members)
    case G(g) => keysOf[g] != {} && keysOf[g] <= members
  }

  /** The exact rule behind `Holds`, argument by argument. */
  lemma {:induction false} AllHoldExactly<Spr, Grp>(items: seq<Item<Spr, Grp>>, keysOf: map<Grp, set<Spr>>, members: set<Spr>)
    requires GroupsIn(items) <= keysOf.Keys
    ensures AllHold(items, keysOf, members) <==> AllNonEmpty(items, keysOf) && Named(items, keysOf) <= members
    ensures AllHold(items, keysOf, members) && items != [] ==> Named(items, keysOf) != {}
    decreases items, 1
  {
    if items != [] {
      var n := |items| - 1;
      var init := items[..n];
      assert GroupsIn(init) <= GroupsIn(items);
      AllHoldExactly(init, keysOf, members);
      assert [items[n]][..0] == [];
      match items[n]
      case S(s) =>
      case Nested(xs) =>
        assert HoldsBy(items[n], keysOf, members) == Holds(xs, keysOf, members);
      case G(g) =>
    }
  }

  /**
   * No argument is an empty iterable or an empty group, at any depth, and
   * there is at least one argument.
   */
  function NoneEmpty<Spr, Grp>(items: seq<Item<Spr, Grp>>, keysOf: map<Grp, set<Spr>>): bool
    requires GroupsIn(items) <= keysOf.Keys
    decreases items, 1
  {
    items != [] && AllNonEmpty(items, keysOf)
  }

  function AllNonEmpty<Spr, Grp>(items: seq<Item<Spr, Grp>>, keysOf: map<Grp, set<Spr>>): bool
    requires GroupsIn(items) <= keysOf.Keys
    decreases items, 0
  {
    if items == [] then true
    else
      var init := items[..|items| - 1];
      assert GroupsIn(init) <= GroupsIn(items);
      AllNonEmpty(init, keysOf) && NonEmptyBy(items[|items| - 1], keysOf)
  }

  function NonEmptyBy<Spr, Grp>(it: Item<Spr, Grp>, keysOf: map<Grp, set<Spr>>): bool
    requires GroupsIn([it]) <= keysOf.Keys
    decreases it
  {
    assert [it][..0] == [];
    match it
    case S(_) => true
    case Nested(xs) => NoneEmpty(xs, keysOf)
    case G(g) => keysOf[g] != {}
  }

  /** A prefix of the arguments mentions no group the whole list does not. */
  lemma {:induction false} GroupsInPrefix<Spr, Grp>(items: seq<Item<Spr, Grp>>, i: nat)
    requires i <= |items|
    ensures GroupsIn(items[..i]) <= GroupsIn(items)
    ensures i < |items| ==> GroupsIn([items[i]]) <= GroupsIn(items)
    decreases |items|
  {
    if i < |items| {
      var init := items[..|items| - 1];
      assert [items[i]][..0] == [];
      if i < |init| {
        GroupsInPrefix(init, i);
        assert init[..i] == items[..i] && init[i] == items[i];
      } else {
        assert items[..i] == init;
      }
    } else {
      assert items[..i] == items;
    }
  }

  /** A prefix of the arguments, and each argument, names no sprite the whole list does not. */
  lemma {:induction false} NamedPrefix<Spr, Grp>(items: seq<Item<Spr, Grp>>, i: nat, keysOf: map<Grp, set<Spr>>)
    requires i <= |items| && GroupsIn(items) <= keysOf.Keys
    ensures GroupsIn(items[..i]) <= GroupsIn(items)
    ensures Named(items[..i], keysOf) <= Named(items, keysOf)
    ensures i < |items| ==> GroupsIn([items[i]]) <= GroupsIn(items)
    ensures i < |items| ==> NamedBy(items[i], keysOf) <= Named(items, keysOf)
    decreases |items|
  {
    GroupsInPrefix(items, i);
    if i < |items| {
      var init := items[..|items| - 1];
      assert GroupsIn(init) <= GroupsIn(items);
      if i < |init| {
        NamedPrefix(init, i, keysOf);
        assert init[..i] == items[..i] && init[i] == items[i];
      } else {
        assert items[..i] == init;
      }
    } else {
      assert items[..i] == items;
    }
  }

  /** Once an argument fails to check, so does every longer list of arguments. */
  lemma {:induction false} AllHoldPrefix<Spr, Grp>(items: seq<Item<Spr, Grp>>, i: nat, keysOf: map<Grp, set<Spr>>, members: set<Spr>)
    requires i <= |items| && GroupsIn(items) <= keysOf.Keys
    ensures GroupsIn(items[..i]) <= GroupsIn(items)
    ensures AllHold(items, keysOf, members) ==> AllHold(items[..i], keysOf, members)
    decreases |items|
  {
    GroupsInPrefix(items, i);
    if i < |items| {
      var init := items[..|items| - 1];
      assert GroupsIn(init) <= GroupsIn(items);
      AllHoldPrefix(init, i, keysOf, members);
      assert init[..i] == items[..i];
    } else {
      assert items[..i] == items;
    }
  }

  /**
   * Whether `x` is named depends only on whether `x` belongs to each
   * mentioned group, not on the groups' other members.
   */
  lemma {:induction false} NamedPointwise<Spr, Grp>(items: seq<Item<Spr, Grp>>, k1: map<Grp, set<Spr>>, k2: map<Grp, set<Spr>>, x: Spr)
    requires GroupsIn(items) <= k1.Keys && GroupsIn(items) <= k2.Keys
    requires forall g | g in GroupsIn(items) :: (x in k1[g] <==> x in k2[g])
    ensures x in Named(items, k1) <==> x in Named(items, k2)
    decreases items
  {
    if items != [] {
      var init := items[..|items| - 1];
      var last := items[|items| - 1];
      assert GroupsIn(init) <= GroupsIn(items);
      NamedPointwise(init, k1, k2, x);
      assert [last][..0] == [];
      match last
      case S(_) =>
      case G(_) =>
      case Nested(xs) =>
        assert GroupsIn(xs) <= GroupsIn(items);
        NamedPointwise(xs, k1, k2, x);
    }
  }

  /**
   * One more argument of `has`: the first `i + 1` arguments all check
   * iff the first `i` do and argument `i` does; if argument `i` does not
   * check, not all of the arguments do.
   */
  lemma AllHoldStep<Spr, Grp>(items: seq<Item<Spr, Grp>>, i: nat, keysOf: map<Grp, set<Spr>>, members: set<Spr>)
    requires i < |items| && GroupsIn(items) <= keysOf.Keys
    ensures GroupsIn(items[..i + 1]) <= GroupsIn(items) && GroupsIn([items[i]]) <= GroupsIn(items)
    ensures GroupsIn(items[..i]) <= GroupsIn(items)
    ensures AllHold(items[..i + 1], keysOf, members) <==>
      AllHold(items[..i], keysOf, members) && HoldsBy(items[i], keysOf, members)
    ensures !HoldsBy(items[i], keysOf, members) ==> !AllHold(items, keysOf, members)
  {
    GroupsInPrefix(items, i + 1);
    GroupsInPrefix(items, i);
    assert items[..i + 1][..i] == items[..i];
    AllHoldPrefix(items, i + 1, keysOf, members);
  }

  /** The items of a list of plain sprites, such as the list `group.copy()` passes to `Group`. */
  function Singles<Spr, Grp>(ss: seq<Spr>): (items: seq<Item<Spr, Grp>>)
    ensures |items| == |ss| && forall i | 0 <= i < |ss| :: items[i] == S(ss[i])
  {
    seq(|ss|, i requires 0 <= i < |ss| => S(ss[i]))
  }

  /** Plain sprites mention no group and name exactly themselves. */
  lemma {:induction false} NamedSingles<Spr, Grp>(ss: seq<Spr>, keysOf: map<Grp, set<Spr>>)
    ensures GroupsIn(Singles<Spr, Grp>(ss)) == {}
    ensures Named(Singles<Spr, Grp>(ss), keysOf) == set x | x in ss
  {
    if ss != [] {
      var init := ss[..|ss| - 1];
      NamedSingles<Spr, Grp>(init, keysOf);
      assert Singles<Spr, Grp>(ss)[..|ss| - 1] == Singles<Spr, Grp>(init);
      assert [Singles<Spr, Grp>(ss)[|ss| - 1]][..0] == [];
      assert (set x | x in ss) == (set x | x in init) + {ss[|ss| - 1]};
    }
  }

  /**
   * One step of a loop over the arguments: if the sprites named so far
   * grow by what argument `i` names, they become those named by the
   * first `i + 1` arguments.
   */
  lemma NamedStep<Spr, Grp>(items: seq<Item<Spr, Grp>>, i: nat, keysOf: map<Grp, set<Spr>>, base: set<Spr>, grown: set<Spr>)
    requires i < |items| && GroupsIn(items) <= keysOf.Keys
    requires GroupsIn(items[..i]) <= GroupsIn(items) && GroupsIn([items[i]]) <= GroupsIn(items)
    requires grown == base + Named(items[..i], keysOf) + NamedBy(items[i], keysOf)
    ensures GroupsIn(items[..i + 1]) <= GroupsIn(items)
    ensures grown == base + Named(items[..i + 1], keysOf)
  {
    GroupsInPrefix(items, i + 1);
    assert items[..i + 1][..i] == items[..i];
  }
}
