/**
 * Pre-order traversal of the visible tree: `next` goes down if it can,
 * else right, else climbs through the visible ancestors until one of them
 * has a right neighbour.
 */
module Preorder {
  import opened Wrappers
  import opened TSZipper
  import opened VisibleTree

  /** Climbs to each visible ancestor in turn and returns the first right neighbour found. */
  function ClimbRight(aliases: AliasTable, z: Zipper): (r: Option<Zipper>)
    requires Valid(z)
    ensures r.Some? ==> Valid(r.value) && Visible(aliases, r.value)
    ensures r.Some? ==> After(r.value) + Size(r.value.node) <= After(z)
    ensures r.Some? && Consistent(z) ==> Consistent(r.value)
    ensures r.Some? ==> Top(r.value) == Top(z)
    decreases Depth(z)
  {
    match Up(aliases, z)
    case None => None
    case Some(u) =>
      var right := Right(aliases, u);
      if right.Some? then right else ClimbRight(aliases, u)
  }

  /** The next visible position in pre-order, none after the last one. */
  function Next(aliases: AliasTable, z: Zipper): (r: Option<Zipper>)
    requires Valid(z)
    ensures r.Some? ==> Valid(r.value) && Visible(aliases, r.value)
    ensures r.Some? ==> After(r.value) + Size(r.value.node) < After(z) + Size(z.node)
    ensures r.Some? && Consistent(z) ==> Consistent(r.value)
    ensures r.Some? ==> Top(r.value) == Top(z)
  {
    var down := Down(aliases, z);
    if down.Some? then down
    else
      var right := Right(aliases, z);
      if right.Some? then right else ClimbRight(aliases, z)
  }

  /** `next` as a loop over the ancestors. */
  method NextLoop(aliases: AliasTable, z: Zipper) returns (r: Option<Zipper>)
    requires Valid(z)
    ensures r == Next(aliases, z)
  {
    var down := Down(aliases, z);
    if down.Some? {
      return down;
    }
    var right := Right(aliases, z);
    if right.Some? {
      return right;
    }
    var cur := Up(aliases, z);
    while cur.Some?
      invariant cur.Some? ==> Valid(cur.value)
      invariant ClimbRight(aliases, z) ==
        if cur.Some? then
          (var rr := Right(aliases, cur.value); if rr.Some? then rr else ClimbRight(aliases, cur.value))
        else None
      decreases if cur.Some? then Depth(cur.value) + 1 else 0
    {
      right := Right(aliases, cur.value);
      if right.Some? {
        return right;
      }
      cur := Up(aliases, cur.value);
    }
    return None;
  }

  /** The symbols of the visible positions from `z` onwards, in pre-order. */
  function Traverse(aliases: AliasTable, z: Zipper): (r: seq<nat>)
    requires Valid(z)
    ensures |r| >= 1 && r[0] == z.node.symbol
    decreases After(z) + Size(z.node)
  {
    match Next(aliases, z)
    case None => [z.node.symbol]
    case Some(n) => [z.node.symbol] + Traverse(aliases, n)
  }

  /** A walk visits each remaining concrete node at most once: no more symbols than nodes from `z` on. */
  lemma {:induction false} TraverseBounded(aliases: AliasTable, z: Zipper)
    requires Valid(z)
    ensures |Traverse(aliases, z)| <= After(z) + Size(z.node)
    decreases After(z) + Size(z.node)
  {
    match Next(aliases, z)
    case None =>
    case Some(n) => TraverseBounded(aliases, n);
  }

  // ---------------------------------------------------------------------
  // The visible pre-order as a reference.

  /** The visible positions strictly below `z`, in pre-order. */
  function Below(aliases: AliasTable, z: Zipper): seq<Zipper>
    decreases z.node, 1
  {
    BelowParts(aliases, z, 0, |z.node.children|)
  }

  /** The visible positions in the subtrees of children `i` to `j - 1` of `p`, in pre-order. */
  function BelowParts(aliases: AliasTable, p: Zipper, i: nat, j: nat): seq<Zipper>
    requires i <= j <= |p.node.children|
    decreases p.node, 0, j - i
  {
    if i == j then []
    else
      var c := ChildZipper(p, i);
      (if Visible(aliases, c) then [c] else []) + Below(aliases, c) + BelowParts(aliases, p, i + 1, j)
  }

  /** The visible positions after `z`'s subtree, in pre-order. */
  function Beyond(aliases: AliasTable, z: Zipper): seq<Zipper>
    requires Valid(z)
    decreases z
  {
    match z.parent
    case None => []
    case Some(p) => BelowParts(aliases, p, z.childIndex + 1, |p.node.children|) + Beyond(aliases, p)
  }

  /** Those of them still inside the subtree of `z`'s nearest visible ancestor. */
  function BeyondWithin(aliases: AliasTable, z: Zipper): seq<Zipper>
    requires Valid(z)
    decreases z
  {
    match z.parent
    case None => []
    case Some(p) =>
      BelowParts(aliases, p, z.childIndex + 1, |p.node.children|) +
      (if Visible(aliases, p) then [] else BeyondWithin(aliases, p))
  }

  /** The symbols of a sequence of positions. */
  function Symbols(s: seq<Zipper>): (r: seq<nat>)
    ensures |r| == |s|
  {
    if s == [] then [] else [s[0].node.symbol] + Symbols(s[1..])
  }

  /** A subtree holds a visible position exactly when it has a visible child. */
  lemma {:induction false} BelowEmpty(aliases: AliasTable, z: Zipper)
    ensures Below(aliases, z) == [] <==> VisibleChildren(aliases, z) == []
    decreases z.node, 1
  {
    BelowPartsEmpty(aliases, z, 0, |z.node.children|);
  }

  lemma {:induction false} BelowPartsEmpty(aliases: AliasTable, p: Zipper, i: nat, j: nat)
    requires i <= j <= |p.node.children|
    ensures BelowParts(aliases, p, i, j) == [] <==> Parts(aliases, p, i, j) == []
    decreases p.node, 0, j - i
  {
    if i < j {
      BelowEmpty(aliases, ChildZipper(p, i));
      BelowPartsEmpty(aliases, p, i + 1, j);
    }
  }

  /** Past `z`'s subtree, pre-order runs to the end of the nearest visible ancestor's subtree and then past that ancestor. */
  lemma {:induction false} BeyondThroughUp(aliases: AliasTable, z: Zipper)
    requires Valid(z)
    ensures Beyond(aliases, z) ==
      BeyondWithin(aliases, z) + match Up(aliases, z) case None => [] case Some(u) => Beyond(aliases, u)
    decreases z
  {
    match z.parent
    case None =>
    case Some(p) =>
      if !Visible(aliases, p) {
        BeyondThroughUp(aliases, p);
      }
  }

  /** A position itself, when it is visible. */
  function Lead(aliases: AliasTable, z: Zipper): seq<Zipper> {
    if Visible(aliases, z) then [z] else []
  }

  /** Four sequences joined left to right, regrouped to the right. */
  lemma Regroup<T>(a: seq<T>, b: seq<T>, c: seq<T>, d: seq<T>)
    ensures a + b + c + d == a + (b + (c + d))
  {
  }

  /** Pre-order from a node passes through its first child. */
  lemma FirstChildSplit(aliases: AliasTable, z: Zipper)
    requires Valid(z) && |z.node.children| > 0
    ensures var c := ChildZipper(z, 0);
      Below(aliases, z) + Beyond(aliases, z) == Lead(aliases, c) + (Below(aliases, c) + Beyond(aliases, c))
  {
    var c := ChildZipper(z, 0);
    var rest := BelowParts(aliases, z, 1, |z.node.children|);
    FirstChildBelow(aliases, z);
    assert Beyond(aliases, c) == rest + Beyond(aliases, z);
    Regroup(Lead(aliases, c), Below(aliases, c), rest, Beyond(aliases, z));
  }

  /** Below a node come its first child, what is below that child, then the later children's parts. */
  lemma FirstChildBelow(aliases: AliasTable, z: Zipper)
    requires |z.node.children| > 0
    ensures var c := ChildZipper(z, 0);
      Below(aliases, z) == Lead(aliases, c) + Below(aliases, c) + BelowParts(aliases, z, 1, |z.node.children|)
  {
  }

  /** Past the first child, within the nearest visible ancestor, come the later children, then what follows a hidden node. */
  lemma FirstChildWithin(aliases: AliasTable, z: Zipper)
    requires Valid(z) && |z.node.children| > 0
    ensures BeyondWithin(aliases, ChildZipper(z, 0)) ==
      BelowParts(aliases, z, 1, |z.node.children|) + (if Visible(aliases, z) then [] else BeyondWithin(aliases, z))
  {
  }

  /** Pre-order past child `k` passes through child `k + 1`. */
  lemma SiblingSplit(aliases: AliasTable, p: Zipper, k: nat)
    requires Valid(p) && k + 1 < |p.node.children|
    ensures var z := ChildZipper(p, k); var c := ChildZipper(p, k + 1);
      Beyond(aliases, z) == Lead(aliases, c) + (Below(aliases, c) + Beyond(aliases, c)) &&
      BeyondWithin(aliases, z) == Lead(aliases, c) + (Below(aliases, c) + BeyondWithin(aliases, c))
  {
    var c := ChildZipper(p, k + 1);
    var rest := BelowParts(aliases, p, k + 2, |p.node.children|);
    var within := if Visible(aliases, p) then [] else BeyondWithin(aliases, p);
    Regroup(Lead(aliases, c), Below(aliases, c), rest, Beyond(aliases, p));
    Regroup(Lead(aliases, c), Below(aliases, c), rest, within);
  }

  /**
   * `down` finds the next visible position in pre-order; when it finds
   * nothing, the subtree holds no visible position.
   */
  lemma {:induction false} DownInPreorder(aliases: AliasTable, z: Zipper)
    requires WellFormed(aliases, z)
    ensures Down(aliases, z).None? ==> Below(aliases, z) == []
    ensures Down(aliases, z).Some? ==> var r := Down(aliases, z).value;
      Below(aliases, z) + Beyond(aliases, z) == [r] + (Below(aliases, r) + Beyond(aliases, r))
    decreases After(z) + Size(z.node), 0, 0
  {
    if |z.node.children| > 0 {
      var res := ChildZipper(z, 0);
      assert FirstChild(z) == res;
      FirstChildMeasure(z);
      FirstChildSplit(aliases, z);
      FirstChildBelow(aliases, z);
      FirstChildWithin(aliases, z);
      if Visible(aliases, res) {
        assert Down(aliases, z) == Some(res);
      } else {
        CandidateShows(aliases, z, 0);
        BelowEmpty(aliases, res);
        assert Lead(aliases, res) == [];
        if res.node.visibleChildCount > 0 {
          assert Down(aliases, z) == Down(aliases, res);
          DownInPreorder(aliases, res);
          assert Below(aliases, res) != [];
        } else {
          assert Down(aliases, z) == Right(aliases, res);
          assert Below(aliases, res) == [];
          RightInPreorder(aliases, res);
        }
      }
    }
  }

  /**
   * `right` finds the next visible position in pre-order past `z`'s
   * subtree; when it finds nothing, none is left inside the nearest visible
   * ancestor.
   */
  lemma {:induction false} RightInPreorder(aliases: AliasTable, z: Zipper)
    requires WellFormed(aliases, z)
    ensures Right(aliases, z).None? ==> BeyondWithin(aliases, z) == []
    ensures Right(aliases, z).Some? ==> var r := Right(aliases, z).value;
      Beyond(aliases, z) == [r] + (Below(aliases, r) + Beyond(aliases, r))
    decreases After(z), 1, Depth(z)
  {
    match z.parent
    case None =>
    case Some(p) =>
      var n := |p.node.children|;
      if z.childIndex == n - 1 {
        RightFromLastStep(aliases, z);
        LastChildMeasure(z);
        if !Visible(aliases, p) {
          assert Right(aliases, z) == Right(aliases, p);
          RightInPreorder(aliases, p);
        }
      } else {
        RightPastSibling(aliases, z);
      }
  }

  /** The case of `RightInPreorder` where `z` has a next sibling. */
  lemma {:induction false} RightPastSibling(aliases: AliasTable, z: Zipper)
    requires WellFormed(aliases, z) && HasNext(z)
    ensures Right(aliases, z).None? ==> BeyondWithin(aliases, z) == []
    ensures Right(aliases, z).Some? ==> var r := Right(aliases, z).value;
      Beyond(aliases, z) == [r] + (Below(aliases, r) + Beyond(aliases, r))
    decreases After(z), 1, 0
  {
    var res := NextSibling(z);
    if Visible(aliases, res) {
      SiblingWellFormed(aliases, z);
      RightLooksAtSibling(aliases, z);
      SiblingSplit(aliases, z.parent.value, z.childIndex);
      assert Beyond(aliases, z) == Lead(aliases, res) + (Below(aliases, res) + Beyond(aliases, res));
      assert Right(aliases, z) == Some(res);
      assert Lead(aliases, res) == [res];
    } else {
      RightPastHiddenSibling(aliases, z);
    }
  }

  /** The case of `RightPastSibling` where the next sibling is hidden. */
  lemma {:induction false} RightPastHiddenSibling(aliases: AliasTable, z: Zipper)
    requires WellFormed(aliases, z) && HasNext(z) && !Visible(aliases, NextSibling(z))
    ensures Right(aliases, z).None? ==> BeyondWithin(aliases, z) == []
    ensures Right(aliases, z).Some? ==> var r := Right(aliases, z).value;
      Beyond(aliases, z) == [r] + (Below(aliases, r) + Beyond(aliases, r))
    decreases After(z), 0, 1
  {
    var p := z.parent.value;
    var res := NextSibling(z);
    SiblingWellFormed(aliases, z);
    NextSiblingMeasure(z);
    RightLooksAtSibling(aliases, z);
    SiblingSplit(aliases, p, z.childIndex);
    var onward := Below(aliases, res) + Beyond(aliases, res);
    assert Beyond(aliases, z) == Lead(aliases, res) + onward;
    assert Lead(aliases, res) == [];
    assert Beyond(aliases, z) == onward;
    DownInPreorder(aliases, res);
    if Down(aliases, res).None? {
      assert Right(aliases, z) == Right(aliases, res);
      assert onward == Beyond(aliases, res);
      RightInPreorder(aliases, res);
    } else {
      assert Right(aliases, z) == Down(aliases, res);
    }
  }

  /** From the last child, `right` is the parent's `right`, or nothing under a visible parent. */
  lemma RightFromLastStep(aliases: AliasTable, z: Zipper)
    requires WellFormed(aliases, z) && z.parent.Some? && z.childIndex == |z.parent.value.node.children| - 1
    ensures var p := z.parent.value;
      WellFormed(aliases, p) &&
      Right(aliases, z) == (if Visible(aliases, p) then None else Right(aliases, p)) &&
      Beyond(aliases, z) == Beyond(aliases, p) &&
      BeyondWithin(aliases, z) == (if Visible(aliases, p) then [] else BeyondWithin(aliases, p))
  {
    var p := z.parent.value;
    assert BelowParts(aliases, p, z.childIndex + 1, |p.node.children|) == [];
  }

  /** The next sibling of a well-formed position is well formed, and is the next child of the parent. */
  lemma SiblingWellFormed(aliases: AliasTable, z: Zipper)
    requires WellFormed(aliases, z) && HasNext(z)
    ensures NextSibling(z) == ChildZipper(z.parent.value, z.childIndex + 1)
    ensures z == ChildZipper(z.parent.value, z.childIndex)
    ensures WellFormed(aliases, NextSibling(z))
  {
    var p := z.parent.value;
    assert z == ChildZipper(p, z.childIndex);
    NextChildZipper(p, z.childIndex);
    ChildWellFormed(aliases, p, z.childIndex + 1);
  }

  /** With a next sibling, `right` returns it when visible, enters it when `down` finds something, and skips it otherwise. */
  lemma RightLooksAtSibling(aliases: AliasTable, z: Zipper)
    requires Valid(z) && HasNext(z)
    ensures var c := NextSibling(z);
      Right(aliases, z) ==
        (if Visible(aliases, c) then Some(c) else if Down(aliases, c).Some? then Down(aliases, c) else Right(aliases, c))
  {
  }

  /** Climbing finds the next visible position past `z`'s subtree when none is left inside the nearest visible ancestor. */
  lemma {:induction false} ClimbRightInPreorder(aliases: AliasTable, z: Zipper)
    requires WellFormed(aliases, z) && BeyondWithin(aliases, z) == []
    ensures match ClimbRight(aliases, z)
      case None => Beyond(aliases, z) == []
      case Some(r) => Beyond(aliases, z) == [r] + (Below(aliases, r) + Beyond(aliases, r))
    decreases Depth(z)
  {
    BeyondThroughUp(aliases, z);
    match Up(aliases, z)
    case None =>
    case Some(u) =>
      RightInPreorder(aliases, u);
      if Right(aliases, u).None? {
        ClimbRightInPreorder(aliases, u);
      }
  }

  /** `next` is the pre-order successor among the visible positions, and finds nothing after the last one. */
  lemma NextInPreorder(aliases: AliasTable, z: Zipper)
    requires WellFormed(aliases, z)
    ensures match Next(aliases, z)
      case None => Below(aliases, z) + Beyond(aliases, z) == []
      case Some(r) => Below(aliases, z) + Beyond(aliases, z) == [r] + (Below(aliases, r) + Beyond(aliases, r))
  {
    DownInPreorder(aliases, z);
    if Down(aliases, z).Some? {
      assert Next(aliases, z) == Down(aliases, z);
    } else {
      assert Below(aliases, z) == [];
      assert Below(aliases, z) + Beyond(aliases, z) == Beyond(aliases, z);
      RightInPreorder(aliases, z);
      if Right(aliases, z).None? {
        assert Next(aliases, z) == ClimbRight(aliases, z);
        ClimbRightInPreorder(aliases, z);
      } else {
        assert Next(aliases, z) == Right(aliases, z);
      }
    }
  }

  /**
   * A walk from `z` lists `z` and then every visible position after it in
   * pre-order, each once.
   */
  lemma {:induction false} TraverseIsPreorder(aliases: AliasTable, z: Zipper)
    requires WellFormed(aliases, z)
    ensures Traverse(aliases, z) == [z.node.symbol] + Symbols(Below(aliases, z) + Beyond(aliases, z))
    decreases After(z) + Size(z.node)
  {
    NextInPreorder(aliases, z);
    match Next(aliases, z)
    case None =>
    case Some(r) =>
      TraverseIsPreorder(aliases, r);
      var rest := [r] + (Below(aliases, r) + Beyond(aliases, r));
      assert rest[1..] == Below(aliases, r) + Beyond(aliases, r);
  }

  /** From the root, a walk lists the root and then every visible position of the tree in pre-order. */
  lemma TraverseFromRoot(aliases: AliasTable, z: Zipper)
    requires WellFormed(aliases, z) && z.parent.None?
    ensures Traverse(aliases, z) == [z.node.symbol] + Symbols(Below(aliases, z))
  {
    TraverseIsPreorder(aliases, z);
    assert Below(aliases, z) + Beyond(aliases, z) == Below(aliases, z);
  }
}
