/**
 * The visible-tree zipper over tree-sitter's concrete syntax tree.
 *
 * The concrete tree holds invisible nodes (hidden rules) and extras
 * (comments and the like). The zipper walks it but stops only at visible
 * positions: a node is visible when its own flag is set or when the alias
 * table of its parent's production renames it. The alias table is indexed by
 * the structural child index, which counts the preceding non-extra siblings.
 * Byte offsets are carried along: each step derives the new offset from the
 * previous position.
 */
module TSZipper {
  import opened Wrappers

  /** A node of the concrete tree, as the subtree readers decode it. */
  datatype Subtree = Subtree(
    symbol: nat,
    visible: bool,
    extra: bool,
    size: int,
    padding: int,
    productionId: nat,
    visibleChildCount: int,
    children: seq<Subtree>)

  /**
   * The alias rows the cursor consults: row `p` is what it reads under a
   * parent of production `p`, indexed by structural child index; 0 means
   * "no alias". Tree-sitter's own rows are the stored table
   * (`SubtreeLayout.AliasLookupScaled`); the rows jsitter's reader yields
   * are `SubtreeLayout.AsWrittenAliases`, which differ from them where the
   * unscaled row addresses overlap.
   */
  type AliasTable = seq<seq<nat>>

  /**
   * A position in the tree. `parentAliasSequence` is the production id whose
   * alias row applies to this node, 0 when the parent's production has none.
   */
  datatype Zipper = Zipper(
    parent: Option<Zipper>,
    parentAliasSequence: nat,
    node: Subtree,
    byteOffset: int,
    childIndex: int,
    structuralChildIndex: int)

  // ---------------------------------------------------------------------
  // Measures.

  /** The number of nodes of a subtree. */
  function Size(t: Subtree): (n: nat)
    ensures n >= 1
    decreases t, 1
  {
    1 + SizeAll(t.children)
  }

  function SizeAll(ts: seq<Subtree>): nat
    decreases ts, 0
  {
    if ts == [] then 0 else Size(ts[0]) + SizeAll(ts[1..])
  }

  /** Peeling the first subtree off a suffix. */
  lemma SizeAllFrom(ts: seq<Subtree>, i: nat)
    requires i < |ts|
    ensures SizeAll(ts[i..]) == Size(ts[i]) + SizeAll(ts[i + 1..])
  {
    assert ts[i..][1..] == ts[i + 1..];
  }

  /** The number of nodes that follow `z`'s subtree in pre-order. */
  function After(z: Zipper): nat
    decreases z
  {
    match z.parent
    case None => 0
    case Some(p) =>
      (if 0 <= z.childIndex < |p.node.children| then SizeAll(p.node.children[z.childIndex + 1..]) else 0) + After(p)
  }

  function Depth(z: Zipper): nat
    decreases z
  {
    match z.parent
    case None => 0
    case Some(p) => 1 + Depth(p)
  }

  /** The sum of the child indices (plus one each) along the path from the root. */
  function Rank(z: Zipper): nat
    decreases z
  {
    match z.parent
    case None => 0
    case Some(p) => Rank(p) + (if z.childIndex >= 0 then z.childIndex + 1 else 1)
  }

  /** `z` is the `childIndex`-th child of its parent, and so on up to the root. */
  predicate Valid(z: Zipper)
    decreases z
  {
    match z.parent
    case None => true
    case Some(p) =>
      0 <= z.childIndex < |p.node.children| && p.node.children[z.childIndex] == z.node && Valid(p)
  }

  // ---------------------------------------------------------------------
  // Aliases and visibility.

  /** Entry `index` of alias row `sequence`; entries outside the table read as 0. */
  function AliasAt(aliases: AliasTable, sequence: nat, index: int): nat {
    if sequence < |aliases| && 0 <= index < |aliases[sequence]| then aliases[sequence][index] else 0
  }

  /** The symbol the parent's alias row gives this node; extras are never aliased. */
  function AliasSymbol(aliases: AliasTable, z: Zipper): (r: nat)
    ensures z.parentAliasSequence == 0 || z.node.extra ==> r == 0
  {
    if z.parentAliasSequence != 0 && !z.node.extra then
      AliasAt(aliases, z.parentAliasSequence, z.structuralChildIndex)
    else
      0
  }

  /** The alias of this position, absent exactly when its alias symbol is 0. */
  function Alias(aliases: AliasTable, z: Zipper): (r: Option<nat>)
    ensures r.None? <==> AliasSymbol(aliases, z) == 0
    ensures r.Some? ==> r.value == AliasSymbol(aliases, z)
  {
    var alias := AliasSymbol(aliases, z);
    if alias != 0 then Some(alias) else None
  }

  /** Visible by its own flag or by a non-zero alias; an extra, or a node under production 0, only by its flag. */
  predicate Visible(aliases: AliasTable, z: Zipper)
    ensures z.parentAliasSequence == 0 || z.node.extra ==> (Visible(aliases, z) <==> z.node.visible)
  {
    z.node.visible || AliasSymbol(aliases, z) != 0
  }

  // ---------------------------------------------------------------------
  // Single concrete steps.

  /** The first child, whatever its visibility, with the parent's production's alias row. */
  function FirstChild(z: Zipper): (c: Zipper)
    requires |z.node.children| > 0
    ensures c.parent == Some(z) && c.node == z.node.children[0]
    ensures c.byteOffset == z.byteOffset && c.childIndex == 0 && c.structuralChildIndex == 0
    ensures c.parentAliasSequence == z.node.productionId
  {
    Zipper(Some(z), z.node.productionId, z.node.children[0], z.byteOffset, 0, 0)
  }

  predicate HasNext(z: Zipper) {
    z.parent.Some? && 0 <= z.childIndex < |z.parent.value.node.children| - 1
  }

  /** The next concrete sibling; the structural index advances past a non-extra node. */
  function NextSibling(z: Zipper): (r: Zipper)
    requires HasNext(z)
    ensures r.parent == z.parent && r.parentAliasSequence == z.parentAliasSequence
    ensures r.childIndex == z.childIndex + 1 && r.node == z.parent.value.node.children[r.childIndex]
    ensures r.byteOffset - r.node.padding == z.byteOffset + z.node.size
    ensures r.structuralChildIndex == z.structuralChildIndex <==> z.node.extra
    ensures HasPrev(r)
  {
    var p := z.parent.value;
    var sibling := p.node.children[z.childIndex + 1];
    Zipper(z.parent, z.parentAliasSequence, sibling,
      z.byteOffset + z.node.size + sibling.padding,
      z.childIndex + 1,
      if !z.node.extra then z.structuralChildIndex + 1 else z.structuralChildIndex)
  }

  predicate HasPrev(z: Zipper) {
    z.parent.Some? && 0 < z.childIndex < |z.parent.value.node.children|
  }

  /**
   * The previous concrete sibling, as `left` computes it: the structural
   * index steps back past the current node when the current node is not
   * extra.
   */
  function PrevSibling(z: Zipper): (r: Zipper)
    requires HasPrev(z)
    ensures r.parent == z.parent && r.parentAliasSequence == z.parentAliasSequence
    ensures r.childIndex == z.childIndex - 1 && r.node == z.parent.value.node.children[r.childIndex]
    ensures r.byteOffset + r.node.size == z.byteOffset - z.node.padding
    ensures r.structuralChildIndex == z.structuralChildIndex <==> z.node.extra
    ensures HasNext(r)
  {
    var p := z.parent.value;
    var sibling := p.node.children[z.childIndex - 1];
    Zipper(z.parent, z.parentAliasSequence, sibling,
      z.byteOffset - z.node.padding - sibling.size,
      z.childIndex - 1,
      if !z.node.extra then z.structuralChildIndex - 1 else z.structuralChildIndex)
  }

  /** The previous concrete sibling, stepping the structural index back past the sibling when it is not extra. */
  function PrevSiblingFixed(z: Zipper): (r: Zipper)
    requires HasPrev(z)
    ensures r.parent == z.parent && r.parentAliasSequence == z.parentAliasSequence
    ensures r.childIndex == z.childIndex - 1 && r.node == z.parent.value.node.children[r.childIndex]
    ensures r.byteOffset + r.node.size == z.byteOffset - z.node.padding
    ensures r.structuralChildIndex == z.structuralChildIndex <==> r.node.extra
    ensures HasNext(r)
  {
    var p := z.parent.value;
    var sibling := p.node.children[z.childIndex - 1];
    Zipper(z.parent, z.parentAliasSequence, sibling,
      z.byteOffset - z.node.padding - sibling.size,
      z.childIndex - 1,
      if !sibling.extra then z.structuralChildIndex - 1 else z.structuralChildIndex)
  }

  /** The next concrete sibling whatever its visibility; none past the last child or at the root. */
  function InvisibleRight(z: Zipper): (r: Option<Zipper>)
    requires Valid(z)
    ensures r.Some? <==> HasNext(z)
    ensures r.Some? ==> r.value == NextSibling(z) && Valid(r.value)
  {
    match z.parent
    case None => None
    case Some(p) =>
      if z.childIndex == |p.node.children| - 1 then None
      else Some(NextSibling(z))
  }

  // ---------------------------------------------------------------------
  // How each step shrinks the termination measures.

  lemma FirstChildMeasure(z: Zipper)
    requires |z.node.children| > 0
    ensures After(FirstChild(z)) + Size(FirstChild(z).node) + 1 == After(z) + Size(z.node)
  {
    SizeAllFrom(z.node.children, 0);
    assert z.node.children[0..] == z.node.children;
  }

  lemma NextSiblingMeasure(z: Zipper)
    requires Valid(z) && HasNext(z)
    ensures After(NextSibling(z)) + Size(NextSibling(z).node) == After(z)
  {
    SizeAllFrom(z.parent.value.node.children, z.childIndex + 1);
  }

  lemma LastChildMeasure(z: Zipper)
    requires Valid(z) && z.parent.Some? && z.childIndex == |z.parent.value.node.children| - 1
    ensures After(z.parent.value) == After(z) && Depth(z.parent.value) < Depth(z)
  {
    assert z.parent.value.node.children[z.childIndex + 1..] == [];
  }

  // ---------------------------------------------------------------------
  // Positions reached from the root.

  /** The number of non-extra nodes among the first `i` children. */
  function NonExtraBefore(cs: seq<Subtree>, i: nat): nat
    requires i <= |cs|
  {
    if i == 0 then 0 else NonExtraBefore(cs, i - 1) + (if cs[i - 1].extra then 0 else 1)
  }

  /** Where child `i` starts when its parent starts at `offset`: the first child starts with its parent. */
  function ChildStart(offset: int, cs: seq<Subtree>, i: nat): int
    requires i < |cs|
  {
    if i == 0 then offset else ChildStart(offset, cs, i - 1) + cs[i - 1].size + cs[i].padding
  }

  /** The zipper at child `k` of `z`, with every field as the root-to-node path determines it. */
  function ChildZipper(z: Zipper, k: nat): Zipper
    requires k < |z.node.children|
  {
    Zipper(Some(z), z.node.productionId, z.node.children[k],
      ChildStart(z.byteOffset, z.node.children, k), k, NonExtraBefore(z.node.children, k))
  }

  /**
   * Every position on the path from the root is the child zipper its parent
   * determines: the right node, alias row, offset, child index and
   * structural child index.
   */
  predicate Consistent(z: Zipper)
    decreases z
  {
    match z.parent
    case None => z.parentAliasSequence == 0 && z.childIndex == 0 && z.structuralChildIndex == 0
    case Some(p) => Consistent(p) && 0 <= z.childIndex < |p.node.children| && z == ChildZipper(p, z.childIndex)
  }

  lemma {:induction false} ConsistentIsValid(z: Zipper)
    requires Consistent(z)
    ensures Valid(z)
    decreases z
  {
    if z.parent.Some? {
      ConsistentIsValid(z.parent.value);
    }
  }

  /** The root of the tree `z` belongs to. */
  function Top(z: Zipper): Zipper
    decreases z
  {
    match z.parent
    case None => z
    case Some(p) => Top(p)
  }

  // ---------------------------------------------------------------------
  // Navigation.

  /** The nearest visible proper ancestor. */
  function Up(aliases: AliasTable, z: Zipper): (r: Option<Zipper>)
    requires Valid(z)
    ensures r.Some? ==> Valid(r.value) && Visible(aliases, r.value)
    ensures r.Some? ==> After(r.value) <= After(z) && Depth(r.value) < Depth(z)
    ensures r.Some? && Consistent(z) ==> Consistent(r.value)
    ensures r.Some? ==> Top(r.value) == Top(z)
    decreases z
  {
    match z.parent
    case None => None
    case Some(p) => if Visible(aliases, p) then Some(p) else Up(aliases, p)
  }

  /**
   * The first visible position below `z`: the first child if it is visible,
   * else into it when it has visible children, else onwards to the right.
   */
  function Down(aliases: AliasTable, z: Zipper): (r: Option<Zipper>)
    requires Valid(z)
    ensures r.Some? ==> Valid(r.value) && Visible(aliases, r.value)
    ensures r.Some? ==> After(r.value) + Size(r.value.node) < After(z) + Size(z.node)
    ensures r.Some? && Consistent(z) ==> Consistent(r.value)
    ensures r.Some? ==> Top(r.value) == Top(z)
    ensures r.Some? ==> Up(aliases, r.value) == if Visible(aliases, z) then Some(z) else Up(aliases, z)
    decreases After(z) + Size(z.node), 0, 0
  {
    if |z.node.children| == 0 then None
    else
      var res := FirstChild(z);
      FirstChildMeasure(z);
      if Visible(aliases, res) then Some(res)
      else if res.node.visibleChildCount > 0 then Down(aliases, res)
      else Right(aliases, res)
  }

  /**
   * The next visible position to the right: past the last child it climbs to
   * an invisible parent (and stops at a visible one); an invisible sibling is
   * entered, or skipped when nothing visible is inside.
   */
  function Right(aliases: AliasTable, z: Zipper): (r: Option<Zipper>)
    requires Valid(z)
    ensures r.Some? ==> Valid(r.value) && Visible(aliases, r.value)
    ensures r.Some? ==> After(r.value) + Size(r.value.node) <= After(z)
    ensures r.Some? && Consistent(z) ==> Consistent(r.value)
    ensures r.Some? ==> Top(r.value) == Top(z)
    ensures r.Some? ==> Up(aliases, r.value) == Up(aliases, z)
    decreases After(z), 1, Depth(z)
  {
    match z.parent
    case None => None
    case Some(p) =>
      if z.childIndex == |p.node.children| - 1 then
        LastChildMeasure(z);
        if Visible(aliases, p) then None else Right(aliases, p)
      else
        var res := NextSibling(z);
        NextSiblingMeasure(z);
        if Visible(aliases, res) then Some(res)
        else
          var d := Down(aliases, res);
          if d.Some? then d else Right(aliases, res)
  }

  /** A child worth descending into from the right: visible, or with visible children. */
  predicate Candidate(aliases: AliasTable, z: Zipper) {
    Visible(aliases, z) || z.node.visibleChildCount > 0
  }

  /**
   * Scans the siblings after `r`, keeping in `res` the last candidate seen
   * (or `res` itself when there is none).
   */
  function LastCandidate(aliases: AliasTable, r: Zipper, res: Zipper): (c: Zipper)
    requires Valid(r) && Valid(res) && res.parent == r.parent
    ensures Valid(c) && c.parent == r.parent
    ensures Consistent(r) && Consistent(res) ==> Consistent(c)
    ensures c == res || (Candidate(aliases, c) && c.childIndex > r.childIndex)
    decreases if r.parent.Some? then |r.parent.value.node.children| - r.childIndex else 0
  {
    match InvisibleRight(r)
    case None => res
    case Some(n) => LastCandidate(aliases, n, if Candidate(aliases, n) then n else res)
  }

  /**
   * The last visible position below `z`: the last candidate child, entered
   * while it stays invisible.
   */
  function DownRight(aliases: AliasTable, z: Zipper): (r: Option<Zipper>)
    requires Valid(z)
    ensures r.Some? ==> Valid(r.value) && Visible(aliases, r.value)
    ensures r.Some? && Consistent(z) ==> Consistent(r.value)
    ensures r.Some? ==> Top(r.value) == Top(z)
    ensures r.Some? ==> Up(aliases, r.value) == if Visible(aliases, z) then Some(z) else Up(aliases, z)
    decreases z.node
  {
    if |z.node.children| == 0 then None
    else
      var res := LastCandidate(aliases, FirstChild(z), FirstChild(z));
      if Visible(aliases, res) then Some(res)
      else if res.node.visibleChildCount > 0 then DownRight(aliases, res)
      else None
  }

  /**
   * `downRight` as the source runs it: a loop scans the children with
   * `InvisibleRight`, remembering the last candidate, then descends.
   */
  method DownRightLoop(aliases: AliasTable, z: Zipper) returns (r: Option<Zipper>)
    requires Valid(z)
    ensures r == DownRight(aliases, z)
    decreases z.node
  {
    if |z.node.children| == 0 {
      return None;
    }
    var res := FirstChild(z);
    var cur: Option<Zipper> := Some(res);
    while cur.Some?
      invariant Valid(res) && res.parent == Some(z)
      invariant cur.Some? ==> Valid(cur.value) && cur.value.parent == Some(z)
      invariant LastCandidate(aliases, FirstChild(z), FirstChild(z)) ==
        (if cur.Some? then LastCandidate(aliases, cur.value, res) else res)
      decreases if cur.Some? then |z.node.children| - cur.value.childIndex else 0
    {
      cur := InvisibleRight(cur.value);
      if cur.Some? {
        if Candidate(aliases, cur.value) {
          res := cur.value;
        }
      }
    }
    if Visible(aliases, res) {
      r := Some(res);
    } else if res.node.visibleChildCount > 0 {
      r := DownRightLoop(aliases, res);
    } else {
      r := None;
    }
  }

  /**
   * The previous visible position, as the source computes it: before the
   * first child it climbs to an invisible parent (and stops at a visible
   * one); an invisible sibling is entered from the right, or skipped.
   */
  function Left(aliases: AliasTable, z: Zipper): (r: Option<Zipper>)
    requires Valid(z)
    ensures r.Some? ==> Valid(r.value) && Visible(aliases, r.value)
    ensures r.Some? ==> Up(aliases, r.value) == Up(aliases, z)
    ensures r.Some? ==> Top(r.value) == Top(z)
    decreases Rank(z)
  {
    match z.parent
    case None => None
    case Some(p) =>
      if z.childIndex == 0 then
        if Visible(aliases, p) then None else Left(aliases, p)
      else
        var res := PrevSibling(z);
        if Visible(aliases, res) then Some(res)
        else
          var d := DownRight(aliases, res);
          if d.Some? then d else Left(aliases, res)
  }

  /** `Left` with the structural index stepped back past the sibling rather than the current node. */
  function LeftFixed(aliases: AliasTable, z: Zipper): (r: Option<Zipper>)
    requires Valid(z)
    ensures r.Some? ==> Valid(r.value) && Visible(aliases, r.value)
    ensures r.Some? ==> Up(aliases, r.value) == Up(aliases, z)
    ensures r.Some? && Consistent(z) ==> Consistent(r.value)
    ensures r.Some? ==> Top(r.value) == Top(z)
    decreases Rank(z)
  {
    match z.parent
    case None => None
    case Some(p) =>
      if z.childIndex == 0 then
        if Visible(aliases, p) then None else LeftFixed(aliases, p)
      else
        var res := PrevSiblingFixed(z);
        if Visible(aliases, res) then Some(res)
        else
          var d := DownRight(aliases, res);
          if d.Some? then d else LeftFixed(aliases, res)
  }

  // ---------------------------------------------------------------------
  // Properties of the concrete steps.

  /** A step right followed by the corrected step left comes back to the same position. */
  lemma NextThenPrevFixed(z: Zipper)
    requires Valid(z) && HasNext(z)
    ensures HasPrev(NextSibling(z)) && PrevSiblingFixed(NextSibling(z)) == z
  {
  }

  /** A corrected step left followed by a step right comes back to the same position. */
  lemma PrevFixedThenNext(z: Zipper)
    requires Valid(z) && HasPrev(z)
    ensures HasNext(PrevSiblingFixed(z)) && NextSibling(PrevSiblingFixed(z)) == z
  {
  }

  /**
   * The source's step left undoes a step right in node, offset and child
   * index; it restores the structural index exactly when the two siblings
   * agree on being extra.
   */
  lemma NextThenPrev(z: Zipper)
    requires Valid(z) && HasNext(z)
    ensures HasPrev(NextSibling(z))
    ensures PrevSibling(NextSibling(z)).node == z.node
    ensures PrevSibling(NextSibling(z)).byteOffset == z.byteOffset
    ensures PrevSibling(NextSibling(z)).childIndex == z.childIndex
    ensures PrevSibling(NextSibling(z)).structuralChildIndex == z.structuralChildIndex <==>
      z.node.extra == NextSibling(z).node.extra
    ensures PrevSibling(NextSibling(z)) == z <==> z.node.extra == NextSibling(z).node.extra
  {
  }

  /** Stepping right within the same parent moves to the next child zipper. */
  lemma NextChildZipper(z: Zipper, k: nat)
    requires k + 1 < |z.node.children|
    ensures HasNext(ChildZipper(z, k)) && NextSibling(ChildZipper(z, k)) == ChildZipper(z, k + 1)
  {
  }

  /** `down` stops at a visible first child. */
  lemma DownToFirstChild(aliases: AliasTable, z: Zipper)
    requires Valid(z) && |z.node.children| > 0 && Visible(aliases, ChildZipper(z, 0))
    ensures Down(aliases, z) == Some(ChildZipper(z, 0))
  {
  }

  /** `right` from a child stops at a visible next sibling. */
  lemma RightToSibling(aliases: AliasTable, z: Zipper, k: nat)
    requires Valid(z) && k + 1 < |z.node.children| && Visible(aliases, ChildZipper(z, k + 1))
    ensures Valid(ChildZipper(z, k))
    ensures Right(aliases, ChildZipper(z, k)) == Some(ChildZipper(z, k + 1))
  {
    NextChildZipper(z, k);
  }

  /** `right` from a child enters an invisible next sibling when `down` finds something in it. */
  lemma RightIntoSibling(aliases: AliasTable, z: Zipper, k: nat)
    requires Valid(z) && k + 1 < |z.node.children| && !Visible(aliases, ChildZipper(z, k + 1))
    requires Down(aliases, ChildZipper(z, k + 1)).Some?
    ensures Valid(ChildZipper(z, k))
    ensures Right(aliases, ChildZipper(z, k)) == Down(aliases, ChildZipper(z, k + 1))
  {
    NextChildZipper(z, k);
  }

  /** `right` from the last child stops at a visible parent and continues from an invisible one. */
  lemma RightFromLast(aliases: AliasTable, z: Zipper)
    requires Valid(z) && |z.node.children| > 0
    ensures Valid(ChildZipper(z, |z.node.children| - 1))
    ensures Right(aliases, ChildZipper(z, |z.node.children| - 1)) ==
      if Visible(aliases, z) then None else Right(aliases, z)
  {
  }

  /**
   * Between two visible siblings, `right` moves to the next one and the
   * corrected `left` comes back.
   */
  lemma RightThenLeftFixed(aliases: AliasTable, z: Zipper)
    requires Valid(z) && HasNext(z) && Visible(aliases, z) && Visible(aliases, NextSibling(z))
    ensures Right(aliases, z) == Some(NextSibling(z))
    ensures LeftFixed(aliases, NextSibling(z)) == Some(z)
  {
    NextThenPrevFixed(z);
  }

  /** A visible position is the parent, for `up`, of whatever `down` finds below it. */
  lemma UpAfterDown(aliases: AliasTable, z: Zipper)
    requires Valid(z) && Visible(aliases, z) && Down(aliases, z).Some?
    ensures Up(aliases, Down(aliases, z).value) == Some(z)
  {
  }

  /** A visible position is the parent, for `up`, of whatever `downRight` finds below it. */
  lemma UpAfterDownRight(aliases: AliasTable, z: Zipper)
    requires Valid(z) && Visible(aliases, z) && DownRight(aliases, z).Some?
    ensures Up(aliases, DownRight(aliases, z).value) == Some(z)
  {
  }

  /** Whether `c` is the last candidate among the children of `z`, or the first child when none is. */
  predicate IsLastCandidate(aliases: AliasTable, z: Zipper, c: Zipper) {
    0 <= c.childIndex < |z.node.children| &&
    c == ChildZipper(z, c.childIndex) &&
    (c.childIndex == 0 || Candidate(aliases, c)) &&
    forall j :: c.childIndex < j < |z.node.children| ==> !Candidate(aliases, ChildZipper(z, j))
  }

  lemma {:induction false} ScanFindsLastCandidate(aliases: AliasTable, z: Zipper, i: nat, k: nat)
    requires Consistent(z) && k <= i < |z.node.children|
    requires k == 0 || Candidate(aliases, ChildZipper(z, k))
    requires forall j :: k < j <= i ==> !Candidate(aliases, ChildZipper(z, j))
    ensures Valid(ChildZipper(z, i)) && Valid(ChildZipper(z, k))
    ensures IsLastCandidate(aliases, z, LastCandidate(aliases, ChildZipper(z, i), ChildZipper(z, k)))
    decreases |z.node.children| - i
  {
    ConsistentIsValid(z);
    if i + 1 < |z.node.children| {
      NextChildZipper(z, i);
      var next := ChildZipper(z, i + 1);
      if Candidate(aliases, next) {
        ScanFindsLastCandidate(aliases, z, i + 1, i + 1);
      } else {
        ScanFindsLastCandidate(aliases, z, i + 1, k);
      }
    }
  }

  /**
   * `downRight` starts from the last child that is visible or has visible
   * children, or from the first child when there is no such child.
   */
  lemma DownRightStartsAtLastCandidate(aliases: AliasTable, z: Zipper)
    requires Consistent(z) && |z.node.children| > 0
    ensures Valid(FirstChild(z))
    ensures IsLastCandidate(aliases, z, LastCandidate(aliases, FirstChild(z), FirstChild(z)))
  {
    ScanFindsLastCandidate(aliases, z, 0, 0);
  }

  /** The boundary cases of the moves. */
  lemma AtTheEdges(aliases: AliasTable, z: Zipper)
    requires Valid(z)
    ensures |z.node.children| == 0 ==> Down(aliases, z).None? && DownRight(aliases, z).None?
    ensures z.parent.None? ==> Up(aliases, z).None? && Right(aliases, z).None? && Left(aliases, z).None?
    ensures z.parent.Some? && z.childIndex == |z.parent.value.node.children| - 1 ==>
      Right(aliases, z) == if Visible(aliases, z.parent.value) then None else Right(aliases, z.parent.value)
    ensures z.parent.Some? && z.childIndex == 0 ==>
      Left(aliases, z) == if Visible(aliases, z.parent.value) then None else Left(aliases, z.parent.value)
  {
  }

  /** A subtree with no extra node in it. */
  predicate NoExtras(t: Subtree)
    decreases t
  {
    !t.extra && forall i :: 0 <= i < |t.children| ==> NoExtras(t.children[i])
  }

  lemma {:induction false} NoExtrasBelowTop(z: Zipper)
    requires Valid(z) && NoExtras(Top(z).node)
    ensures NoExtras(z.node)
    decreases z
  {
    match z.parent
    case None =>
    case Some(p) =>
      NoExtrasBelowTop(p);
  }

  /** In a tree without extras, the source's `left` and the corrected one agree. */
  lemma {:induction false} LeftWithoutExtras(aliases: AliasTable, z: Zipper)
    requires Valid(z) && NoExtras(Top(z).node)
    ensures Left(aliases, z) == LeftFixed(aliases, z)
    decreases Rank(z)
  {
    match z.parent
    case None =>
    case Some(p) =>
      NoExtrasBelowTop(p);
      if z.childIndex == 0 {
        LeftWithoutExtras(aliases, p);
      } else {
        assert !z.node.extra && !p.node.children[z.childIndex - 1].extra;
        assert PrevSibling(z) == PrevSiblingFixed(z);
        LeftWithoutExtras(aliases, PrevSibling(z));
      }
  }

  // ---------------------------------------------------------------------
  // The source's `left` after an extra node.
  //
  // A parent whose production aliases its second child to symbol 7 has the
  // children a, b (both hidden) and a visible extra e. Seen from e, b's
  // structural index is 1. The source's step left from e keeps index 2
  // (e is extra), finds no alias for b, skips it, and then labels a with
  // b's alias.

  const HiddenA := Subtree(1, false, false, 1, 0, 0, 0, [])
  const HiddenB := Subtree(2, false, false, 1, 0, 0, 0, [])
  const VisibleExtra := Subtree(3, true, true, 1, 0, 0, 0, [])
  const AliasingParent := Subtree(4, true, false, 3, 0, 1, 2, [HiddenA, HiddenB, VisibleExtra])
  const ExampleAliases: AliasTable := [[], [0, 7, 0]]
  const ExampleRoot := Zipper(None, 0, AliasingParent, 0, 0, 0)

  lemma LeftAfterExtraMislabels()
    ensures Consistent(ChildZipper(ExampleRoot, 2)) && Valid(ChildZipper(ExampleRoot, 2))
    ensures Valid(ChildZipper(ExampleRoot, 1))
    ensures Right(ExampleAliases, ChildZipper(ExampleRoot, 1)) == Some(ChildZipper(ExampleRoot, 2))
    ensures Alias(ExampleAliases, ChildZipper(ExampleRoot, 1)) == Some(7)
    ensures Alias(ExampleAliases, ChildZipper(ExampleRoot, 0)) == None
    ensures Left(ExampleAliases, ChildZipper(ExampleRoot, 2)) == Some(Zipper(Some(ExampleRoot), 1, HiddenA, 0, 0, 1))
    ensures Alias(ExampleAliases, Zipper(Some(ExampleRoot), 1, HiddenA, 0, 0, 1)) == Some(7)
    ensures !Consistent(Zipper(Some(ExampleRoot), 1, HiddenA, 0, 0, 1))
    ensures LeftFixed(ExampleAliases, ChildZipper(ExampleRoot, 2)) == Some(ChildZipper(ExampleRoot, 1))
  {
    var e := ChildZipper(ExampleRoot, 2);
    var b := ChildZipper(ExampleRoot, 1);
    var cs := AliasingParent.children;
    assert ChildStart(0, cs, 1) == 1 && NonExtraBefore(cs, 1) == 1;
    assert ChildStart(0, cs, 2) == 2 && NonExtraBefore(cs, 2) == 2;
    assert e == Zipper(Some(ExampleRoot), 1, VisibleExtra, 2, 2, 2);
    assert b == Zipper(Some(ExampleRoot), 1, HiddenB, 1, 1, 1);
    assert ChildZipper(ExampleRoot, 0) == Zipper(Some(ExampleRoot), 1, HiddenA, 0, 0, 0);
    var skipped := PrevSibling(e);
    assert skipped == Zipper(Some(ExampleRoot), 1, HiddenB, 1, 1, 2);
    assert !Visible(ExampleAliases, skipped);
    assert Left(ExampleAliases, skipped) == Some(Zipper(Some(ExampleRoot), 1, HiddenA, 0, 0, 1));
  }
}
