/**
 * The earlier, single-file revision of the implementation package: the
 * changed-range decoding of a tree diff, `adjust` on a bare subtree, and its
 * own variant of the visible-tree zipper. The zipper is compared with the
 * current revision's; where the two differ the difference is stated and,
 * where it is a defect, shown on a small tree.
 */
module LegacyImpl {
  import opened Wrappers
  import opened Memory
  import opened SubtreeAccess
  import opened TSZipper
  import opened VisibleTree
  import TSTree

  // ---------------------------------------------------------------------
  // Changed ranges.

  /** A byte range `[from, to)` of the text. */
  datatype BytesRange = BytesRange(from: Int32, to: Int32)

  /** The native answer has no room for the odd last bound. */
  datatype RangeError = IndexOutOfBounds(index: nat)

  /** Consecutive bounds, two by two, as ranges. */
  function Pairs(rs: seq<Int32>): (r: seq<BytesRange>)
    requires |rs| % 2 == 0
    ensures |r| == |rs| / 2
    ensures forall k :: 0 <= k < |r| ==> r[k] == BytesRange(rs[2 * k], rs[2 * k + 1])
    decreases |rs|
  {
    if rs == [] then [] else [BytesRange(rs[0], rs[1])] + Pairs(rs[2..])
  }

  /** The bounds of the ranges, in order. */
  function Flatten(ranges: seq<BytesRange>): (r: seq<Int32>)
    ensures |r| == 2 * |ranges|
    decreases |ranges|
  {
    if ranges == [] then [] else [ranges[0].from, ranges[0].to] + Flatten(ranges[1..])
  }

  /** Pairing up the bounds loses nothing: flattening gives them back. */
  lemma {:induction false} FlattenPairs(rs: seq<Int32>)
    requires |rs| % 2 == 0
    ensures Flatten(Pairs(rs)) == rs
    decreases |rs|
  {
    if rs != [] {
      FlattenPairs(rs[2..]);
      assert Pairs(rs)[1..] == Pairs(rs[2..]);
      assert rs == [rs[0], rs[1]] + rs[2..];
    }
  }

  /** Every list of ranges is what pairing its bounds yields. */
  lemma {:induction false} PairsFlatten(ranges: seq<BytesRange>)
    ensures Pairs(Flatten(ranges)) == ranges
    decreases |ranges|
  {
    if ranges != [] {
      PairsFlatten(ranges[1..]);
      var f := Flatten(ranges);
      assert f[2..] == Flatten(ranges[1..]);
      assert ranges == [ranges[0]] + ranges[1..];
    }
  }

  /**
   * `getChangedRanges` on the native answer `rs`: none gives no ranges; an
   * even-length answer is read two bounds at a time; an odd length reads
   * past the end on its last step.
   */
  method ChangedRanges(rs: Option<seq<Int32>>) returns (r: Result<seq<BytesRange>, RangeError>)
    ensures rs.None? ==> r == Success([])
    ensures rs.Some? && |rs.value| % 2 == 0 ==> r == Success(Pairs(rs.value))
    ensures rs.Some? && |rs.value| % 2 == 1 ==> r == Failure(IndexOutOfBounds(|rs.value|))
  {
    if rs.None? {
      return Success([]);
    }
    var bounds := rs.value;
    var ranges: seq<BytesRange> := [];
    var i := 0;
    while i < |bounds|
      invariant 0 <= i && i % 2 == 0 && i <= |bounds| + 1
      invariant i <= |bounds|
      invariant |ranges| == i / 2
      invariant forall k :: 0 <= k < |ranges| ==> ranges[k] == BytesRange(bounds[2 * k], bounds[2 * k + 1])
    {
      if i + 1 >= |bounds| {
        return Failure(IndexOutOfBounds(i + 1));
      }
      ranges := ranges + [BytesRange(bounds[i], bounds[i + 1])];
      i := i + 2;
    }
    assert ranges == Pairs(bounds);
    return Success(ranges);
  }

  // ---------------------------------------------------------------------
  // `adjust` on a subtree.

  /** The slot after the native subtree edit of each edit in turn. */
  function EditChain(editSubtree: (Ptr, TSTree.Edit) -> Ptr, p: Ptr, edits: seq<TSTree.Edit>): (r: Ptr)
    decreases |edits|
  {
    if edits == [] then p else EditChain(editSubtree, editSubtree(p, edits[0]), edits[1..])
  }

  /** Editing in two batches is editing with all the edits at once. */
  lemma {:induction false} EditChainAppend(editSubtree: (Ptr, TSTree.Edit) -> Ptr, p: Ptr, a: seq<TSTree.Edit>, b: seq<TSTree.Edit>)
    ensures EditChain(editSubtree, p, a + b) == EditChain(editSubtree, EditChain(editSubtree, p, a), b)
    decreases |a|
  {
    if a == [] {
      assert a + b == b;
    } else {
      assert (a + b)[0] == a[0] && (a + b)[1..] == a[1..] + b;
      EditChainAppend(editSubtree, editSubtree(p, a[0]), a[1..], b);
    }
  }

  /** The native subtree side: the retain counts, and the native edit of a subtree. */
  class NativeSubtrees {
    var retains: map<Ptr, nat>
    /** The native edit of a subtree, whose algorithm is not part of this model. */
    const editSubtree: (Ptr, TSTree.Edit) -> Ptr

    constructor (editSubtree: (Ptr, TSTree.Edit) -> Ptr)
      ensures retains == map[] && this.editSubtree == editSubtree
    {
      retains := map[];
      this.editSubtree := editSubtree;
    }

    /** One more retain of `p`. */
    method Retain(p: Ptr)
      modifies this
      ensures retains == old(retains)[p := (if p in old(retains) then old(retains)[p] else 0) + 1]
    {
      retains := retains[p := (if p in retains then retains[p] else 0) + 1];
    }
  }

  /**
   * `TSSubtree.adjust`: the subtree is retained once, then each edit in
   * turn replaces the slot with the native edit's result; the last slot is
   * the result's, kept alive as a subtree resource. With no edits the
   * result is a new handle equal to the old one.
   */
  method AdjustSubtree(native: NativeSubtrees, h: TSTree.Handle, edits: seq<TSTree.Edit>) returns (r: TSTree.Handle)
    modifies native
    ensures native.retains == old(native.retains)[h.subtreePtr :=
      (if h.subtreePtr in old(native.retains) then old(native.retains)[h.subtreePtr] else 0) + 1]
    ensures r == h.(subtreePtr := EditChain(native.editSubtree, h.subtreePtr, edits),
                    lifetime := TSTree.SubtreeResource(EditChain(native.editSubtree, h.subtreePtr, edits)))
    ensures edits == [] ==> TSTree.Equal(r, h)
  {
    var treeCopy := h.subtreePtr;
    native.Retain(treeCopy);
    ghost var retained := native.retains;
    var i := 0;
    while i < |edits|
      invariant 0 <= i <= |edits|
      invariant native.retains == retained
      invariant treeCopy == EditChain(native.editSubtree, h.subtreePtr, edits[..i])
    {
      EditChainAppend(native.editSubtree, h.subtreePtr, edits[..i], [edits[i]]);
      assert edits[..i + 1] == edits[..i] + [edits[i]];
      treeCopy := native.editSubtree(treeCopy, edits[i]);
      i := i + 1;
    }
    assert edits[..i] == edits;
    r := h.(subtreePtr := treeCopy, lifetime := TSTree.SubtreeResource(treeCopy));
  }

  // ---------------------------------------------------------------------
  // The zipper of this revision.

  /** The root zipper of this revision starts at offset 0, before the root's padding. */
  function LegacyRootZipper(t: Subtree): (z: Zipper)
    ensures Consistent(z) && z.byteOffset == 0
  {
    Zipper(None, 0, t, 0, 0, 0)
  }

  /** This revision's root zipper is the current one's moved back by the root's padding. */
  lemma LegacyRootShift(mem: Heap, h: TSTree.Handle, t: Subtree)
    requires HeapField(mem, h.subtreePtr, PaddingOffset, 4)
    ensures LegacyRootZipper(t) == TSTree.RootZipper(mem, h, t).(byteOffset := 0)
    ensures TSTree.RootZipper(mem, h, t).byteOffset - LegacyRootZipper(t).byteOffset == TSTree.Padding(mem, h)
  {
  }

  /**
   * `visible()` as this revision spells it: the node's flag, else a
   * non-zero entry of a non-zero alias row for a non-extra node. It is the
   * current revision's visibility.
   */
  predicate LegacyVisible(aliases: AliasTable, z: Zipper)
    ensures LegacyVisible(aliases, z) <==> Visible(aliases, z)
  {
    if z.node.visible then true
    else if z.parentAliasSequence != 0 then
      if !z.node.extra then AliasAt(aliases, z.parentAliasSequence, z.structuralChildIndex) != 0 else false
    else false
  }

  /** The structural index moves only under a non-zero alias row, past a non-extra current node. */
  function LegacyNextSibling(z: Zipper): (s: Zipper)
    requires HasNext(z)
    ensures s.(structuralChildIndex := z.structuralChildIndex) == NextSibling(z).(structuralChildIndex := z.structuralChildIndex)
  {
    NextSibling(z).(structuralChildIndex :=
      if z.parentAliasSequence != 0 && !z.node.extra then z.structuralChildIndex + 1 else z.structuralChildIndex)
  }

  /**
   * The previous sibling as this revision computes it: the offset is the
   * current one minus the sibling's size plus the current node's padding,
   * and the structural index steps back past the current node.
   */
  function LegacyPrevSibling(z: Zipper): (r: Zipper)
    requires HasPrev(z)
    ensures r.parent == z.parent && r.childIndex == z.childIndex - 1
    ensures r.node == z.parent.value.node.children[r.childIndex]
    ensures r.byteOffset + r.node.size == z.byteOffset + z.node.padding
    ensures r.structuralChildIndex == z.structuralChildIndex <==> z.parentAliasSequence == 0 || z.node.extra
  {
    var sibling := z.parent.value.node.children[z.childIndex - 1];
    Zipper(z.parent, z.parentAliasSequence, sibling,
      z.byteOffset - sibling.size + z.node.padding,
      z.childIndex - 1,
      if z.parentAliasSequence != 0 && !z.node.extra then z.structuralChildIndex - 1 else z.structuralChildIndex)
  }

  /** The previous sibling with the padding subtracted and the index stepped back past the sibling. */
  function LegacyPrevSiblingFixed(z: Zipper): Zipper
    requires HasPrev(z)
  {
    var sibling := z.parent.value.node.children[z.childIndex - 1];
    Zipper(z.parent, z.parentAliasSequence, sibling,
      z.byteOffset - z.node.padding - sibling.size,
      z.childIndex - 1,
      if z.parentAliasSequence != 0 && !sibling.extra then z.structuralChildIndex - 1 else z.structuralChildIndex)
  }

  /** The measures see neither the structural index nor the offset. */
  lemma MeasuresIgnoreIndex(z: Zipper, s: int, o: int)
    ensures After(z.(structuralChildIndex := s, byteOffset := o)) == After(z)
    ensures Depth(z.(structuralChildIndex := s, byteOffset := o)) == Depth(z)
    ensures Rank(z.(structuralChildIndex := s, byteOffset := o)) == Rank(z)
  {
  }

  /** The nearest visible proper ancestor; it is the current revision's `up`. */
  function LegacyUp(aliases: AliasTable, z: Zipper): (r: Option<Zipper>)
    requires Valid(z)
    ensures r == Up(aliases, z)
    decreases z
  {
    match z.parent
    case None => None
    case Some(p) => if LegacyVisible(aliases, p) then Some(p) else LegacyUp(aliases, p)
  }

  /** `down` of this revision: into the first child, entering or skipping it while it is invisible. */
  function LegacyDown(aliases: AliasTable, z: Zipper): (r: Option<Zipper>)
    requires Valid(z)
    ensures r.Some? ==> Valid(r.value) && LegacyVisible(aliases, r.value)
    ensures r.Some? ==> After(r.value) + Size(r.value.node) < After(z) + Size(z.node)
    decreases After(z) + Size(z.node), 0, 0
  {
    if |z.node.children| == 0 then None
    else
      var res := FirstChild(z);
      FirstChildMeasure(z);
      if LegacyVisible(aliases, res) then Some(res)
      else if res.node.visibleChildCount > 0 then LegacyDown(aliases, res)
      else LegacyRight(aliases, res)
  }

  /** `right` of this revision, with its own structural index. */
  function LegacyRight(aliases: AliasTable, z: Zipper): (r: Option<Zipper>)
    requires Valid(z)
    ensures r.Some? ==> Valid(r.value) && LegacyVisible(aliases, r.value)
    ensures r.Some? ==> After(r.value) + Size(r.value.node) <= After(z)
    decreases After(z), 1, Depth(z)
  {
    match z.parent
    case None => None
    case Some(p) =>
      if z.childIndex == |p.node.children| - 1 then
        LastChildMeasure(z);
        if LegacyVisible(aliases, p) then None else LegacyRight(aliases, p)
      else
        var res := LegacyNextSibling(z);
        NextSiblingMeasure(z);
        MeasuresIgnoreIndex(NextSibling(z), res.structuralChildIndex, res.byteOffset);
        if LegacyVisible(aliases, res) then Some(res)
        else
          var d := LegacyDown(aliases, res);
          if d.Some? then d else LegacyRight(aliases, res)
  }

  /**
   * `left` of this revision: its offset formula and structural index as
   * written, and an invisible sibling entered with `down`, from its first
   * child.
   */
  function LegacyLeft(aliases: AliasTable, z: Zipper): (r: Option<Zipper>)
    requires Valid(z)
    ensures r.Some? ==> Valid(r.value) && LegacyVisible(aliases, r.value)
    decreases Rank(z)
  {
    match z.parent
    case None => None
    case Some(p) =>
      if z.childIndex == 0 then
        if LegacyVisible(aliases, p) then None else LegacyLeft(aliases, p)
      else
        var res := LegacyPrevSibling(z);
        if LegacyVisible(aliases, res) then Some(res)
        else
          var d := LegacyDown(aliases, res);
          if d.Some? then d else LegacyLeft(aliases, res)
  }

  // ---------------------------------------------------------------------
  // `down` and `right` find what the current revision finds.

  /**
   * Two positions that agree on everything the walk consults: node, offset,
   * child index, alias row and, under a non-zero alias row, the structural
   * index; and so on up to the root.
   */
  predicate Similar(a: Zipper, b: Zipper)
    decreases a
  {
    a.parentAliasSequence == b.parentAliasSequence && a.node == b.node && a.byteOffset == b.byteOffset &&
    a.childIndex == b.childIndex &&
    (a.parentAliasSequence != 0 ==> a.structuralChildIndex == b.structuralChildIndex) &&
    match a.parent
    case None => b.parent.None?
    case Some(p) => b.parent.Some? && Similar(p, b.parent.value)
  }

  predicate SimilarResult(a: Option<Zipper>, b: Option<Zipper>) {
    (a.None? <==> b.None?) && (a.Some? ==> Similar(a.value, b.value))
  }

  lemma {:induction false} SimilarValid(a: Zipper, b: Zipper)
    requires Similar(a, b) && Valid(a)
    ensures Valid(b)
    decreases a
  {
    if a.parent.Some? {
      SimilarValid(a.parent.value, b.parent.value);
    }
  }

  /**
   * This revision's `down` stops at the same node, at the same offset and
   * under the same parents as the current revision's; only the structural
   * index may differ, and only under a zero alias row, where it is unused.
   */
  lemma {:induction false} LegacyDownSimilar(aliases: AliasTable, a: Zipper, b: Zipper)
    requires Valid(a) && Similar(a, b)
    ensures Valid(b) && SimilarResult(LegacyDown(aliases, a), Down(aliases, b))
    decreases After(a) + Size(a.node), 0, 0
  {
    SimilarValid(a, b);
    if |a.node.children| > 0 {
      var ra, rb := FirstChild(a), FirstChild(b);
      assert Similar(ra, rb);
      FirstChildMeasure(a);
      if !Visible(aliases, rb) {
        if ra.node.visibleChildCount > 0 {
          LegacyDownSimilar(aliases, ra, rb);
        } else {
          LegacyRightSimilar(aliases, ra, rb);
        }
      }
    }
  }

  /** This revision's `right` reaches the same positions as the current revision's, as for `down`. */
  lemma {:induction false} LegacyRightSimilar(aliases: AliasTable, a: Zipper, b: Zipper)
    requires Valid(a) && Similar(a, b)
    ensures Valid(b) && SimilarResult(LegacyRight(aliases, a), Right(aliases, b))
    decreases After(a), 1, Depth(a)
  {
    SimilarValid(a, b);
    match a.parent
    case None =>
    case Some(p) =>
      var q := b.parent.value;
      if a.childIndex == |p.node.children| - 1 {
        LastChildMeasure(a);
        if !Visible(aliases, q) {
          LegacyRightSimilar(aliases, p, q);
        }
      } else {
        var ra, rb := LegacyNextSibling(a), NextSibling(b);
        assert Similar(ra, rb);
        NextSiblingMeasure(a);
        MeasuresIgnoreIndex(NextSibling(a), ra.structuralChildIndex, ra.byteOffset);
        if !Visible(aliases, rb) {
          LegacyDownSimilar(aliases, ra, rb);
          if LegacyDown(aliases, ra).None? {
            LegacyRightSimilar(aliases, ra, rb);
          }
        }
      }
  }


  lemma {:induction false} SimilarToItself(z: Zipper)
    ensures Similar(z, z)
    decreases z
  {
    match z.parent
    case None =>
    case Some(p) =>
      SimilarToItself(p);
  }

  /**
   * From a visible position of a well-formed tree, this revision's `down`
   * finds the first visible child (up to the structural index under a zero
   * alias row), and nothing exactly when there is none.
   */
  lemma LegacyDownFirstVisibleChild(aliases: AliasTable, z: Zipper)
    requires WellFormed(aliases, z) && Visible(aliases, z)
    ensures LegacyDown(aliases, z).None? <==> VisibleChildren(aliases, z) == []
    ensures LegacyDown(aliases, z).Some? ==> Similar(LegacyDown(aliases, z).value, VisibleChildren(aliases, z)[0])
  {
    SimilarToItself(z);
    LegacyDownSimilar(aliases, z, z);
    DownIsFirstVisibleChild(aliases, z);
  }
  // ---------------------------------------------------------------------
  // `left` of this revision.

  /**
   * A step right followed by this revision's step left lands the node,
   * child index and alias row back, but the offset moves by twice the
   * padding of the node stepped over: it comes back only when that padding
   * is 0.
   */
  lemma LegacyNextThenPrev(z: Zipper)
    requires Valid(z) && HasNext(z)
    ensures HasPrev(LegacyNextSibling(z))
    ensures LegacyPrevSibling(LegacyNextSibling(z)).node == z.node
    ensures LegacyPrevSibling(LegacyNextSibling(z)).childIndex == z.childIndex
    ensures LegacyPrevSibling(LegacyNextSibling(z)).byteOffset ==
      z.byteOffset + 2 * LegacyNextSibling(z).node.padding
    ensures LegacyPrevSibling(LegacyNextSibling(z)).byteOffset == z.byteOffset <==>
      LegacyNextSibling(z).node.padding == 0
  {
  }

  /** With the offset and the structural index corrected, a step left undoes a step right. */
  lemma LegacyNextThenPrevFixed(z: Zipper)
    requires Valid(z) && HasNext(z)
    ensures HasPrev(LegacyNextSibling(z)) && LegacyPrevSiblingFixed(LegacyNextSibling(z)) == z
  {
  }

  /** With the offset and the structural index corrected, a step right undoes a step left. */
  lemma LegacyPrevFixedThenNext(z: Zipper)
    requires Valid(z) && HasPrev(z)
    ensures HasNext(LegacyPrevSiblingFixed(z)) && LegacyNextSibling(LegacyPrevSiblingFixed(z)) == z
  {
  }

  // Two visible leaves `ab c`: a at 0 (size 2), c after one byte of
  // padding, at 3.

  const LeafA := Subtree(1, true, false, 2, 0, 0, 0, [])
  const LeafC := Subtree(2, true, false, 2, 1, 0, 0, [])
  const Pair := Subtree(3, true, false, 5, 0, 0, 2, [LeafA, LeafC])
  const PairRoot := LegacyRootZipper(Pair)

  /** Back from `c`, this revision's `left` puts `a` at offset 2 instead of 0. */
  lemma LegacyLeftMisplaces()
    ensures Valid(ChildZipper(PairRoot, 0)) && ChildZipper(PairRoot, 0).byteOffset == 0
    ensures LegacyDown(NoAliases, PairRoot) == Some(ChildZipper(PairRoot, 0))
    ensures LegacyRight(NoAliases, ChildZipper(PairRoot, 0)) == Some(Zipper(Some(PairRoot), 0, LeafC, 3, 1, 0))
    ensures LegacyLeft(NoAliases, Zipper(Some(PairRoot), 0, LeafC, 3, 1, 0)) ==
      Some(Zipper(Some(PairRoot), 0, LeafA, 2, 0, 0))
    ensures LegacyPrevSiblingFixed(Zipper(Some(PairRoot), 0, LeafC, 3, 1, 0)) == ChildZipper(PairRoot, 0)
  {
    var a := ChildZipper(PairRoot, 0);
    assert a == Zipper(Some(PairRoot), 0, LeafA, 0, 0, 0);
    assert LegacyNextSibling(a) == Zipper(Some(PairRoot), 0, LeafC, 3, 1, 0);
  }

  // A hidden node h holding the visible leaves x and y, then a visible
  // leaf c: `xy c` with no padding.

  const NoAliases: AliasTable := []
  const LeafX := Subtree(4, true, false, 1, 0, 0, 0, [])
  const LeafY := Subtree(5, true, false, 1, 0, 0, 0, [])
  const Hidden := Subtree(6, false, false, 2, 0, 0, 2, [LeafX, LeafY])
  const LeafAfter := Subtree(7, true, false, 1, 0, 0, 0, [])
  const Outer := Subtree(8, true, false, 3, 0, 0, 3, [Hidden, LeafAfter])
  const OuterRoot := LegacyRootZipper(Outer)
  const AfterZ := Zipper(Some(OuterRoot), 0, LeafAfter, 2, 1, 0)
  const HiddenZ := Zipper(Some(OuterRoot), 0, Hidden, 0, 0, 0)

  /**
   * Back from c, this revision's `left` enters h from its first child and
   * lands on x, skipping y, which lies between x and c; the current
   * revision's `left` enters h from the right and lands on y.
   */
  lemma LegacyLeftSkips()
    ensures Valid(AfterZ)
    ensures LegacyLeft(NoAliases, AfterZ) == Some(Zipper(Some(HiddenZ), 0, LeafX, 0, 0, 0))
    ensures LegacyRight(NoAliases, Zipper(Some(HiddenZ), 0, LeafX, 0, 0, 0)) == Some(Zipper(Some(HiddenZ), 0, LeafY, 1, 1, 0))
    ensures Similar(AfterZ, ChildZipper(OuterRoot, 1))
    ensures LeftFixed(NoAliases, ChildZipper(OuterRoot, 1)) == Some(Zipper(Some(HiddenZ), 0, LeafY, 1, 1, 1))
  {
    assert LegacyPrevSibling(AfterZ) == HiddenZ;
    assert FirstChild(HiddenZ) == Zipper(Some(HiddenZ), 0, LeafX, 0, 0, 0);
    assert ChildStart(0, Outer.children, 1) == 2 && NonExtraBefore(Outer.children, 1) == 1;
    assert ChildZipper(OuterRoot, 1) == Zipper(Some(OuterRoot), 0, LeafAfter, 2, 1, 1);
    assert PrevSiblingFixed(ChildZipper(OuterRoot, 1)) == HiddenZ;
    var x := FirstChild(HiddenZ);
    var y := Zipper(Some(HiddenZ), 0, LeafY, 1, 1, 1);
    assert InvisibleRight(x) == Some(y);
    assert InvisibleRight(y) == None;
    assert LastCandidate(NoAliases, y, y) == y;
    assert LastCandidate(NoAliases, x, x) == y;
    assert DownRight(NoAliases, HiddenZ) == Some(y);
  }
}
