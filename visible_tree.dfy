/**
 * The visible tree, as a reference for the zipper's moves.
 *
 * Seen through the zipper, the concrete tree collapses to a tree of visible
 * positions. The visible children of a position are its visible concrete
 * children together with the visible children of its invisible ones, in
 * order. tree-sitter stores their number in every node as the visible child
 * count, and the moves consult that count to decide whether an invisible
 * child is worth entering. `WellFormed` states that the stored counts agree
 * with the tree. Over well-formed trees the moves are characterised by
 * sequences built here from the child zippers:
 * - `Down` and `DownRight` give the first and last visible child;
 * - `Right` and `LeftFixed` give the next and previous visible sibling;
 * - `Up` gives the nearest visible ancestor.
 */
module VisibleTree {
  import opened Wrappers
  import opened TSZipper

  // ---------------------------------------------------------------------
  // The reference sequences.

  /** What `z` shows of itself in the visible tree: itself when visible, else its visible children. */
  function Shown(aliases: AliasTable, z: Zipper): seq<Zipper>
    decreases z.node, 2
  {
    if Visible(aliases, z) then [z] else VisibleChildren(aliases, z)
  }

  /** What children `i` to `j - 1` of `p` show, in order. */
  function Parts(aliases: AliasTable, p: Zipper, i: nat, j: nat): seq<Zipper>
    requires i <= j <= |p.node.children|
    decreases p.node, 0, j - i
  {
    if i == j then [] else Shown(aliases, ChildZipper(p, i)) + Parts(aliases, p, i + 1, j)
  }

  /** The children of `z` in the visible tree. */
  function VisibleChildren(aliases: AliasTable, z: Zipper): seq<Zipper>
    decreases z.node, 1
  {
    Parts(aliases, z, 0, |z.node.children|)
  }

  /** Every node at or below `z` stores as its visible child count the number of its visible children. */
  predicate CountsAgree(aliases: AliasTable, z: Zipper)
    decreases z.node
  {
    z.node.visibleChildCount == |VisibleChildren(aliases, z)| &&
    forall k :: 0 <= k < |z.node.children| ==> CountsAgree(aliases, ChildZipper(z, k))
  }

  /**
   * A position reached from the root of a tree whose stored counts are right.
   * (`Valid` follows from `Consistent`; it is spelled out so that the moves
   * apply directly.)
   */
  predicate WellFormed(aliases: AliasTable, z: Zipper) {
    Consistent(z) && Valid(z) && CountsAgree(aliases, Top(z))
  }

  /**
   * The visible positions after `z`'s subtree that share `z`'s visible
   * parent, nearest first: the later siblings' contributions, and past an
   * invisible parent what follows the parent.
   */
  function Following(aliases: AliasTable, z: Zipper): seq<Zipper>
    requires Valid(z)
    decreases z, 0
  {
    match z.parent
    case None => []
    case Some(p) => Parts(aliases, p, z.childIndex + 1, |p.node.children|) + OpenAfter(aliases, p)
  }

  /** What follows an invisible position at its visible parent's level; nothing for a visible one. */
  function OpenAfter(aliases: AliasTable, z: Zipper): seq<Zipper>
    requires Valid(z)
    decreases z, 1
  {
    if Visible(aliases, z) then [] else Following(aliases, z)
  }

  /** The visible positions before `z`'s subtree that share `z`'s visible parent, in order. */
  function Preceding(aliases: AliasTable, z: Zipper): seq<Zipper>
    requires Valid(z)
    decreases z, 0
  {
    match z.parent
    case None => []
    case Some(p) => OpenBefore(aliases, p) + Parts(aliases, p, 0, z.childIndex)
  }

  /** What precedes an invisible position at its visible parent's level; nothing for a visible one. */
  function OpenBefore(aliases: AliasTable, z: Zipper): seq<Zipper>
    requires Valid(z)
    decreases z, 1
  {
    if Visible(aliases, z) then [] else Preceding(aliases, z)
  }

  /** The visible siblings of `z`, itself included: the children of its nearest visible ancestor, or what the root shows. */
  function Level(aliases: AliasTable, z: Zipper): seq<Zipper>
    requires Valid(z)
  {
    match Up(aliases, z)
    case Some(u) => VisibleChildren(aliases, u)
    case None => Shown(aliases, Top(z))
  }

  /** The proper ancestors of `z`, nearest first. */
  function Ancestors(z: Zipper): seq<Zipper>
    decreases z
  {
    match z.parent
    case None => []
    case Some(p) => [p] + Ancestors(p)
  }

  function First(s: seq<Zipper>): Option<Zipper> {
    if s == [] then None else Some(s[0])
  }

  function Last(s: seq<Zipper>): Option<Zipper> {
    if s == [] then None else Some(s[|s| - 1])
  }

  // ---------------------------------------------------------------------
  // Sequences of contributions.

  lemma {:induction false} PartsAppend(aliases: AliasTable, p: Zipper, i: nat, j: nat, l: nat)
    requires i <= j <= l <= |p.node.children|
    ensures Parts(aliases, p, i, j) + Parts(aliases, p, j, l) == Parts(aliases, p, i, l)
    decreases j - i
  {
    if i < j {
      PartsAppend(aliases, p, i + 1, j, l);
      assert Parts(aliases, p, i, j) + Parts(aliases, p, j, l) ==
        Shown(aliases, ChildZipper(p, i)) + (Parts(aliases, p, i + 1, j) + Parts(aliases, p, j, l));
    }
  }

  lemma PartsSnoc(aliases: AliasTable, p: Zipper, i: nat, j: nat)
    requires i <= j < |p.node.children|
    ensures Parts(aliases, p, i, j + 1) == Parts(aliases, p, i, j) + Shown(aliases, ChildZipper(p, j))
  {
    PartsAppend(aliases, p, i, j, j + 1);
    assert Parts(aliases, p, j, j + 1) == Shown(aliases, ChildZipper(p, j)) + [];
  }

  /** The children before `k`, child `k`, and the children after it make up the visible children. */
  lemma PartsAround(aliases: AliasTable, p: Zipper, k: nat)
    requires k < |p.node.children|
    ensures VisibleChildren(aliases, p) ==
      Parts(aliases, p, 0, k) + Shown(aliases, ChildZipper(p, k)) + Parts(aliases, p, k + 1, |p.node.children|)
  {
    PartsSnoc(aliases, p, 0, k);
    PartsAppend(aliases, p, 0, k + 1, |p.node.children|);
  }

  lemma {:induction false} PartsNone(aliases: AliasTable, p: Zipper, i: nat, j: nat)
    requires i <= j <= |p.node.children|
    requires forall k :: i <= k < j ==> Shown(aliases, ChildZipper(p, k)) == []
    ensures Parts(aliases, p, i, j) == []
    decreases j - i
  {
    if i < j {
      PartsNone(aliases, p, i + 1, j);
    }
  }

  // ---------------------------------------------------------------------
  // Well-formedness along the tree.

  lemma {:induction false} WellFormedCounts(aliases: AliasTable, z: Zipper)
    requires WellFormed(aliases, z)
    ensures CountsAgree(aliases, z)
    decreases z
  {
    match z.parent
    case None =>
    case Some(p) =>
      WellFormedCounts(aliases, p);
  }

  lemma ChildWellFormed(aliases: AliasTable, z: Zipper, k: nat)
    requires WellFormed(aliases, z) && k < |z.node.children|
    ensures WellFormed(aliases, ChildZipper(z, k))
  {
  }

  /** Under right counts, a child is worth entering exactly when it shows something. */
  lemma CandidateShows(aliases: AliasTable, z: Zipper, k: nat)
    requires WellFormed(aliases, z) && k < |z.node.children|
    ensures WellFormed(aliases, ChildZipper(z, k))
    ensures Candidate(aliases, ChildZipper(z, k)) <==> Shown(aliases, ChildZipper(z, k)) != []
  {
    ChildWellFormed(aliases, z, k);
    WellFormedCounts(aliases, ChildZipper(z, k));
  }

  // ---------------------------------------------------------------------
  // The moves against the reference.

  /**
   * `down` finds the first of the visible children, and from an invisible
   * node without any goes on to what follows it at the visible parent's
   * level.
   */
  lemma {:induction false} DownFirst(aliases: AliasTable, z: Zipper)
    requires WellFormed(aliases, z) && |z.node.children| > 0
    ensures Down(aliases, z) == First(VisibleChildren(aliases, z) + OpenAfter(aliases, z))
    decreases After(z) + Size(z.node), 0, 0
  {
    var n := |z.node.children|;
    var res := ChildZipper(z, 0);
    assert FirstChild(z) == res;
    FirstChildMeasure(z);
    CandidateShows(aliases, z, 0);
    assert VisibleChildren(aliases, z) == Shown(aliases, res) + Parts(aliases, z, 1, n);
    assert Following(aliases, res) == Parts(aliases, z, 1, n) + OpenAfter(aliases, z);
    if !Visible(aliases, res) {
      WellFormedCounts(aliases, res);
      if res.node.visibleChildCount > 0 {
        assert VisibleChildren(aliases, res) == Parts(aliases, res, 0, |res.node.children|);
        assert |res.node.children| > 0;
        DownFirst(aliases, res);
      } else {
        RightFirst(aliases, res);
      }
    }
  }

  /** `right` finds the first visible position after `z`'s subtree under the same visible parent. */
  lemma {:induction false} RightFirst(aliases: AliasTable, z: Zipper)
    requires WellFormed(aliases, z)
    ensures Right(aliases, z) == First(Following(aliases, z))
    decreases After(z), 1, Depth(z)
  {
    match z.parent
    case None =>
    case Some(p) =>
      var n := |p.node.children|;
      if z.childIndex == n - 1 {
        LastChildMeasure(z);
        if !Visible(aliases, p) {
          RightFirst(aliases, p);
        }
      } else {
        NextChildZipper(p, z.childIndex);
        var res := ChildZipper(p, z.childIndex + 1);
        NextSiblingMeasure(z);
        ChildWellFormed(aliases, p, z.childIndex + 1);
        assert Following(aliases, z) == Shown(aliases, res) + Following(aliases, res);
        if !Visible(aliases, res) {
          RightFirst(aliases, res);
          if |res.node.children| > 0 {
            DownFirst(aliases, res);
            assert Down(aliases, res) == First(Following(aliases, z));
          } else {
            assert VisibleChildren(aliases, res) == Parts(aliases, res, 0, 0) == [];
          }
        }
      }
  }

  /** `downRight` finds the last of the visible children. */
  lemma {:induction false} DownRightLast(aliases: AliasTable, z: Zipper)
    requires WellFormed(aliases, z)
    ensures DownRight(aliases, z) == Last(VisibleChildren(aliases, z))
    decreases z.node
  {
    var n := |z.node.children|;
    if n > 0 {
      DownRightStartsAtLastCandidate(aliases, z);
      var c := LastCandidate(aliases, FirstChild(z), FirstChild(z));
      var k := c.childIndex;
      forall j | k < j < n
        ensures Shown(aliases, ChildZipper(z, j)) == []
      {
        CandidateShows(aliases, z, j);
      }
      PartsNone(aliases, z, k + 1, n);
      PartsAround(aliases, z, k);
      CandidateShows(aliases, z, k);
      if !Visible(aliases, c) {
        if c.node.visibleChildCount > 0 {
          DownRightLast(aliases, c);
        } else {
          assert Parts(aliases, z, 0, k) == [];
        }
      }
    }
  }

  /** The corrected `left` finds the last visible position before `z` under the same visible parent. */
  lemma {:induction false} LeftFixedLast(aliases: AliasTable, z: Zipper)
    requires WellFormed(aliases, z)
    ensures LeftFixed(aliases, z) == Last(Preceding(aliases, z))
    decreases Rank(z)
  {
    match z.parent
    case None =>
    case Some(p) =>
      if z.childIndex == 0 {
        if !Visible(aliases, p) {
          LeftFixedLast(aliases, p);
        }
      } else {
        var res := ChildZipper(p, z.childIndex - 1);
        NextChildZipper(p, z.childIndex - 1);
        NextThenPrevFixed(res);
        assert PrevSiblingFixed(z) == res;
        ChildWellFormed(aliases, p, z.childIndex - 1);
        PartsSnoc(aliases, p, 0, z.childIndex - 1);
        assert Preceding(aliases, z) == Preceding(aliases, res) + Shown(aliases, res);
        if !Visible(aliases, res) {
          DownRightLast(aliases, res);
          LeftFixedLast(aliases, res);
        }
      }
  }

  // ---------------------------------------------------------------------
  // `right` then `left`.

  /** What `down` finds has before it only what precedes an invisible `z` (nothing for a visible one). */
  lemma {:induction false} DownPreceding(aliases: AliasTable, z: Zipper)
    requires WellFormed(aliases, z) && Down(aliases, z).Some?
    ensures Preceding(aliases, Down(aliases, z).value) == OpenBefore(aliases, z)
    decreases After(z) + Size(z.node), 0, 0
  {
    var res := ChildZipper(z, 0);
    assert FirstChild(z) == res;
    FirstChildMeasure(z);
    CandidateShows(aliases, z, 0);
    assert Preceding(aliases, res) == OpenBefore(aliases, z) + Parts(aliases, z, 0, 0);
    if !Visible(aliases, res) {
      if res.node.visibleChildCount > 0 {
        DownPreceding(aliases, res);
      } else {
        RightPreceding(aliases, res);
      }
    }
  }

  /** Three sequences joined, regrouped to the left. */
  lemma Assoc<T>(a: seq<T>, b: seq<T>, c: seq<T>)
    ensures a + (b + c) == a + b + c
  {
  }

  /** What `right` finds has before it what precedes `z` and what `z` shows. */
  lemma {:induction false} RightPreceding(aliases: AliasTable, z: Zipper)
    requires WellFormed(aliases, z) && Right(aliases, z).Some?
    ensures Preceding(aliases, Right(aliases, z).value) == Preceding(aliases, z) + Shown(aliases, z)
    decreases After(z), 1, Depth(z)
  {
    var p := z.parent.value;
    var n := |p.node.children|;
    var before := Parts(aliases, p, 0, z.childIndex);
    assert z == ChildZipper(p, z.childIndex);
    if z.childIndex == n - 1 {
      LastChildMeasure(z);
      assert !Visible(aliases, p) && Right(aliases, z) == Right(aliases, p);
      RightPreceding(aliases, p);
      PartsSnoc(aliases, p, 0, z.childIndex);
      assert Shown(aliases, p) == before + Shown(aliases, z);
      assert Preceding(aliases, z) == Preceding(aliases, p) + before;
      Assoc(Preceding(aliases, p), before, Shown(aliases, z));
    } else {
      RightPrecedingPastSibling(aliases, z);
    }
  }

  /** The case of `RightPreceding` where `z` has a next sibling. */
  lemma {:induction false} RightPrecedingPastSibling(aliases: AliasTable, z: Zipper)
    requires WellFormed(aliases, z) && HasNext(z) && Right(aliases, z).Some?
    ensures Preceding(aliases, Right(aliases, z).value) == Preceding(aliases, z) + Shown(aliases, z)
    decreases After(z), 1, 0
  {
    var p := z.parent.value;
    var before := Parts(aliases, p, 0, z.childIndex);
    assert z == ChildZipper(p, z.childIndex);
    NextChildZipper(p, z.childIndex);
    var res := ChildZipper(p, z.childIndex + 1);
    NextSiblingMeasure(z);
    ChildWellFormed(aliases, p, z.childIndex + 1);
    PartsSnoc(aliases, p, 0, z.childIndex);
    assert Preceding(aliases, res) == OpenBefore(aliases, p) + (before + Shown(aliases, z));
    assert Preceding(aliases, z) == OpenBefore(aliases, p) + before;
    Assoc(OpenBefore(aliases, p), before, Shown(aliases, z));
    if Visible(aliases, res) {
      assert Right(aliases, z) == Some(res);
    } else if Down(aliases, res).Some? {
      assert Right(aliases, z) == Down(aliases, res);
      DownPreceding(aliases, res);
    } else {
      assert Right(aliases, z) == Right(aliases, res);
      RightPreceding(aliases, res);
      if |res.node.children| > 0 {
        DownFirst(aliases, res);
      }
      assert VisibleChildren(aliases, res) == [];
      assert Shown(aliases, res) == [];
    }
  }

  /** Whenever `right` succeeds from a visible position, the corrected `left` comes back to it. */
  lemma LeftFixedUndoesRight(aliases: AliasTable, z: Zipper)
    requires WellFormed(aliases, z) && Visible(aliases, z) && Right(aliases, z).Some?
    ensures LeftFixed(aliases, Right(aliases, z).value) == Some(z)
  {
    RightPreceding(aliases, z);
    LeftFixedLast(aliases, Right(aliases, z).value);
  }

  /** What `downRight` finds has after it only what follows an invisible `z` (nothing for a visible one). */
  lemma {:induction false} DownRightFollowing(aliases: AliasTable, z: Zipper)
    requires WellFormed(aliases, z) && DownRight(aliases, z).Some?
    ensures Following(aliases, DownRight(aliases, z).value) == OpenAfter(aliases, z)
    decreases z.node
  {
    var n := |z.node.children|;
    DownRightStartsAtLastCandidate(aliases, z);
    var c := LastCandidate(aliases, FirstChild(z), FirstChild(z));
    var k := c.childIndex;
    forall j | k < j < n
      ensures Shown(aliases, ChildZipper(z, j)) == []
    {
      CandidateShows(aliases, z, j);
    }
    PartsNone(aliases, z, k + 1, n);
    ChildWellFormed(aliases, z, k);
    assert Following(aliases, c) == OpenAfter(aliases, z);
    if !Visible(aliases, c) {
      DownRightFollowing(aliases, c);
    }
  }

  /** What the corrected `left` finds has after it what `z` shows and what follows `z`. */
  lemma {:induction false} LeftFixedFollowing(aliases: AliasTable, z: Zipper)
    requires WellFormed(aliases, z) && LeftFixed(aliases, z).Some?
    ensures Following(aliases, LeftFixed(aliases, z).value) == Shown(aliases, z) + Following(aliases, z)
    decreases Rank(z), 1
  {
    var p := z.parent.value;
    var n := |p.node.children|;
    assert z == ChildZipper(p, z.childIndex);
    if z.childIndex == 0 {
      var after := Parts(aliases, p, 1, n);
      assert !Visible(aliases, p) && LeftFixed(aliases, z) == LeftFixed(aliases, p);
      LeftFixedFollowing(aliases, p);
      assert Parts(aliases, p, 0, n) == Shown(aliases, z) + after;
      assert Shown(aliases, p) == Shown(aliases, z) + after;
      assert Following(aliases, z) == after + Following(aliases, p);
      Assoc(Shown(aliases, z), after, Following(aliases, p));
    } else {
      LeftFixedFollowingPastSibling(aliases, z);
    }
  }

  /** The case of `LeftFixedFollowing` where `z` has a previous sibling. */
  lemma {:induction false} LeftFixedFollowingPastSibling(aliases: AliasTable, z: Zipper)
    requires WellFormed(aliases, z) && z.parent.Some? && z.childIndex > 0 && LeftFixed(aliases, z).Some?
    ensures Following(aliases, LeftFixed(aliases, z).value) == Shown(aliases, z) + Following(aliases, z)
    decreases Rank(z), 0
  {
    var p := z.parent.value;
    var n := |p.node.children|;
    var after := Parts(aliases, p, z.childIndex + 1, n);
    assert z == ChildZipper(p, z.childIndex);
    var res := ChildZipper(p, z.childIndex - 1);
    NextChildZipper(p, z.childIndex - 1);
    NextThenPrevFixed(res);
    assert PrevSiblingFixed(z) == res;
    ChildWellFormed(aliases, p, z.childIndex - 1);
    assert Parts(aliases, p, z.childIndex, n) == Shown(aliases, z) + after;
    assert Following(aliases, res) == (Shown(aliases, z) + after) + OpenAfter(aliases, p);
    assert Following(aliases, z) == after + OpenAfter(aliases, p);
    Assoc(Shown(aliases, z), after, OpenAfter(aliases, p));
    if Visible(aliases, res) {
      assert LeftFixed(aliases, z) == Some(res);
    } else if DownRight(aliases, res).Some? {
      assert LeftFixed(aliases, z) == DownRight(aliases, res);
      DownRightFollowing(aliases, res);
    } else {
      assert LeftFixed(aliases, z) == LeftFixed(aliases, res);
      LeftFixedFollowing(aliases, res);
      DownRightLast(aliases, res);
      assert Shown(aliases, res) == [];
    }
  }

  /** Whenever the corrected `left` succeeds from a visible position, `right` comes back to it. */
  lemma RightUndoesLeftFixed(aliases: AliasTable, z: Zipper)
    requires WellFormed(aliases, z) && Visible(aliases, z) && LeftFixed(aliases, z).Some?
    ensures Right(aliases, LeftFixed(aliases, z).value) == Some(z)
  {
    LeftFixedFollowing(aliases, z);
    RightFirst(aliases, LeftFixed(aliases, z).value);
  }

  // ---------------------------------------------------------------------
  // Levels, ancestors and membership.

  /** A row with something before and after it, regrouped. */
  lemma Surround<T>(x: seq<T>, a: seq<T>, s: seq<T>, b: seq<T>, y: seq<T>)
    ensures (x + a) + s + (b + y) == x + (a + s + b) + y
  {
  }

  /** Before `z`, what `z` shows, and after `z` make up the level of `z`. */
  lemma {:induction false} LevelSplits(aliases: AliasTable, z: Zipper)
    requires WellFormed(aliases, z)
    ensures Preceding(aliases, z) + Shown(aliases, z) + Following(aliases, z) == Level(aliases, z)
    decreases z
  {
    match z.parent
    case None =>
      assert Top(z) == z;
    case Some(p) =>
      var n := |p.node.children|;
      var before := Parts(aliases, p, 0, z.childIndex);
      var after := Parts(aliases, p, z.childIndex + 1, n);
      assert z == ChildZipper(p, z.childIndex);
      PartsAround(aliases, p, z.childIndex);
      assert VisibleChildren(aliases, p) == before + Shown(aliases, z) + after;
      Surround(OpenBefore(aliases, p), before, Shown(aliases, z), after, OpenAfter(aliases, p));
      if Visible(aliases, p) {
        assert Up(aliases, z) == Some(p);
        assert OpenBefore(aliases, p) == [] && OpenAfter(aliases, p) == [];
      } else {
        assert Up(aliases, z) == Up(aliases, p) && Top(z) == Top(p);
        assert Shown(aliases, p) == VisibleChildren(aliases, p);
        LevelSplits(aliases, p);
      }
  }

  /**
   * A visible position sits in its level between what precedes and what
   * follows it; `right` and the corrected `left` move to its neighbours
   * there, and find nothing at the ends.
   */
  lemma VisibleNeighbours(aliases: AliasTable, z: Zipper)
    requires WellFormed(aliases, z) && Visible(aliases, z)
    ensures var s := Level(aliases, z); var i := |Preceding(aliases, z)|;
      i < |s| && s[i] == z &&
      Right(aliases, z) == (if i + 1 < |s| then Some(s[i + 1]) else None) &&
      LeftFixed(aliases, z) == (if i > 0 then Some(s[i - 1]) else None)
  {
    LevelSplits(aliases, z);
    RightFirst(aliases, z);
    LeftFixedLast(aliases, z);
  }

  /** `up` is the nearest visible proper ancestor, and there is none exactly when no ancestor is visible. */
  lemma {:induction false} UpIsNearestVisibleAncestor(aliases: AliasTable, z: Zipper)
    requires Valid(z)
    ensures Up(aliases, z).None? <==> forall i :: 0 <= i < |Ancestors(z)| ==> !Visible(aliases, Ancestors(z)[i])
    ensures Up(aliases, z).Some? ==> exists i :: (0 <= i < |Ancestors(z)| && Ancestors(z)[i] == Up(aliases, z).value &&
      forall j :: 0 <= j < i ==> !Visible(aliases, Ancestors(z)[j]))
    decreases z
  {
    match z.parent
    case None =>
    case Some(p) =>
      var a := Ancestors(z);
      assert a == [p] + Ancestors(p);
      if Visible(aliases, p) {
        assert Up(aliases, z) == Some(p);
        assert 0 < |Ancestors(z)| && Visible(aliases, Ancestors(z)[0]);
        assert !(forall i :: 0 <= i < |Ancestors(z)| ==> !Visible(aliases, Ancestors(z)[i]));
        assert Up(aliases, z).None? <==> forall i :: 0 <= i < |Ancestors(z)| ==> !Visible(aliases, Ancestors(z)[i]);
      } else {
        UpIsNearestVisibleAncestor(aliases, p);
        if Up(aliases, p).Some? {
          var i :| 0 <= i < |Ancestors(p)| && Ancestors(p)[i] == Up(aliases, p).value &&
            forall j :: 0 <= j < i ==> !Visible(aliases, Ancestors(p)[j]);
          assert a[i + 1] == Up(aliases, z).value && Visible(aliases, a[i + 1]);
          assert forall j :: 0 <= j < i + 1 ==> !Visible(aliases, a[j]);
        } else {
          forall i | 0 <= i < |a|
            ensures !Visible(aliases, a[i])
          {
            if i > 0 {
              assert a[i] == Ancestors(p)[i - 1];
            }
          }
        }
      }
  }

  /**
   * Every visible child of `z` is a visible, well-formed position of the
   * same tree whose `up` is `z` (or, below an invisible `z`, `z`'s own `up`).
   */
  lemma {:induction false} VisibleChildrenBelong(aliases: AliasTable, z: Zipper)
    requires WellFormed(aliases, z)
    ensures forall x :: x in VisibleChildren(aliases, z) ==>
      WellFormed(aliases, x) && Visible(aliases, x) && Top(x) == Top(z) &&
      Up(aliases, x) == if Visible(aliases, z) then Some(z) else Up(aliases, z)
    decreases z.node, 1
  {
    PartsBelong(aliases, z, 0, |z.node.children|);
  }

  lemma {:induction false} PartsBelong(aliases: AliasTable, p: Zipper, i: nat, j: nat)
    requires WellFormed(aliases, p) && i <= j <= |p.node.children|
    ensures forall x :: x in Parts(aliases, p, i, j) ==>
      WellFormed(aliases, x) && Visible(aliases, x) && Top(x) == Top(p) &&
      Up(aliases, x) == if Visible(aliases, p) then Some(p) else Up(aliases, p)
    decreases p.node, 0, j - i
  {
    if i < j {
      var c := ChildZipper(p, i);
      ChildWellFormed(aliases, p, i);
      if !Visible(aliases, c) {
        VisibleChildrenBelong(aliases, c);
      }
      PartsBelong(aliases, p, i + 1, j);
    }
  }

  /**
   * From a visible position, `down` and `downRight` find the first and the
   * last of its visible children, nothing exactly when it has none, and what
   * they find lies below it.
   */
  lemma DownIsFirstVisibleChild(aliases: AliasTable, z: Zipper)
    requires WellFormed(aliases, z) && Visible(aliases, z)
    ensures Down(aliases, z) == First(VisibleChildren(aliases, z))
    ensures DownRight(aliases, z) == Last(VisibleChildren(aliases, z))
    ensures Down(aliases, z).Some? ==> z in Ancestors(Down(aliases, z).value)
    ensures DownRight(aliases, z).Some? ==> z in Ancestors(DownRight(aliases, z).value)
  {
    if |z.node.children| > 0 {
      DownFirst(aliases, z);
      assert OpenAfter(aliases, z) == [];
    } else {
      assert VisibleChildren(aliases, z) == Parts(aliases, z, 0, 0);
    }
    DownRightLast(aliases, z);
    if Down(aliases, z).Some? {
      UpIsNearestVisibleAncestor(aliases, Down(aliases, z).value);
    }
    if DownRight(aliases, z).Some? {
      UpIsNearestVisibleAncestor(aliases, DownRight(aliases, z).value);
    }
  }
}
