/**
 * A zipper that carries an accumulator: a wrapper around a tree zipper that
 * remembers the reducing zipper it went down from (or the initial value at
 * the root), and whose accumulator folds the reducer over the positions on
 * the way down.
 *
 * The reducer is fixed when the root wrapper is made and every move copies
 * it unchanged, so it is passed to `Acc` rather than stored.
 */
module Reducing {
  import opened Wrappers
  import opened TSZipper

  datatype ParentOrInit<A> = Init(init: A) | Parent(parent: ReducingZipper<A>)

  datatype ReducingZipper<A> = ReducingZipper(parentOrInit: ParentOrInit<A>, z: Zipper)

  /** The wrapper at a root zipper, starting from `init`. */
  function ReducingZipperOf<A>(init: A, z: Zipper): (r: ReducingZipper<A>)
    ensures r.parentOrInit == Init(init) && r.z == z
  {
    ReducingZipper(Init(init), z)
  }

  /** The recorded parent; none at the root, whatever the wrapped zipper's own parent is. */
  function Up<A>(r: ReducingZipper<A>): (u: Option<ReducingZipper<A>>)
    ensures u.None? <==> r.parentOrInit.Init?
    ensures u.Some? ==> u.value == r.parentOrInit.parent
  {
    match r.parentOrInit
    case Init(_) => None
    case Parent(p) => Some(p)
  }

  /** `down` of the wrapped zipper, recording this wrapper as the parent. */
  function Down<A>(aliases: AliasTable, r: ReducingZipper<A>): (d: Option<ReducingZipper<A>>)
    requires Valid(r.z)
    ensures d.None? <==> TSZipper.Down(aliases, r.z).None?
    ensures d.Some? ==> d.value.z == TSZipper.Down(aliases, r.z).value && Up(d.value) == Some(r)
  {
    match TSZipper.Down(aliases, r.z)
    case None => None
    case Some(down) => Some(ReducingZipper(Parent(r), down))
  }

  /** `right` of the wrapped zipper, under the same parent or initial value. */
  function Right<A>(aliases: AliasTable, r: ReducingZipper<A>): (s: Option<ReducingZipper<A>>)
    requires Valid(r.z)
    ensures s.None? <==> TSZipper.Right(aliases, r.z).None?
    ensures s.Some? ==> s.value.z == TSZipper.Right(aliases, r.z).value && s.value.parentOrInit == r.parentOrInit
  {
    match TSZipper.Right(aliases, r.z)
    case None => None
    case Some(right) => Some(ReducingZipper(r.parentOrInit, right))
  }

  /** `left` of the wrapped zipper (the corrected step), under the same parent or initial value. */
  function Left<A>(aliases: AliasTable, r: ReducingZipper<A>): (s: Option<ReducingZipper<A>>)
    requires Valid(r.z)
    ensures s.None? <==> LeftFixed(aliases, r.z).None?
    ensures s.Some? ==> s.value.z == LeftFixed(aliases, r.z).value && s.value.parentOrInit == r.parentOrInit
  {
    match LeftFixed(aliases, r.z)
    case None => None
    case Some(left) => Some(ReducingZipper(r.parentOrInit, left))
  }

  /** The node, offset and alias are those of the wrapped zipper. */
  function Node<A>(r: ReducingZipper<A>): (n: Subtree)
    ensures n == r.z.node
  {
    r.z.node
  }

  function ByteOffset<A>(r: ReducingZipper<A>): (o: int)
    ensures o == r.z.byteOffset
  {
    r.z.byteOffset
  }

  function AliasOf<A>(aliases: AliasTable, r: ReducingZipper<A>): (a: Option<nat>)
    ensures a == Alias(aliases, r.z)
  {
    Alias(aliases, r.z)
  }

  /** The reducer applied to the parent's accumulator (or the initial value) and this position. */
  function Acc<A>(reducer: (A, Zipper) -> A, r: ReducingZipper<A>): A
    decreases r
  {
    var parentAcc := match r.parentOrInit
      case Init(init) => init
      case Parent(p) => Acc(reducer, p);
    reducer(parentAcc, r.z)
  }

  // ---------------------------------------------------------------------
  // The accumulator as a fold along the path down.

  /** The initial value at the top of the chain of recorded parents. */
  function InitOf<A>(r: ReducingZipper<A>): A
    decreases r
  {
    match r.parentOrInit
    case Init(init) => init
    case Parent(p) => InitOf(p)
  }

  /** The wrapped zippers from the top of the chain down to `r`. */
  function Path<A>(r: ReducingZipper<A>): (path: seq<Zipper>)
    ensures |path| > 0 && path[|path| - 1] == r.z
    decreases r
  {
    match r.parentOrInit
    case Init(_) => [r.z]
    case Parent(p) => Path(p) + [r.z]
  }

  /** A left fold. */
  function FoldLeft<A>(reducer: (A, Zipper) -> A, init: A, zs: seq<Zipper>): A
    decreases |zs|
  {
    if zs == [] then init else reducer(FoldLeft(reducer, init, zs[..|zs| - 1]), zs[|zs| - 1])
  }

  /** The accumulator is the reducer folded over the path from the initial value. */
  lemma {:induction false} AccIsFold<A>(reducer: (A, Zipper) -> A, r: ReducingZipper<A>)
    ensures Acc(reducer, r) == FoldLeft(reducer, InitOf(r), Path(r))
    decreases r
  {
    match r.parentOrInit
    case Init(_) =>
    case Parent(p) =>
      AccIsFold(reducer, p);
      var path := Path(r);
      assert path[..|path| - 1] == Path(p);
  }

  /** At the root the accumulator is the reducer applied to the initial value and the root zipper. */
  lemma RootAcc<A>(reducer: (A, Zipper) -> A, init: A, z: Zipper)
    ensures Acc(reducer, ReducingZipperOf(init, z)) == reducer(init, z)
    ensures Path(ReducingZipperOf(init, z)) == [z]
  {
  }

  /** Going down extends the path, and the accumulator folds in the new position. */
  lemma DownAcc<A>(reducer: (A, Zipper) -> A, aliases: AliasTable, r: ReducingZipper<A>)
    requires Valid(r.z) && Down(aliases, r).Some?
    ensures var d := Down(aliases, r).value;
      Acc(reducer, d) == reducer(Acc(reducer, r), d.z) &&
      Path(d) == Path(r) + [d.z] && InitOf(d) == InitOf(r)
  {
  }

  /** Moving sideways replaces the last position of the path and keeps the parent's accumulator. */
  lemma SidewaysAcc<A>(reducer: (A, Zipper) -> A, aliases: AliasTable, r: ReducingZipper<A>)
    requires Valid(r.z)
    ensures Right(aliases, r).Some? ==> var s := Right(aliases, r).value;
      Path(s) == Path(r)[..|Path(r)| - 1] + [s.z] && InitOf(s) == InitOf(r) &&
      Up(s) == Up(r)
    ensures Left(aliases, r).Some? ==> var s := Left(aliases, r).value;
      Path(s) == Path(r)[..|Path(r)| - 1] + [s.z] && InitOf(s) == InitOf(r) &&
      Up(s) == Up(r)
  {
  }

  // ---------------------------------------------------------------------
  // The recorded parent and the wrapped zipper's own `up`.

  /**
   * Each recorded parent is visible and is what the wrapped zipper's `up`
   * finds, and the top of the chain has no visible ancestor.
   */
  predicate Tracks<A>(aliases: AliasTable, r: ReducingZipper<A>)
    decreases r
  {
    Valid(r.z) &&
    match r.parentOrInit
    case Init(_) => TSZipper.Up(aliases, r.z).None?
    case Parent(p) => Tracks(aliases, p) && Visible(aliases, p.z) && TSZipper.Up(aliases, r.z) == Some(p.z)
  }

  /** Where the chain tracks the tree, the recorded parent is the wrapped zipper's `up`. */
  lemma UpAgrees<A>(aliases: AliasTable, r: ReducingZipper<A>)
    requires Tracks(aliases, r)
    ensures Up(r).None? <==> TSZipper.Up(aliases, r.z).None?
    ensures Up(r).Some? ==> Up(r).value.z == TSZipper.Up(aliases, r.z).value
  {
  }

  /** Moves keep the chain tracking the tree; `down` needs a visible start. */
  lemma MovesTrack<A>(aliases: AliasTable, r: ReducingZipper<A>)
    requires Tracks(aliases, r)
    ensures Visible(aliases, r.z) && Down(aliases, r).Some? ==> Tracks(aliases, Down(aliases, r).value)
    ensures Right(aliases, r).Some? ==> Tracks(aliases, Right(aliases, r).value)
    ensures Left(aliases, r).Some? ==> Tracks(aliases, Left(aliases, r).value)
  {
  }

  /**
   * Over an invisible root the chain stops tracking: `down` records the
   * root, but the wrapped zipper's `up` skips it.
   */
  lemma DownFromInvisibleRoot<A>(aliases: AliasTable, init: A, z: Zipper)
    requires Valid(z) && z.parent.None? && !Visible(aliases, z)
    requires TSZipper.Down(aliases, z).Some?
    ensures Up(Down(aliases, ReducingZipperOf(init, z)).value) == Some(ReducingZipperOf(init, z))
    ensures TSZipper.Up(aliases, Down(aliases, ReducingZipperOf(init, z)).value.z).None?
  {
  }
}
