/**
 * Handles on native trees and subtrees: pointer identity, the sizes read
 * through the subtree layout, the root zipper, and `adjust`, which copies a
 * native tree and edits the copy.
 */
module TSTree {
  import opened Wrappers
  import opened Memory
  import opened SubtreeAccess
  import SubtreeLayout
  import TSZipper

  /** What keeps a handle's native memory alive. */
  datatype Lifetime = NoLifetime | TreeResource(treePtr: Ptr) | SubtreeResource(subtreePtr: Ptr)

  /** A subtree handle: the language it belongs to, its slot, and its lifetime. */
  datatype Handle = Handle(language: Ptr, subtreePtr: Ptr, lifetime: Lifetime)

  /** Two handles are equal when they hold the same slot. */
  predicate Equal(a: Handle, b: Handle) {
    a.subtreePtr == b.subtreePtr
  }

  /** The low 32 bits of the slot plus one, as a wrapping Kotlin `Int`. */
  function HashCode(h: Handle): (r: Int32)
    ensures r == AsInt((LongBits(h.subtreePtr) + 1) % 0x1_0000_0000)
  {
    var low := AsInt(LongBits(h.subtreePtr) % 0x1_0000_0000);
    AsInt((IntBits(low) + 1) % 0x1_0000_0000)
  }

  /**
   * Equality is an equivalence that ignores the language and the lifetime,
   * and equal handles hash alike.
   */
  lemma EqualityAndHash(a: Handle, b: Handle, c: Handle, language: Ptr, lifetime: Lifetime)
    ensures Equal(a, a) && (Equal(a, b) ==> Equal(b, a)) && (Equal(a, b) && Equal(b, c) ==> Equal(a, c))
    ensures Equal(a, a.(language := language, lifetime := lifetime))
    ensures Equal(a, b) ==> HashCode(a) == HashCode(b)
  {
  }

  /** Slots 2^32 apart hash alike: the hash only sees the low word. */
  lemma HashCollision(a: Handle, b: Handle)
    requires b.subtreePtr == a.subtreePtr + 0x1_0000_0000
    ensures HashCode(a) == HashCode(b) && !Equal(a, b)
  {
    assert LongBits(b.subtreePtr) % 0x1_0000_0000 == LongBits(a.subtreePtr) % 0x1_0000_0000;
  }

  function ByteSize(mem: Heap, h: Handle): (r: Int32)
    requires HeapField(mem, h.subtreePtr, SizeOffset, 4)
    ensures IsInline(h.subtreePtr) ==> 0 <= r < 0x100
  {
    SubtreeBytesSize(mem, h.subtreePtr)
  }

  function Padding(mem: Heap, h: Handle): (r: Int32)
    requires HeapField(mem, h.subtreePtr, PaddingOffset, 4)
    ensures IsInline(h.subtreePtr) ==> 0 <= r < 0x100
  {
    SubtreeBytesPadding(mem, h.subtreePtr)
  }

  /** A handle reports the size and padding its node was stored with, inline or on the heap. */
  lemma SizesOfStoredNodes(mem: Heap, language: Ptr, lifetime: Lifetime,
                           n: SubtreeLayout.InlineNode, p: Ptr, h: SubtreeLayout.HeapNode)
    requires SubtreeLayout.ValidInline(n)
    requires SubtreeLayout.ValidHeap(h) && p % 8 == 0
    ensures var i := Handle(language, SubtreeLayout.InlineSlot(n), lifetime);
      ByteSize(mem, i) == n.size && Padding(mem, i) == n.padding
    ensures var m := SubtreeLayout.StoreHeap(mem, p, h);
      var j := Handle(language, p, lifetime);
      HeapField(m, p, SizeOffset, 4) && HeapField(m, p, PaddingOffset, 4) &&
      ByteSize(m, j) == h.size && Padding(m, j) == h.padding
  {
    SubtreeLayout.InlineRoundTrip(mem, n);
    SubtreeLayout.HeapRoundTrip(mem, p, h);
  }

  /**
   * The zipper at the root of the subtree the handle holds, whose concrete
   * shape is `t`: no parent, child index 0, structural index 0, no alias
   * row, and the offset just past the root's padding.
   */
  function RootZipper(mem: Heap, h: Handle, t: TSZipper.Subtree): (z: TSZipper.Zipper)
    requires HeapField(mem, h.subtreePtr, PaddingOffset, 4)
  {
    TSZipper.Zipper(None, 0, t, Padding(mem, h), 0, 0)
  }

  /**
   * The root zipper is a consistent position, so every navigation property
   * applies to it; a visible first child starts at the same offset, past
   * the padding.
   */
  lemma RootZipperIsConsistent(mem: Heap, h: Handle, t: TSZipper.Subtree, aliases: TSZipper.AliasTable)
    requires HeapField(mem, h.subtreePtr, PaddingOffset, 4)
    ensures TSZipper.Consistent(RootZipper(mem, h, t)) && TSZipper.Valid(RootZipper(mem, h, t))
    ensures TSZipper.Up(aliases, RootZipper(mem, h, t)).None?
    ensures |t.children| > 0 && TSZipper.Visible(aliases, TSZipper.ChildZipper(RootZipper(mem, h, t), 0)) ==>
      TSZipper.Down(aliases, RootZipper(mem, h, t)) == Some(TSZipper.ChildZipper(RootZipper(mem, h, t), 0)) &&
      TSZipper.Down(aliases, RootZipper(mem, h, t)).value.byteOffset == Padding(mem, h)
  {
    var z := RootZipper(mem, h, t);
    TSZipper.ConsistentIsValid(z);
    if |t.children| > 0 && TSZipper.Visible(aliases, TSZipper.ChildZipper(z, 0)) {
      TSZipper.DownToFirstChild(aliases, z);
    }
  }

  // ---------------------------------------------------------------------
  // Trees and `adjust`.

  /** An edit of the text: the bytes from `startByte` to `oldEndByte` now end at `newEndByte`. */
  datatype Edit = Edit(startByte: int, oldEndByte: int, newEndByte: int)

  /** What a native tree record holds: its root slot and the edits applied to it. */
  datatype NativeTree = NativeTree(root: Ptr, edits: seq<Edit>)

  /** A tree handle: the native tree, its root subtree, and whether it matches its text. */
  datatype Tree = Tree(treePtr: Ptr, root: Handle, actual: bool)

  /** A native tree after `edits`, in order; `editRoot` is the native edit of the root. */
  function ApplyEdits(editRoot: (Ptr, Edit) -> Ptr, t: NativeTree, edits: seq<Edit>): (r: NativeTree)
    ensures r.edits == t.edits + edits
    decreases |edits|
  {
    if edits == [] then t
    else ApplyEdits(editRoot, NativeTree(editRoot(t.root, edits[0]), t.edits + [edits[0]]), edits[1..])
  }

  /** Applying edits in two batches is applying them all at once. */
  lemma {:induction false} ApplyEditsAppend(editRoot: (Ptr, Edit) -> Ptr, t: NativeTree, a: seq<Edit>, b: seq<Edit>)
    ensures ApplyEdits(editRoot, t, a + b) == ApplyEdits(editRoot, ApplyEdits(editRoot, t, a), b)
    decreases |a|
  {
    if a != [] {
      assert (a + b)[0] == a[0] && (a + b)[1..] == a[1..] + b;
      ApplyEditsAppend(editRoot, NativeTree(editRoot(t.root, a[0]), t.edits + [a[0]]), a[1..], b);
    } else {
      assert a + b == b;
    }
  }

  /**
   * The native side: the live tree records by address, and the next free
   * address, above every live record (0 is never an address).
   */
  class NativeTrees {
    var trees: map<Ptr, NativeTree>
    var nextPtr: Ptr
    /** The native edit of a root slot, whose algorithm is not part of this model. */
    const editRoot: (Ptr, Edit) -> Ptr

    predicate Valid()
      reads this
    {
      0 < nextPtr && forall p :: p in trees ==> 0 < p < nextPtr
    }

    constructor (editRoot: (Ptr, Edit) -> Ptr)
      ensures Valid() && trees == map[] && this.editRoot == editRoot
    {
      trees := map[];
      nextPtr := 1;
      this.editRoot := editRoot;
    }

    /** A fresh record holding what `p` holds. */
    method CopyTree(p: Ptr) returns (q: Ptr)
      requires Valid() && p in trees && nextPtr < 0x7FFF_FFFF_FFFF_FFFF
      modifies this
      ensures Valid() && q !in old(trees)
      ensures trees == old(trees)[q := old(trees)[p]]
    {
      q := nextPtr;
      trees := trees[q := trees[p]];
      nextPtr := nextPtr + 1;
    }

    /** A fresh record for a newly parsed tree with root slot `root`. */
    method NewTree(root: Ptr) returns (p: Ptr)
      requires Valid() && nextPtr < 0x7FFF_FFFF_FFFF_FFFF
      modifies this
      ensures Valid() && p != 0 && p !in old(trees)
      ensures trees == old(trees)[p := NativeTree(root, [])]
    {
      p := nextPtr;
      trees := trees[p := NativeTree(root, [])];
      nextPtr := nextPtr + 1;
    }

    /** Frees the record at `p`. */
    method ReleaseTree(p: Ptr)
      requires Valid()
      modifies this
      ensures Valid() && nextPtr == old(nextPtr)
      ensures trees == old(trees) - {p}
    {
      trees := trees - {p};
    }

    /** Edits the record at `p` in place. */
    method EditTree(p: Ptr, e: Edit)
      requires Valid() && p in trees
      modifies this
      ensures Valid() && nextPtr == old(nextPtr)
      ensures trees == old(trees)[p := NativeTree(editRoot(old(trees)[p].root, e), old(trees)[p].edits + [e])]
    {
      trees := trees[p := NativeTree(editRoot(trees[p].root, e), trees[p].edits + [e])];
    }
  }

  /**
   * `adjust`: no edits give back the same tree; otherwise a fresh copy of
   * the native tree receives every edit in order, the original record is
   * left as it was, and the result is a non-actual tree whose root is the
   * copy's root, kept alive by the copy.
   */
  method Adjust(native: NativeTrees, t: Tree, edits: seq<Edit>) returns (r: Tree)
    requires native.Valid() && t.treePtr in native.trees && native.nextPtr < 0x7FFF_FFFF_FFFF_FFFF
    modifies native
    ensures native.Valid()
    ensures edits == [] ==> r == t && native.trees == old(native.trees)
    ensures edits != [] ==>
      r.treePtr !in old(native.trees) &&
      native.trees == old(native.trees)[r.treePtr := ApplyEdits(native.editRoot, old(native.trees)[t.treePtr], edits)] &&
      r == Tree(r.treePtr, t.root.(subtreePtr := native.trees[r.treePtr].root, lifetime := TreeResource(r.treePtr)), false)
  {
    if edits == [] {
      return t;
    }
    var treeCopy := native.CopyTree(t.treePtr);
    var i := 0;
    while i < |edits|
      invariant 0 <= i <= |edits|
      invariant native.Valid() && treeCopy !in old(native.trees)
      invariant native.trees ==
        old(native.trees)[treeCopy := ApplyEdits(native.editRoot, old(native.trees)[t.treePtr], edits[..i])]
    {
      ApplyEditsAppend(native.editRoot, old(native.trees)[t.treePtr], edits[..i], [edits[i]]);
      assert edits[..i + 1] == edits[..i] + [edits[i]];
      native.EditTree(treeCopy, edits[i]);
      i := i + 1;
    }
    assert edits[..i] == edits;
    r := Tree(treeCopy, t.root.(subtreePtr := native.trees[treeCopy].root, lifetime := TreeResource(treeCopy)), false);
  }
}
