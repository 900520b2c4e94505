/**
 * How tree-sitter lays out the subtrees the readers decode: the packed
 * inline word, the heap record, the children array and the language's alias
 * table. Each encoder is the partner of the readers, and the lemmas here
 * show that the readers recover what was encoded.
 */
module SubtreeLayout {
  import opened Wrappers
  import opened Memory
  import opened SubtreeAccess
  import TSZipper
  import VisibleTree

  // ---------------------------------------------------------------------
  // Storing a record as a list of fields.

  /** `width` little-endian bytes holding `value`, `offset` bytes into a record. */
  datatype Field = Field(offset: int, width: nat, value: nat)

  /** Fields sorted by offset that do not overlap. */
  predicate Ordered(fs: seq<Field>) {
    forall i, j :: 0 <= i < j < |fs| ==> fs[i].offset + fs[i].width <= fs[j].offset
  }

  /** Writes the fields of a record starting at `base`, in order. */
  function StoreFields(mem: Heap, base: int, fs: seq<Field>): Heap
    decreases |fs|
  {
    if fs == [] then mem
    else StoreFields(StoreLE(mem, base + fs[0].offset, fs[0].width, fs[0].value), base, fs[1..])
  }

  /** Storing fields leaves the loads of a range that none of them covers unchanged. */
  lemma {:induction false} LoadAcrossFields(mem: Heap, base: int, fs: seq<Field>, a: int, n: nat)
    requires Mapped(mem, a, n)
    requires forall j :: 0 <= j < |fs| ==> a + n <= base + fs[j].offset || base + fs[j].offset + fs[j].width <= a
    ensures Mapped(StoreFields(mem, base, fs), a, n)
    ensures LoadLE(StoreFields(mem, base, fs), a, n) == LoadLE(mem, a, n)
    decreases |fs|
  {
    if fs != [] {
      var next := StoreLE(mem, base + fs[0].offset, fs[0].width, fs[0].value);
      LoadAcrossStore(mem, base + fs[0].offset, fs[0].width, fs[0].value, a, n);
      LoadAcrossFields(next, base, fs[1..], a, n);
    }
  }

  /** A stored field is read back, whatever fields follow it. */
  lemma {:induction false} LoadStoredField(mem: Heap, base: int, fs: seq<Field>, k: nat)
    requires Ordered(fs) && k < |fs|
    requires fs[k].value < Pow256(fs[k].width)
    ensures Mapped(StoreFields(mem, base, fs), base + fs[k].offset, fs[k].width)
    ensures LoadLE(StoreFields(mem, base, fs), base + fs[k].offset, fs[k].width) == fs[k].value
    decreases |fs|
  {
    var next := StoreLE(mem, base + fs[0].offset, fs[0].width, fs[0].value);
    if k == 0 {
      LoadAfterStore(mem, base + fs[0].offset, fs[0].width, fs[0].value);
      LoadAcrossFields(next, base, fs[1..], base + fs[0].offset, fs[0].width);
    } else {
      LoadStoredField(next, base, fs[1..], k - 1);
    }
  }

  // ---------------------------------------------------------------------
  // Inline nodes.

  /** The fields of an inline node, packed in its slot's bytes. */
  datatype InlineNode = InlineNode(
    visible: bool, named: bool, extra: bool, otherFlags: nat,
    symbol: Byte, padding: Byte, size: Byte, rest: nat)

  predicate ValidInline(n: InlineNode) {
    n.otherFlags < 0x10 && n.rest < 0x1_0000_0000
  }

  function Bit(b: bool): nat {
    if b then 1 else 0
  }

  /** Byte 0: the tag bit, then visible, named and extra, then the other flags. */
  function InlineFlags(n: InlineNode): (f: nat)
    requires ValidInline(n)
    ensures f < 0x100
  {
    1 + 2 * Bit(n.visible) + 4 * Bit(n.named) + 8 * Bit(n.extra) + 0x10 * n.otherFlags
  }

  /** The slot of an inline node: flags, symbol, padding and size in bytes 0 to 3. */
  function InlineSlot(n: InlineNode): (s: Ptr)
    requires ValidInline(n)
  {
    AsLong(InlineFlags(n) + 0x100 * (n.symbol + 0x100 * (n.padding + 0x100 * (n.size + 0x100 * n.rest))))
  }

  /** The low four bytes of a word built from them. */
  lemma LowBytes(f: Byte, a: Byte, b: Byte, c: Byte, rest: nat)
    ensures var w := f + 0x100 * (a + 0x100 * (b + 0x100 * (c + 0x100 * rest)));
      ByteAt(w, 0) == f && ByteAt(w, 1) == a && ByteAt(w, 2) == b && ByteAt(w, 3) == c
  {
    var q3 := c + 0x100 * rest;
    var q2 := b + 0x100 * q3;
    var q1 := a + 0x100 * q2;
    var w := f + 0x100 * q1;
    DivModUnique(w, 0x100, q1, f);
    DivModUnique(q1, 0x100, q2, a);
    DivModUnique(q2, 0x100, q3, b);
    DivModUnique(q3, 0x100, rest, c);
    assert ByteAt(w, 1) == ByteAt(q1, 0);
    assert ByteAt(w, 2) == ByteAt(q2, 0) by {
      assert ByteAt(w, 2) == ByteAt(q1, 1);
    }
    assert ByteAt(w, 3) == ByteAt(q3, 0) by {
      assert ByteAt(w, 3) == ByteAt(q1, 2);
      assert ByteAt(q1, 2) == ByteAt(q2, 1);
    }
  }

  /** `and` with bit value 2 tests the second bit. */
  lemma BitTwo(x: nat)
    ensures BitAnd(x, 2) == 2 * ((x / 2) % 2)
  {
    BitAndDouble(x, 1);
    BitAndLowMask(x / 2, 1);
  }

  /** `and` with bit value 4 tests the third bit. */
  lemma BitFour(x: nat)
    ensures BitAnd(x, 4) == 4 * ((x / 4) % 2)
  {
    BitAndQuadruple(x, 1);
    BitAndLowMask(x / 4, 1);
  }

  /** `and` with bit value 8 tests the fourth bit. */
  lemma BitEight(x: nat)
    ensures BitAnd(x, 8) == 8 * ((x / 8) % 2)
  {
    BitAndQuadruple(x, 2);
    BitAndDouble(x / 4, 1);
    BitAndLowMask((x / 4) / 2, 1);
    assert (x / 4) / 2 == x / 8;
  }

  /** The bytes of an inline slot are the encoded flags, symbol, padding and size. */
  lemma InlineSlotBytes(n: InlineNode)
    requires ValidInline(n)
    ensures IsInline(InlineSlot(n))
    ensures LongByte(InlineSlot(n), 0) == Some(InlineFlags(n))
    ensures LongByte(InlineSlot(n), 1) == Some(n.symbol)
    ensures LongByte(InlineSlot(n), 2) == Some(n.padding)
    ensures LongByte(InlineSlot(n), 3) == Some(n.size)
  {
    var f := InlineFlags(n);
    var w := f + 0x100 * (n.symbol + 0x100 * (n.padding + 0x100 * (n.size + 0x100 * n.rest)));
    var slot := InlineSlot(n);
    assert LongBits(slot) == w by {
      LongBitsAsLong(w);
    }
    assert IsInline(slot) by {
      BitAndLowMask(w, 1);
    }
    LowBytes(f, n.symbol, n.padding, n.size, n.rest);
    assert LongByte(slot, 0) == Some(ByteAt(w, 0));
    assert LongByte(slot, 1) == Some(ByteAt(w, 1));
    assert LongByte(slot, 2) == Some(ByteAt(w, 2));
    assert LongByte(slot, 3) == Some(ByteAt(w, 3));
  }

  /**
   * The readers recover an inline node's symbol, padding and size from its
   * slot alone, and report no children.
   */
  lemma InlineRoundTrip(mem: Heap, n: InlineNode)
    requires ValidInline(n)
    ensures IsInline(InlineSlot(n))
    ensures SubtreeNodeType(mem, InlineSlot(n)) == n.symbol
    ensures SubtreeBytesPadding(mem, InlineSlot(n)) == n.padding
    ensures SubtreeBytesSize(mem, InlineSlot(n)) == n.size
    ensures ChildCount(mem, InlineSlot(n)) == 0
  {
    InlineSlotBytes(n);
  }

  /** The readers recover an inline node's visible flag (bit value 2) and extra flag (bit value 8). */
  lemma InlineFlagsRoundTrip(mem: Heap, n: InlineNode)
    requires ValidInline(n)
    ensures IsInline(InlineSlot(n))
    ensures IsVisible(mem, InlineSlot(n)) == n.visible
    ensures Extra(mem, InlineSlot(n)) == n.extra
  {
    InlineSlotBytes(n);
    InlineFlagBits(InlineFlags(n), n.visible, n.named, n.extra, n.otherFlags);
  }

  /** Bit values 2 and 8 of an inline flags byte are its visible and extra flags. */
  lemma InlineFlagBits(f: nat, visible: bool, named: bool, extra: bool, other: nat)
    requires f == 1 + 2 * Bit(visible) + 4 * Bit(named) + 8 * Bit(extra) + 0x10 * other
    ensures BitAnd(f, 2) == 2 <==> visible
    ensures BitAnd(f, 8) == 8 <==> extra
  {
    BitTwo(f);
    DivModUnique(f, 2, Bit(visible) + 2 * Bit(named) + 4 * Bit(extra) + 8 * other, 1);
    BitEight(f);
    DivModUnique(f, 8, Bit(extra) + 2 * other, 1 + 2 * Bit(visible) + 4 * Bit(named));
  }

  // ---------------------------------------------------------------------
  // Heap nodes.

  /** The fields of a heap record that the readers consult. */
  datatype HeapNode = HeapNode(
    padding: Int32, size: Int32, childCount: Int32, symbol: nat,
    visible: bool, named: bool, extra: bool, otherFlags: nat,
    children: Ptr, visibleChildCount: Int32, productionId: nat)

  predicate ValidHeap(h: HeapNode) {
    h.symbol < 0x1_0000 && h.otherFlags < 0x20 && h.productionId < 0x1_0000
  }

  /** The flags byte: visible, named and extra in bits 0 to 2, then the other flags. */
  function HeapFlags(h: HeapNode): (f: nat)
    requires ValidHeap(h)
    ensures f < 0x100
  {
    Bit(h.visible) + 2 * Bit(h.named) + 4 * Bit(h.extra) + 8 * h.otherFlags
  }

  /** The record's fields at their offsets, in ascending order. */
  function HeapFields(h: HeapNode): (fs: seq<Field>)
    requires ValidHeap(h)
    ensures |fs| == 8 && Ordered(fs)
    ensures forall j :: 0 <= j < |fs| ==> PaddingOffset <= fs[j].offset && fs[j].offset + fs[j].width <= ProductionIdOffset + 2
  {
    [Field(PaddingOffset, 4, IntBits(h.padding)),
     Field(SizeOffset, 4, IntBits(h.size)),
     Field(ChildCountOffset, 4, IntBits(h.childCount)),
     Field(SymbolOffset, 2, h.symbol),
     Field(FlagsOffset, 1, HeapFlags(h)),
     Field(ChildrenOffset, 8, LongBits(h.children)),
     Field(VisibleChildrenCountOffset, 4, IntBits(h.visibleChildCount)),
     Field(ProductionIdOffset, 2, h.productionId)]
  }

  /** The memory after writing the record of `h` at `p`. */
  function StoreHeap(mem: Heap, p: Ptr, h: HeapNode): Heap
    requires ValidHeap(h)
  {
    StoreFields(mem, p, HeapFields(h))
  }

  /** A heap record is word-aligned, so its address never carries the inline tag. */
  lemma AlignedIsHeap(p: Ptr)
    requires p % 8 == 0
    ensures !IsInline(p)
  {
    IsInlineLowBit(p);
  }

  /** The `k`-th field of a stored heap record is read back at its offset. */
  lemma LoadHeapField(mem: Heap, p: Ptr, h: HeapNode, k: nat)
    requires ValidHeap(h) && k < 8
    ensures Mapped(StoreHeap(mem, p, h), p + HeapFields(h)[k].offset, HeapFields(h)[k].width)
    ensures LoadLE(StoreHeap(mem, p, h), p + HeapFields(h)[k].offset, HeapFields(h)[k].width) == HeapFields(h)[k].value
  {
    Pow256Values();
    LoadStoredField(mem, p, HeapFields(h), k);
  }

  /** The symbol, padding, size and child count of a heap record are read back. */
  lemma HeapRoundTrip(mem: Heap, p: Ptr, h: HeapNode)
    requires ValidHeap(h) && p % 8 == 0
    ensures !IsInline(p)
    ensures HeapField(StoreHeap(mem, p, h), p, SymbolOffset, 2) && SubtreeNodeType(StoreHeap(mem, p, h), p) == h.symbol
    ensures HeapField(StoreHeap(mem, p, h), p, PaddingOffset, 4) && SubtreeBytesPadding(StoreHeap(mem, p, h), p) == h.padding
    ensures HeapField(StoreHeap(mem, p, h), p, SizeOffset, 4) && SubtreeBytesSize(StoreHeap(mem, p, h), p) == h.size
    ensures HeapField(StoreHeap(mem, p, h), p, ChildCountOffset, 4) && ChildCount(StoreHeap(mem, p, h), p) == h.childCount
  {
    AlignedIsHeap(p);
    LoadHeapField(mem, p, h, 0);
    LoadHeapField(mem, p, h, 1);
    LoadHeapField(mem, p, h, 2);
    LoadHeapField(mem, p, h, 3);
  }

  /** The visible and extra flags of a heap record are read back from bits 0 and 2 of its flags byte. */
  lemma HeapFlagsRoundTrip(mem: Heap, p: Ptr, h: HeapNode)
    requires ValidHeap(h) && p % 8 == 0
    ensures !IsInline(p) && HeapField(StoreHeap(mem, p, h), p, FlagsOffset, 1)
    ensures IsVisible(StoreHeap(mem, p, h), p) == h.visible
    ensures Extra(StoreHeap(mem, p, h), p) == h.extra
  {
    AlignedIsHeap(p);
    LoadHeapField(mem, p, h, 4);
    var m := StoreHeap(mem, p, h);
    var flags := ByteBits(GetByte(m, p + FlagsOffset));
    assert flags == HeapFlags(h) by {
      ByteBitsAsByte(HeapFlags(h));
    }
    HeapFlagBits(flags, h.visible, h.named, h.extra, h.otherFlags);
  }

  /** Bit values 1 and 4 of a heap flags byte are its visible and extra flags. */
  lemma HeapFlagBits(f: nat, visible: bool, named: bool, extra: bool, other: nat)
    requires f == Bit(visible) + 2 * Bit(named) + 4 * Bit(extra) + 8 * other
    ensures BitAnd(f, 1) == 1 <==> visible
    ensures BitAnd(f, 4) != 0 <==> extra
  {
    BitAndLowMask(f, 1);
    BitFour(f);
    DivModUnique(f, 4, Bit(extra) + 2 * other, Bit(visible) + 2 * Bit(named));
    DivModUnique(Bit(extra) + 2 * other, 2, other, Bit(extra));
  }

  /** The children pointer, visible child count and production id of a heap record are read back. */
  lemma HeapLinksRoundTrip(mem: Heap, p: Ptr, h: HeapNode)
    requires ValidHeap(h)
    ensures Mapped(StoreHeap(mem, p, h), p + ChildrenOffset, 8)
    ensures GetAddress(StoreHeap(mem, p, h), p + ChildrenOffset) == h.children
    ensures Mapped(StoreHeap(mem, p, h), p + VisibleChildrenCountOffset, 4)
    ensures VisibleChildCount(StoreHeap(mem, p, h), p) == h.visibleChildCount
    ensures Mapped(StoreHeap(mem, p, h), p + ProductionIdOffset, 2)
    ensures ProductionId(StoreHeap(mem, p, h), p) == h.productionId
  {
    LoadHeapField(mem, p, h, 5);
    LoadHeapField(mem, p, h, 6);
    LoadHeapField(mem, p, h, 7);
  }

  /** Storing a heap record leaves every load outside it unchanged. */
  lemma LoadAcrossHeap(mem: Heap, p: Ptr, h: HeapNode, a: int, n: nat)
    requires ValidHeap(h) && Mapped(mem, a, n)
    requires a + n <= p + PaddingOffset || p + ProductionIdOffset + 2 <= a
    ensures Mapped(StoreHeap(mem, p, h), a, n)
    ensures LoadLE(StoreHeap(mem, p, h), a, n) == LoadLE(mem, a, n)
  {
    LoadAcrossFields(mem, p, HeapFields(h), a, n);
  }

  /** The root slot stored in the first word of a tree record is read back by `Root`. */
  lemma RootRoundTrip(mem: Heap, treePtr: Ptr, root: Ptr)
    ensures Mapped(StoreLE(mem, treePtr, 8, LongBits(root)), treePtr, 8)
    ensures Root(StoreLE(mem, treePtr, 8, LongBits(root)), treePtr) == root
  {
    Pow256Values();
    assert Pow256(8) == 0x1_0000_0000_0000_0000;
    LoadAfterStore(mem, treePtr, 8, LongBits(root));
  }

  // ---------------------------------------------------------------------
  // Children arrays.

  /** The children array: one 8-byte slot per child. */
  function ChildFields(kids: seq<Ptr>): (fs: seq<Field>)
    ensures |fs| == |kids| && Ordered(fs)
    ensures forall j :: 0 <= j < |fs| ==> fs[j] == Field(8 * j, 8, LongBits(kids[j]))
  {
    seq(|kids|, j requires 0 <= j < |kids| => Field(8 * j, 8, LongBits(kids[j])))
  }

  /** Slot `i` of a stored children array holds child `i`. */
  lemma ChildSlotStored(mem: Heap, c: int, kids: seq<Ptr>, i: nat)
    requires i < |kids|
    ensures Mapped(StoreFields(mem, c, ChildFields(kids)), c + i * 8, 8)
    ensures LoadLE(StoreFields(mem, c, ChildFields(kids)), c + i * 8, 8) == LongBits(kids[i])
  {
    var fs := ChildFields(kids);
    assert fs[i] == Field(8 * i, 8, LongBits(kids[i]));
    Pow256Values();
    LoadStoredField(mem, c, fs, i);
  }

  /** Slot `j` of the array at `c` holds the pointer `k`. */
  predicate HoldsSlot(m: Heap, c: int, j: int, k: Ptr) {
    Mapped(m, c + j * 8, 8) && LoadLE(m, c + j * 8, 8) == LongBits(k)
  }

  /** The array at `c` holds `kids`, one 8-byte slot each. */
  predicate HoldsChildren(m: Heap, c: int, kids: seq<Ptr>) {
    forall j :: 0 <= j < |kids| ==> HoldsSlot(m, c, j, kids[j])
  }

  /** A stored children array holds its pointers. */
  lemma ChildrenStored(mem: Heap, c: int, kids: seq<Ptr>)
    ensures HoldsChildren(StoreFields(mem, c, ChildFields(kids)), c, kids)
  {
    forall j | 0 <= j < |kids|
      ensures HoldsSlot(StoreFields(mem, c, ChildFields(kids)), c, j, kids[j])
    {
      ChildSlotStored(mem, c, kids, j);
    }
  }

  /** Storing a record outside a children array keeps the array. */
  lemma ChildrenAcrossHeap(mc: Heap, p: Ptr, h: HeapNode, c: int, kids: seq<Ptr>)
    requires ValidHeap(h) && HoldsChildren(mc, c, kids)
    requires c + 8 * |kids| <= p || p + ProductionIdOffset + 2 <= c
    ensures HoldsChildren(StoreHeap(mc, p, h), c, kids)
  {
    forall j | 0 <= j < |kids|
      ensures HoldsSlot(StoreHeap(mc, p, h), c, j, kids[j])
    {
      assert HoldsSlot(mc, c, j, kids[j]);
      SlotOutsideRecord(c, p, |kids|, j);
      LoadAcrossHeap(mc, p, h, c + j * 8, 8);
    }
  }

  /**
   * `ChildAt` reads slot `i` of the array the children pointer names,
   * whether or not the slot `subtree` is inline.
   */
  lemma ChildAtReadsSlot(m: Heap, subtree: Ptr, kids: seq<Ptr>, i: nat)
    requires Mapped(m, subtree + ChildrenOffset, 8) && i < |kids|
    requires HoldsChildren(m, GetAddress(m, subtree + ChildrenOffset), kids)
    ensures Mapped(m, GetAddress(m, subtree + ChildrenOffset) + i * 8, 8) && ChildAt(m, subtree, i) == kids[i]
  {
    assert HoldsSlot(m, GetAddress(m, subtree + ChildrenOffset), i, kids[i]);
  }

  /**
   * A node whose record points at a children array: `ChildAt` returns the
   * array's `i`-th slot, provided the array lies outside the record.
   */
  lemma ChildAtRoundTrip(mem: Heap, p: Ptr, h: HeapNode, kids: seq<Ptr>, i: nat)
    requires ValidHeap(h) && p % 8 == 0 && i < |kids|
    requires h.children + 8 * |kids| <= p || p + ProductionIdOffset + 2 <= h.children
    ensures var m := StoreHeap(StoreFields(mem, h.children, ChildFields(kids)), p, h);
      Mapped(m, p + ChildrenOffset, 8) &&
      Mapped(m, GetAddress(m, p + ChildrenOffset) + i * 8, 8) &&
      ChildAt(m, p, i) == kids[i]
  {
    var mc := StoreFields(mem, h.children, ChildFields(kids));
    ChildrenStored(mem, h.children, kids);
    ChildrenAcrossHeap(mc, p, h, h.children, kids);
    HeapLinksRoundTrip(mc, p, h);
    ChildAtReadsSlot(StoreHeap(mc, p, h), p, kids, i);
  }

  /** A slot of an array that lies outside a record lies outside it too. */
  lemma SlotOutsideRecord(c: int, p: int, n: nat, i: nat)
    requires i < n && (c + 8 * n <= p || p + ProductionIdOffset + 2 <= c)
    ensures c + i * 8 + 8 <= p + PaddingOffset || p + ProductionIdOffset + 2 <= c + i * 8
  {
    assert i * 8 + 8 <= 8 * n;
  }

  /** `ChildAt` reads the slot the children pointer and the index select. */
  lemma ChildAtSlot(m: Heap, p: Ptr, c: int, k: Ptr, i: nat)
    requires Mapped(m, p + ChildrenOffset, 8) && GetAddress(m, p + ChildrenOffset) == c
    requires Mapped(m, c + i * 8, 8) && LoadLE(m, c + i * 8, 8) == LongBits(k)
    ensures Mapped(m, GetAddress(m, p + ChildrenOffset) + i * 8, 8) && ChildAt(m, p, i) == k
  {
  }

  // ---------------------------------------------------------------------
  // The language's alias table.

  /**
   * `mem` holds, for the language at `lang`, a row-major table of 16-bit
   * symbols with `maxLength` entries per production id: entry `j` of row
   * `p` is the two bytes at `base + 2 * (p * maxLength + j)`.
   */
  predicate HoldsAliasTable(mem: Heap, lang: Ptr, table: seq<seq<int>>, maxLength: nat) {
    Mapped(mem, lang + AliasSequencesOffset, 8) &&
    Mapped(mem, lang + MaxAliasSequenceLengthOffset, 2) &&
    ReadShort(mem, lang + MaxAliasSequenceLengthOffset) == maxLength &&
    (forall p :: 0 <= p < |table| ==> |table[p]| == maxLength) &&
    forall p, j :: 0 <= p < |table| && 0 <= j < |table[p]| ==>
      HoldsEntry(mem, GetAddress(mem, lang + AliasSequencesOffset), maxLength, p, j, table[p][j])
  }

  /** Entry `j` of row `p` of a table at `base` holds `symbol`. */
  predicate HoldsEntry(mem: Heap, base: int, maxLength: nat, p: int, j: int, symbol: int) {
    Mapped(mem, base + 2 * (p * maxLength + j), 2) && LoadLE(mem, base + 2 * (p * maxLength + j), 2) == symbol
  }

  /** The alias sequence of a production with the row offset scaled by the two-byte entry size. */
  function AliasSequenceScaled(mem: Heap, lang: Ptr, productionId: int): (r: int)
    requires productionId > 0 ==> Mapped(mem, lang + AliasSequencesOffset, 8)
    requires productionId > 0 ==> Mapped(mem, lang + MaxAliasSequenceLengthOffset, 2)
    ensures productionId <= 0 ==> r == 0
  {
    if productionId > 0 then
      GetAddress(mem, lang + AliasSequencesOffset) + 2 * (productionId * ReadShort(mem, lang + MaxAliasSequenceLengthOffset))
    else
      0
  }

  /** With the scaled row offset, entry `j` of a production's alias sequence is the table's. */
  lemma AliasLookupScaled(mem: Heap, lang: Ptr, table: seq<seq<int>>, maxLength: nat, productionId: nat, j: nat)
    requires HoldsAliasTable(mem, lang, table, maxLength)
    requires 0 < productionId < |table| && j < maxLength
    ensures Mapped(mem, AliasSequenceScaled(mem, lang, productionId) + j * 2, 2)
    ensures AliasSequenceAt(mem, AliasSequenceScaled(mem, lang, productionId), j) == table[productionId][j]
  {
    var base := GetAddress(mem, lang + AliasSequencesOffset);
    assert |table[productionId]| == maxLength;
    assert HoldsEntry(mem, base, maxLength, productionId, j, table[productionId][j]);
    assert AliasSequenceScaled(mem, lang, productionId) + j * 2 == base + 2 * (productionId * maxLength + j);
  }

  // A two-production table, [[0, 0], [7, 9]], at address 0x2000 for a
  // language record at 0x1000.

  const ExampleLanguage: Ptr := 0x1000
  const ExampleTable: seq<seq<int>> := [[0, 0], [7, 9]]

  /** The bytes of the example: the table's address, its row length, and the table itself. */
  function ExampleByte(a: int): Byte {
    if a == 0x1041 then 0x20        // bytes 0x1040..0x1047: the table address 0x2000
    else if a == 0x1048 then 2      // bytes 0x1048..0x1049: two entries per production
    else if a == 0x2004 then 7      // production 1, entry 0
    else if a == 0x2006 then 9      // production 1, entry 1
    else 0
  }

  const ExampleMemory: Heap := map a | 0x1000 <= a < 0x3000 :: ExampleByte(a)

  /** The example language record points at the table and gives two entries per production. */
  lemma ExampleHeader()
    ensures Mapped(ExampleMemory, ExampleLanguage + AliasSequencesOffset, 8)
    ensures Mapped(ExampleMemory, ExampleLanguage + MaxAliasSequenceLengthOffset, 2)
    ensures GetAddress(ExampleMemory, ExampleLanguage + AliasSequencesOffset) == 0x2000
    ensures ReadShort(ExampleMemory, ExampleLanguage + MaxAliasSequenceLengthOffset) == 2
  {
    ExampleTableAddress();
    assert LoadLE(ExampleMemory, 0x1048, 2) == 2;
  }

  /** Bytes 0x1040 to 0x1047 of the example spell the address 0x2000. */
  lemma ExampleTableAddress()
    ensures Mapped(ExampleMemory, 0x1040, 8) && LoadLE(ExampleMemory, 0x1040, 8) == 0x2000
  {
    var mem := ExampleMemory;
    assert LoadLE(mem, 0x1043, 5) == 0 by {
      assert LoadLE(mem, 0x1047, 1) == 0;
      assert LoadLE(mem, 0x1046, 2) == 0;
      assert LoadLE(mem, 0x1045, 3) == 0;
      assert LoadLE(mem, 0x1044, 4) == 0;
    }
    assert LoadLE(mem, 0x1042, 6) == 0;
    assert LoadLE(mem, 0x1041, 7) == 0x20;
  }

  /** The example table's four entries sit row by row at 0x2000. */
  lemma ExampleEntries()
    ensures HoldsEntry(ExampleMemory, 0x2000, 2, 0, 0, 0)
    ensures HoldsEntry(ExampleMemory, 0x2000, 2, 0, 1, 0)
    ensures HoldsEntry(ExampleMemory, 0x2000, 2, 1, 0, 7)
    ensures HoldsEntry(ExampleMemory, 0x2000, 2, 1, 1, 9)
  {
    assert LoadLE(ExampleMemory, 0x2000, 2) == 0;
    assert LoadLE(ExampleMemory, 0x2002, 2) == 0;
    assert LoadLE(ExampleMemory, 0x2004, 2) == 7;
    assert LoadLE(ExampleMemory, 0x2006, 2) == 9;
  }

  /** The example memory holds the example table with two entries per production. */
  lemma ExampleHoldsTable()
    ensures HoldsAliasTable(ExampleMemory, ExampleLanguage, ExampleTable, 2)
  {
    ExampleHeader();
    ExampleEntries();
    forall p, j | 0 <= p < |ExampleTable| && 0 <= j < |ExampleTable[p]|
      ensures HoldsEntry(ExampleMemory, 0x2000, 2, p, j, ExampleTable[p][j])
    {
      assert p == 0 || p == 1;
      assert j == 0 || j == 1;
    }
  }

  /**
   * The unscaled row offset reads the wrong entry: production 1's sequence
   * starts at `base + 2`, so its entry 0 is production 0's entry 1.
   */
  lemma AliasSequenceRowsOverlap()
    ensures HoldsAliasTable(ExampleMemory, ExampleLanguage, ExampleTable, 2)
    ensures Mapped(ExampleMemory, 0x2002, 2) && Mapped(ExampleMemory, 0x2004, 2)
    ensures AliasSequence(ExampleMemory, ExampleLanguage, 1) == 0x2002
    ensures AliasSequenceAt(ExampleMemory, AliasSequence(ExampleMemory, ExampleLanguage, 1), 0) == ExampleTable[0][1] == 0
    ensures ExampleTable[1][0] == 7
    ensures AliasSequenceScaled(ExampleMemory, ExampleLanguage, 1) == 0x2004
    ensures AliasSequenceAt(ExampleMemory, AliasSequenceScaled(ExampleMemory, ExampleLanguage, 1), 0) == ExampleTable[1][0]
  {
    ExampleHoldsTable();
    AliasLookupScaled(ExampleMemory, ExampleLanguage, ExampleTable, 2, 1, 0);
    assert GetAddress(ExampleMemory, ExampleLanguage + AliasSequencesOffset) == 0x2000;
    assert ReadShort(ExampleMemory, ExampleLanguage + MaxAliasSequenceLengthOffset) == 2;
  }

  // ---------------------------------------------------------------------
  // The alias rows as the cursor reads them.

  /**
   * Production `p`'s row, at the address `aliasSequence` computes, can be
   * read at entries 0 to `width - 1` (nothing is read for production 0 or
   * for a row address of 0).
   */
  predicate RowReadable(mem: Heap, lang: Ptr, p: nat, width: nat) {
    p > 0 ==>
      Mapped(mem, lang + AliasSequencesOffset, 8) &&
      Mapped(mem, lang + MaxAliasSequenceLengthOffset, 2) &&
      (AliasSequence(mem, lang, p) != 0 ==>
        forall j :: 0 <= j < width ==> Mapped(mem, AliasSequence(mem, lang, p) + j * 2, 2))
  }

  /** Rows 0 to `count - 1` are readable. */
  predicate RowsReadable(mem: Heap, lang: Ptr, count: nat, width: nat) {
    forall p :: 0 <= p < count ==> RowReadable(mem, lang, p, width)
  }

  /**
   * What the cursor reads for a non-extra node at structural index `j` under
   * production `p`: 0 when `aliasSequence` gives address 0, otherwise the
   * 16-bit entry at that (unscaled) row address.
   */
  function ReadAlias(mem: Heap, lang: Ptr, p: nat, j: nat, width: nat): (r: nat)
    requires RowReadable(mem, lang, p, width) && j < width
    ensures r < 0x1_0000
    ensures p == 0 ==> r == 0
  {
    var row := AliasSequence(mem, lang, p);
    if row != 0 then AliasSequenceAt(mem, row, j) else 0
  }

  /**
   * The alias table jsitter's cursor actually consults: row `p`, entry `j`
   * is what `aliasSymbol` reads under production `p` at structural index
   * `j`, for productions below `count` and indices below `width`.
   */
  function AsWrittenAliases(mem: Heap, lang: Ptr, count: nat, width: nat): (t: TSZipper.AliasTable)
    requires RowsReadable(mem, lang, count, width)
    ensures |t| == count
    ensures forall p :: 0 <= p < count ==> |t[p]| == width
  {
    seq(count, p requires 0 <= p < count =>
      seq(width, j requires 0 <= j < width => ReadAlias(mem, lang, p, j, width)))
  }

  /**
   * Over the rows jsitter reads, the model's alias symbol is what
   * `aliasSymbol` computes from memory: 0 when the parent's alias sequence
   * address is 0 or the node is extra, otherwise the 16-bit entry at the
   * structural index of the unscaled row. Visibility follows it.
   */
  lemma AsWrittenAliasSymbol(mem: Heap, lang: Ptr, count: nat, width: nat, z: TSZipper.Zipper)
    requires RowsReadable(mem, lang, count, width)
    requires z.parentAliasSequence < count && 0 <= z.structuralChildIndex < width
    ensures RowReadable(mem, lang, z.parentAliasSequence, width)
    ensures var row := AliasSequence(mem, lang, z.parentAliasSequence);
      TSZipper.AliasSymbol(AsWrittenAliases(mem, lang, count, width), z) ==
        if row != 0 && !z.node.extra then AliasSequenceAt(mem, row, z.structuralChildIndex) else 0
    ensures var row := AliasSequence(mem, lang, z.parentAliasSequence);
      TSZipper.Visible(AsWrittenAliases(mem, lang, count, width), z) <==>
        z.node.visible || (row != 0 && !z.node.extra && AliasSequenceAt(mem, row, z.structuralChildIndex) != 0)
  {
    var t := AsWrittenAliases(mem, lang, count, width);
    assert t[z.parentAliasSequence][z.structuralChildIndex] == ReadAlias(mem, lang, z.parentAliasSequence, z.structuralChildIndex, width);
  }

  // The example table's tree-sitter rows and the rows the cursor reads.

  const ExampleAliases: TSZipper.AliasTable := [[0, 0], [7, 9]]

  /** A hidden leaf, the only child of a visible node of production 1. */
  const HiddenLeaf := TSZipper.Subtree(2, false, false, 1, 0, 0, 0, [])
  const AliasingParent := TSZipper.Subtree(1, true, false, 1, 0, 1, 1, [HiddenLeaf])
  const AliasingRoot := TSZipper.Zipper(None, 0, AliasingParent, 0, 0, 0)

  /** Both rows of the example are readable at the unscaled addresses. */
  lemma ExampleRowsReadable()
    ensures RowsReadable(ExampleMemory, ExampleLanguage, 2, 2)
    ensures AsWrittenAliases(ExampleMemory, ExampleLanguage, 2, 2) == [[0, 0], [0, 7]]
  {
    AliasSequenceRowsOverlap();
    assert RowReadable(ExampleMemory, ExampleLanguage, 1, 2) by {
      assert AliasSequence(ExampleMemory, ExampleLanguage, 1) == 0x2002;
    }
    assert RowReadable(ExampleMemory, ExampleLanguage, 0, 2);
    var t := AsWrittenAliases(ExampleMemory, ExampleLanguage, 2, 2);
    assert LoadLE(ExampleMemory, 0x2002, 2) == 0;
    assert LoadLE(ExampleMemory, 0x2004, 2) == 7;
    assert t[1][0] == 0 && t[1][1] == 7;
    assert t[0] == [0, 0];
    assert t[1] == [0, 7];
  }

  /**
   * Through the rows it reads, the cursor loses an alias: the only child of
   * production 1 is aliased 7 in tree-sitter's table, so `down` finds it and
   * the tree's stored visible child count of 1 is right; over the rows as
   * written the child reads alias 0, the count no longer agrees, and `down`
   * returns null.
   */
  lemma AsWrittenHidesAlias()
    ensures RowsReadable(ExampleMemory, ExampleLanguage, 2, 2)
    ensures ExampleAliases == ExampleTable
    ensures TSZipper.Down(ExampleAliases, AliasingRoot) == Some(TSZipper.FirstChild(AliasingRoot))
    ensures VisibleTree.WellFormed(ExampleAliases, AliasingRoot)
    ensures TSZipper.Down(AsWrittenAliases(ExampleMemory, ExampleLanguage, 2, 2), AliasingRoot) == None
    ensures !VisibleTree.WellFormed(AsWrittenAliases(ExampleMemory, ExampleLanguage, 2, 2), AliasingRoot)
  {
    ExampleRowsReadable();
    var child := TSZipper.FirstChild(AliasingRoot);
    assert TSZipper.Visible(ExampleAliases, child);
    assert !TSZipper.Visible([[0, 0], [0, 7]], child);
    assert TSZipper.InvisibleRight(child) == None;
    assert child == TSZipper.ChildZipper(AliasingRoot, 0);
    ExampleCounts(ExampleAliases, child, [child]);
    assert VisibleTree.Shown([[0, 0], [0, 7]], child) == [] by {
      assert VisibleTree.Parts([[0, 0], [0, 7]], child, 0, 0) == [];
    }
    ExampleCounts([[0, 0], [0, 7]], child, []);
  }

  /** The root's only child shows `shown`; the leaf's count of 0 is right under any table. */
  lemma ExampleCounts(aliases: TSZipper.AliasTable, child: TSZipper.Zipper, shown: seq<TSZipper.Zipper>)
    requires child == TSZipper.ChildZipper(AliasingRoot, 0)
    requires VisibleTree.Shown(aliases, child) == shown
    ensures VisibleTree.VisibleChildren(aliases, AliasingRoot) == shown
    ensures VisibleTree.CountsAgree(aliases, child)
    ensures VisibleTree.CountsAgree(aliases, AliasingRoot) <==> |shown| == 1
  {
    assert VisibleTree.VisibleChildren(aliases, child) == VisibleTree.Parts(aliases, child, 0, 0) == [];
    assert VisibleTree.Parts(aliases, AliasingRoot, 0, 1) ==
      VisibleTree.Shown(aliases, child) + VisibleTree.Parts(aliases, AliasingRoot, 1, 1);
  }
}
