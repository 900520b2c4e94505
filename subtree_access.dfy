/**
 * Read-only decoding of tree-sitter's packed subtree representation.
 *
 * A subtree slot is a 64-bit value. When its lowest bit is set the node is
 * inline: its flags, symbol, padding and size are packed into the bytes of
 * the slot itself. Otherwise the slot is the address of a heap record whose
 * fields sit at fixed byte offsets.
 */
module SubtreeAccess {
  import opened Wrappers
  import opened Memory

  /** A subtree slot, a tree pointer or a language pointer. */
  type Ptr = Long

  // Offsets of the heap record's fields, chained from one another.
  const RefCountOffset := 0
  const PaddingOffset := 4
  const SizeOffset := PaddingOffset + 12
  const LookaheadBytesOffset := SizeOffset + 12
  const ErrorCostOffset := LookaheadBytesOffset + 4
  const ChildCountOffset := ErrorCostOffset + 4
  const SymbolOffset := ChildCountOffset + 4
  const ParseStateOffset := SymbolOffset + 2
  const FlagsOffset := ParseStateOffset + 2

  const ChildrenOffset := 48
  const VisibleChildrenCountOffset := ChildrenOffset + 8
  const NamedChildCountOffset := VisibleChildrenCountOffset + 4
  const NodeCountOffset := NamedChildCountOffset + 4
  const RepeatDepthOffset := NodeCountOffset + 4
  const DynPrecOffset := RepeatDepthOffset + 4
  const ProductionIdOffset := DynPrecOffset + 4

  // Offsets inside the language record.
  const AliasSequencesOffset := 64
  const MaxAliasSequenceLengthOffset := AliasSequencesOffset + 8

  /** The chained offsets land where the heap record's fields are. */
  lemma HeapOffsets()
    ensures PaddingOffset == 4 && SizeOffset == 16 && ChildCountOffset == 36
    ensures SymbolOffset == 40 && FlagsOffset == 44 && ChildrenOffset == 48
    ensures VisibleChildrenCountOffset == 56 && ProductionIdOffset == 76
    ensures MaxAliasSequenceLengthOffset == 72
  {
  }

  /** The slot holds an inline node: its tag bit is set. */
  predicate IsInline(subtree: Ptr) {
    BitAnd(LongBits(subtree), 1) == 1
  }

  /** The tag bit is the lowest bit of the slot, whatever its sign. */
  lemma IsInlineLowBit(subtree: Ptr)
    ensures IsInline(subtree) <==> subtree % 2 == 1
  {
    BitAndLowMask(LongBits(subtree), 1);
  }

  /**
   * `Long.byte(i)`: bytes 0 to 6 masked and shifted down, byte 7 by an
   * arithmetic shift (so it keeps the sign); any other index fails.
   */
  function LongByte(l: Long, i: int): (r: Option<int>)
    ensures r.Some? <==> 0 <= i <= 7
    ensures 0 <= i <= 6 ==> r == Some(ByteAt(LongBits(l), i))
    ensures i == 7 ==> r == Some(AsByte(ByteAt(LongBits(l), 7)))
  {
    var u := LongBits(l);
    Pow256Values();
    if i == 0 then
      ByteMaskShift(u, 0);
      Some(BitAnd(u, 0xFF))
    else if i == 1 then
      ByteMaskShift(u, 1);
      Some(BitAnd(u, 0xFF00) / 0x100)
    else if i == 2 then
      ByteMaskShift(u, 2);
      Some(BitAnd(u, 0xFF_0000) / 0x1_0000)
    else if i == 3 then
      ByteMaskShift(u, 3);
      Some(BitAnd(u, 0xFF00_0000) / 0x100_0000)
    else if i == 4 then
      ByteMaskShift(u, 4);
      Some(BitAnd(u, 0xFF_0000_0000) / 0x1_0000_0000)
    else if i == 5 then
      ByteMaskShift(u, 5);
      Some(BitAnd(u, 0xFF00_0000_0000) / 0x100_0000_0000)
    else if i == 6 then
      ByteMaskShift(u, 6);
      Some(BitAnd(u, 0xFF_0000_0000_0000) / 0x1_0000_0000_0000)
    else if i == 7 then
      ByteAtDiv(u, 7);
      Some(l / 0x100_0000_0000_0000)
    else
      None
  }

  /** An unsigned 16-bit load: the sign-extended short masked back to 16 bits. */
  function ReadShort(mem: Heap, addr: int): (r: int)
    requires Mapped(mem, addr, 2)
    ensures 0 <= r < 0x1_0000
    ensures r == LoadLE(mem, addr, 2)
  {
    ShortBitsLow(LoadLE(mem, addr, 2));
    Pow2Values();
    BitAndLowMask(IntBits(GetShort(mem, addr)), 16);
    BitAnd(IntBits(GetShort(mem, addr)), 0xFFFF)
  }

  /** Sign-extending a 16-bit pattern to 32 bits keeps its low 16 bits. */
  lemma ShortBitsLow(v: nat)
    requires v < 0x1_0000
    ensures IntBits(AsShort(v)) % 0x1_0000 == v
  {
    if v >= 0x8000 {
      DivModUnique(IntBits(AsShort(v)), 0x1_0000, 0xFFFF, v);
    } else {
      DivModUnique(IntBits(AsShort(v)), 0x1_0000, 0, v);
    }
  }

  /** The heap field of `n` bytes at `offset` can be read whenever the node is not inline. */
  predicate HeapField(mem: Heap, subtree: Ptr, offset: int, n: nat) {
    !IsInline(subtree) ==> Mapped(mem, subtree + offset, n)
  }

  function SubtreeNodeType(mem: Heap, subtree: Ptr): (r: int)
    requires HeapField(mem, subtree, SymbolOffset, 2)
    ensures 0 <= r < 0x1_0000
  {
    if IsInline(subtree) then LongByte(subtree, 1).value
    else ReadShort(mem, subtree + SymbolOffset)
  }

  function ChildCount(mem: Heap, subtree: Ptr): (r: Int32)
    requires HeapField(mem, subtree, ChildCountOffset, 4)
    ensures IsInline(subtree) ==> r == 0
  {
    if IsInline(subtree) then 0
    else GetInt(mem, subtree + ChildCountOffset)
  }

  /** The `i`-th pointer of the children array; the tag bit is not consulted. */
  function ChildAt(mem: Heap, subtree: Ptr, i: int): (r: Ptr)
    requires Mapped(mem, subtree + ChildrenOffset, 8)
    requires Mapped(mem, GetAddress(mem, subtree + ChildrenOffset) + i * 8, 8)
  {
    var childrenPtr := GetAddress(mem, subtree + ChildrenOffset);
    GetAddress(mem, childrenPtr + i * 8)
  }

  function Extra(mem: Heap, subtree: Ptr): bool
    requires HeapField(mem, subtree, FlagsOffset, 1)
  {
    if IsInline(subtree) then BitAnd(LongByte(subtree, 0).value, 8) == 8
    else BitAnd(ByteBits(GetByte(mem, subtree + FlagsOffset)), 4) != 0
  }

  function SubtreeBytesSize(mem: Heap, subtree: Ptr): (r: Int32)
    requires HeapField(mem, subtree, SizeOffset, 4)
    ensures IsInline(subtree) ==> 0 <= r < 0x100
  {
    if IsInline(subtree) then LongByte(subtree, 3).value
    else GetInt(mem, subtree + SizeOffset)
  }

  function SubtreeBytesPadding(mem: Heap, subtree: Ptr): (r: Int32)
    requires HeapField(mem, subtree, PaddingOffset, 4)
    ensures IsInline(subtree) ==> 0 <= r < 0x100
  {
    if IsInline(subtree) then LongByte(subtree, 2).value
    else GetInt(mem, subtree + PaddingOffset)
  }

  function IsVisible(mem: Heap, subtree: Ptr): bool
    requires HeapField(mem, subtree, FlagsOffset, 1)
  {
    if IsInline(subtree) then BitAnd(LongByte(subtree, 0).value, 2) == 2
    else BitAnd(ByteBits(GetByte(mem, subtree + FlagsOffset)), 1) == 1
  }

  /** Read from the heap record even for an inline slot. */
  function ProductionId(mem: Heap, subtree: Ptr): (r: int)
    requires Mapped(mem, subtree + ProductionIdOffset, 2)
    ensures 0 <= r < 0x1_0000
  {
    ReadShort(mem, subtree + ProductionIdOffset)
  }

  /** Read from the heap record even for an inline slot. */
  function VisibleChildCount(mem: Heap, subtree: Ptr): Int32
    requires Mapped(mem, subtree + VisibleChildrenCountOffset, 4)
  {
    GetInt(mem, subtree + VisibleChildrenCountOffset)
  }

  /** Entry `structuralChildIndex` of an alias sequence of 16-bit symbols. */
  function AliasSequenceAt(mem: Heap, aliasSequence: int, structuralChildIndex: int): (r: int)
    requires Mapped(mem, aliasSequence + structuralChildIndex * 2, 2)
    ensures 0 <= r < 0x1_0000
  {
    ReadShort(mem, aliasSequence + structuralChildIndex * 2)
  }

  /**
   * The alias sequence of a production, 0 for production 0 (and below).
   * The row offset is `productionId * maxLength` bytes, not scaled by the
   * two-byte entry size.
   */
  function AliasSequence(mem: Heap, lang: Ptr, productionId: int): (r: int)
    requires productionId > 0 ==> Mapped(mem, lang + AliasSequencesOffset, 8)
    requires productionId > 0 ==> Mapped(mem, lang + MaxAliasSequenceLengthOffset, 2)
    ensures productionId <= 0 ==> r == 0
  {
    if productionId > 0 then
      GetAddress(mem, lang + AliasSequencesOffset) + productionId * ReadShort(mem, lang + MaxAliasSequenceLengthOffset)
    else
      0
  }

  /** The root subtree slot is the first word of the tree record. */
  function Root(mem: Heap, treePtr: Ptr): Ptr
    requires Mapped(mem, treePtr, 8)
  {
    GetAddress(mem, treePtr)
  }
}
