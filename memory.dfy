/**
 * Native memory as `sun.misc.Unsafe` sees it on a 64-bit little-endian
 * machine: a partial map from addresses to bytes, little-endian loads and
 * stores, Kotlin's two's complement integer types, and bitwise `and` on the
 * bit patterns of non-negative numbers.
 */
module Memory {

  type Byte = b: int | 0 <= b < 0x100

  /** Kotlin's `Long` (and the `Ptr` alias over it). */
  type Long = x: int | -0x8000_0000_0000_0000 <= x < 0x8000_0000_0000_0000

  /** Kotlin's `Int`. */
  type Int32 = x: int | -0x8000_0000 <= x < 0x8000_0000

  /** The mapped part of the address space; Unsafe reads of anything else are undefined. */
  type Heap = map<int, Byte>

  function Pow2(k: nat): (r: nat)
    ensures r >= 1
  {
    if k == 0 then 1 else 2 * Pow2(k - 1)
  }

  function Pow256(n: nat): (r: nat)
    ensures r >= 1
  {
    if n == 0 then 1 else 0x100 * Pow256(n - 1)
  }

  /** Every byte of `[addr, addr + n)` is mapped. */
  predicate Mapped(mem: Heap, addr: int, n: nat) {
    forall a :: addr <= a < addr + n ==> a in mem
  }

  /** The unsigned little-endian number held by the `n` bytes at `addr`. */
  function LoadLE(mem: Heap, addr: int, n: nat): (r: nat)
    requires Mapped(mem, addr, n)
    ensures r < Pow256(n)
    decreases n
  {
    if n == 0 then 0 else mem[addr] + 0x100 * LoadLE(mem, addr + 1, n - 1)
  }

  /** The memory after writing the low `n` bytes of `u` at `addr`, little-endian. */
  function StoreLE(mem: Heap, addr: int, n: nat, u: nat): (m: Heap)
    decreases n
  {
    if n == 0 then mem else StoreLE(mem[addr := u % 0x100], addr + 1, n - 1, u / 0x100)
  }

  /** A store maps the bytes it writes and leaves every other byte as it was. */
  lemma {:induction false} StoreLEFrame(mem: Heap, addr: int, n: nat, u: nat)
    ensures forall a :: a in StoreLE(mem, addr, n, u) <==> a in mem || addr <= a < addr + n
    ensures forall a :: a in mem && !(addr <= a < addr + n) ==> StoreLE(mem, addr, n, u)[a] == mem[a]
    decreases n
  {
    if n > 0 {
      StoreLEFrame(mem[addr := u % 0x100], addr + 1, n - 1, u / 0x100);
    }
  }

  /** A little-endian store is read back by the load of the same width. */
  lemma {:induction false} LoadAfterStore(mem: Heap, addr: int, n: nat, u: nat)
    requires u < Pow256(n)
    ensures Mapped(StoreLE(mem, addr, n, u), addr, n)
    ensures LoadLE(StoreLE(mem, addr, n, u), addr, n) == u
    decreases n
  {
    if n > 0 {
      var next := mem[addr := u % 0x100];
      LoadAfterStore(next, addr + 1, n - 1, u / 0x100);
      StoreLEFrame(next, addr + 1, n - 1, u / 0x100);
      var m := StoreLE(next, addr + 1, n - 1, u / 0x100);
      assert m[addr] == u % 0x100;
    }
  }

  /** A load only depends on the bytes it covers. */
  lemma {:induction false} LoadSameBytes(mem: Heap, m: Heap, addr: int, n: nat)
    requires Mapped(mem, addr, n)
    requires forall a :: addr <= a < addr + n ==> a in m && m[a] == mem[a]
    ensures Mapped(m, addr, n) && LoadLE(m, addr, n) == LoadLE(mem, addr, n)
    decreases n
  {
    if n > 0 {
      LoadSameBytes(mem, m, addr + 1, n - 1);
    }
  }

  /** A store leaves every load of a disjoint range unchanged. */
  lemma LoadAcrossStore(mem: Heap, addr: int, n: nat, u: nat, b: int, k: nat)
    requires Mapped(mem, b, k)
    requires b + k <= addr || addr + n <= b
    ensures Mapped(StoreLE(mem, addr, n, u), b, k)
    ensures LoadLE(StoreLE(mem, addr, n, u), b, k) == LoadLE(mem, b, k)
  {
    StoreLEFrame(mem, addr, n, u);
    LoadSameBytes(mem, StoreLE(mem, addr, n, u), b, k);
  }

  // Two's complement views of unsigned bit patterns, as Unsafe's getters return them.

  function AsByte(u: nat): (r: int)
    requires u < 0x100
  {
    if u < 0x80 then u else u - 0x100
  }

  function AsShort(u: nat): (r: int)
    requires u < 0x1_0000
  {
    if u < 0x8000 then u else u - 0x1_0000
  }

  function AsInt(u: nat): (r: Int32)
    requires u < 0x1_0000_0000
  {
    if u < 0x8000_0000 then u else u - 0x1_0000_0000
  }

  function AsLong(u: nat): (r: Long)
    requires u < 0x1_0000_0000_0000_0000
  {
    if u < 0x8000_0000_0000_0000 then u else u - 0x1_0000_0000_0000_0000
  }

  /** The 64-bit pattern of a `Long`, read as an unsigned number. */
  function LongBits(l: Long): (u: nat)
    ensures u < 0x1_0000_0000_0000_0000 && AsLong(u) == l
  {
    l % 0x1_0000_0000_0000_0000
  }

  /** The 32-bit pattern of an `Int`, read as an unsigned number. */
  function IntBits(x: Int32): (u: nat)
    ensures u < 0x1_0000_0000 && AsInt(u) == x
  {
    x % 0x1_0000_0000
  }

  /** The 8-bit pattern of a `Byte`, read as an unsigned number. */
  function ByteBits(x: int): (u: nat)
    requires -0x80 <= x < 0x80
    ensures u < 0x100 && AsByte(u) == x
  {
    x % 0x100
  }

  // Unsafe's getters.

  function GetByte(mem: Heap, addr: int): int
    requires Mapped(mem, addr, 1)
  {
    AsByte(LoadLE(mem, addr, 1))
  }

  function GetShort(mem: Heap, addr: int): int
    requires Mapped(mem, addr, 2)
  {
    AsShort(LoadLE(mem, addr, 2))
  }

  function GetInt(mem: Heap, addr: int): Int32
    requires Mapped(mem, addr, 4)
  {
    AsInt(LoadLE(mem, addr, 4))
  }

  function GetAddress(mem: Heap, addr: int): Long
    requires Mapped(mem, addr, 8)
  {
    AsLong(LoadLE(mem, addr, 8))
  }

  /** Bitwise `and` of two non-negative bit patterns. */
  function BitAnd(x: nat, y: nat): (r: nat)
    ensures r <= x && r <= y
    decreases x
  {
    if x == 0 || y == 0 then 0
    else 2 * BitAnd(x / 2, y / 2) + (if x % 2 == 1 && y % 2 == 1 then 1 else 0)
  }

  /** A positive multiple of a natural number is at least that number. */
  lemma {:induction false} MulAtLeast(d: nat, k: nat)
    requires k >= 1
    ensures d * k >= d
    decreases k
  {
    if k > 1 {
      MulAtLeast(d, k - 1);
      assert d * k == d * (k - 1) + d;
    }
  }

  /** Division and remainder are determined by the Euclidean equation. */
  lemma DivModUnique(y: int, d: int, q: int, r: int)
    requires d > 0 && y == d * q + r && 0 <= r < d
    ensures y / d == q && y % d == r
  {
    var q0, r0 := y / d, y % d;
    assert d * q0 + r0 == d * q + r;
    if q0 > q {
      MulAtLeast(d, q0 - q);
    } else if q0 < q {
      MulAtLeast(d, q - q0);
    }
  }

  /** Shifting a mask left by one bit shifts the `and` left by one bit. */
  lemma BitAndDouble(x: nat, m: nat)
    ensures BitAnd(x, 2 * m) == 2 * BitAnd(x / 2, m)
  {
    if x != 0 && m != 0 {
      var y := 2 * m;
      assert y % 2 == 0 && y / 2 == m;
      assert BitAnd(x, y) == 2 * BitAnd(x / 2, y / 2) + (if x % 2 == 1 && y % 2 == 1 then 1 else 0);
    }
  }

  /** One more low bit: the remainder modulo 2p from the remainder of the halved value modulo p. */
  lemma ModDoubled(x: nat, p: nat)
    requires p > 0
    ensures x % (2 * p) == 2 * ((x / 2) % p) + x % 2
  {
    var q, r := (x / 2) / p, (x / 2) % p;
    assert x / 2 == p * q + r;
    assert x == (2 * p) * q + (2 * r + x % 2);
    DivModUnique(x, 2 * p, q, 2 * r + x % 2);
  }

  /** `and` with an odd mask keeps the lowest bit and shifts the rest. */
  lemma BitAndOdd(x: nat, m: nat)
    ensures BitAnd(x, 2 * m + 1) == 2 * BitAnd(x / 2, m) + x % 2
  {
    var y := 2 * m + 1;
    assert y % 2 == 1 && y / 2 == m;
    if x != 0 {
      assert BitAnd(x, y) == 2 * BitAnd(x / 2, y / 2) + (if x % 2 == 1 && y % 2 == 1 then 1 else 0);
    }
  }

  /** `and` with the mask of the low `k` bits is the remainder modulo 2^k. */
  lemma {:induction false} BitAndLowMask(x: nat, k: nat)
    ensures BitAnd(x, Pow2(k) - 1) == x % Pow2(k)
    decreases k
  {
    if k > 0 {
      var p := Pow2(k - 1);
      assert Pow2(k) - 1 == 2 * (p - 1) + 1;
      BitAndOdd(x, p - 1);
      BitAndLowMask(x / 2, k - 1);
      ModDoubled(x, p);
    }
  }

  /** The `i`-th byte, bits `8i` to `8i + 7`, of the bit pattern `x`. */
  function ByteAt(x: nat, i: nat): Byte
  {
    if i == 0 then x % 0x100 else ByteAt(x / 0x100, i - 1)
  }

  /** A mask shifted left by two bits shifts the `and` left by two bits. */
  lemma BitAndQuadruple(x: nat, m: nat)
    ensures BitAnd(x, 4 * m) == 4 * BitAnd(x / 4, m)
  {
    BitAndDouble(x, 2 * m);
    BitAndDouble(x / 2, m);
    DivDiv(x, 2, 2);
  }

  /** A mask shifted left by four bits shifts the `and` left by four bits. */
  lemma BitAndNibbleShift(x: nat, m: nat)
    ensures BitAnd(x, 0x10 * m) == 0x10 * BitAnd(x / 0x10, m)
  {
    BitAndQuadruple(x, 4 * m);
    BitAndQuadruple(x / 4, m);
    DivDiv(x, 4, 4);
  }

  /** A mask shifted left by one byte shifts the `and` left by one byte. */
  lemma BitAndByteShift(x: nat, m: nat)
    ensures BitAnd(x, 0x100 * m) == 0x100 * BitAnd(x / 0x100, m)
  {
    BitAndNibbleShift(x, 0x10 * m);
    BitAndNibbleShift(x / 0x10, m);
    DivDiv(x, 0x10, 0x10);
  }

  /** Masking byte `i` in place yields that byte shifted left by `i` bytes. */
  lemma {:induction false} BitAndByteMask(x: nat, i: nat)
    ensures BitAnd(x, 0xFF * Pow256(i)) == Pow256(i) * ByteAt(x, i)
    decreases i
  {
    if i == 0 {
      Pow2Values();
      BitAndLowMask(x, 8);
    } else {
      BitAndByteMask(x / 0x100, i - 1);
      ByteMaskStep(x, Pow256(i - 1), ByteAt(x / 0x100, i - 1));
    }
  }

  /** One byte further up: the mask and the byte both move up by 256. */
  lemma ByteMaskStep(x: nat, p: nat, b: nat)
    requires BitAnd(x / 0x100, 0xFF * p) == p * b
    ensures BitAnd(x, 0xFF * (0x100 * p)) == (0x100 * p) * b
  {
    ByteScaling(p, b);
    BitAndByteShift(x, 0xFF * p);
  }

  lemma ByteScaling(p: nat, b: nat)
    ensures 0xFF * (0x100 * p) == 0x100 * (0xFF * p)
    ensures 0x100 * (p * b) == (0x100 * p) * b
  {
  }

  /** Dividing twice is dividing by the product. */
  lemma DivDiv(x: nat, a: nat, b: nat)
    requires a > 0 && b > 0
    ensures (x / a) / b == x / (a * b)
  {
    var q, r, s := (x / a) / b, (x / a) % b, x % a;
    DivDivSplit(x, a, b, q, r, s);
    DivModUnique(x, a * b, q, a * r + s);
  }

  /** The quotient and remainders of dividing by `a` and then by `b`, as one division by `a * b`. */
  lemma DivDivSplit(x: nat, a: nat, b: nat, q: int, r: int, s: int)
    requires a > 0 && b > 0 && q == (x / a) / b && r == (x / a) % b && s == x % a
    ensures x == (a * b) * q + (a * r + s) && 0 <= a * r + s < a * b
  {
    assert x / a == b * q + r;
    assert x == a * (x / a) + s;
    Distribute(a, b, q, r);
    assert 0 <= r <= b - 1;
    MulMonotone(a, r, b - 1);
    assert a * (b - 1) == a * b - a;
  }

  lemma Distribute(a: int, b: int, q: int, r: int)
    ensures a * (b * q + r) == (a * b) * q + a * r
  {
  }

  lemma MulMonotone(a: nat, r: nat, c: nat)
    requires r <= c
    ensures a * r <= a * c
  {
    if r < c {
      MulAtLeast(a, c - r);
      assert a * c == a * r + a * (c - r);
    }
  }

  /** Byte `i` is the quotient by 256^i, modulo 256. */
  lemma {:induction false} ByteAtDiv(x: nat, i: nat)
    ensures ByteAt(x, i) == (x / Pow256(i)) % 0x100
    decreases i
  {
    if i > 0 {
      ByteAtDiv(x / 0x100, i - 1);
      DivDiv(x, 0x100, Pow256(i - 1));
    }
  }
  /** The powers of 256 that address the bytes of a 64-bit word. */
  lemma Pow256Values()
    ensures Pow256(1) == 0x100 && Pow256(2) == 0x1_0000 && Pow256(3) == 0x100_0000
    ensures Pow256(4) == 0x1_0000_0000 && Pow256(5) == 0x100_0000_0000
    ensures Pow256(6) == 0x1_0000_0000_0000 && Pow256(7) == 0x100_0000_0000_0000
  {
    assert Pow256(1) == 0x100 * Pow256(0);
    assert Pow256(2) == 0x100 * Pow256(1);
    assert Pow256(3) == 0x100 * Pow256(2);
    assert Pow256(4) == 0x100 * Pow256(3);
    assert Pow256(5) == 0x100 * Pow256(4);
    assert Pow256(6) == 0x100 * Pow256(5);
    assert Pow256(7) == 0x100 * Pow256(6);
  }

  /** Bits 8 and 16 as powers of two. */
  lemma Pow2Values()
    ensures Pow2(8) == 0x100 && Pow2(16) == 0x1_0000
  {
    assert Pow2(4) == 0x10 by {
      assert Pow2(1) == 2 * Pow2(0);
      assert Pow2(2) == 2 * Pow2(1);
      assert Pow2(3) == 2 * Pow2(2);
      assert Pow2(4) == 2 * Pow2(3);
    }
    assert Pow2(8) == 0x100 by {
      assert Pow2(5) == 2 * Pow2(4);
      assert Pow2(6) == 2 * Pow2(5);
      assert Pow2(7) == 2 * Pow2(6);
      assert Pow2(8) == 2 * Pow2(7);
    }
    assert Pow2(12) == 0x1000 by {
      assert Pow2(9) == 2 * Pow2(8);
      assert Pow2(10) == 2 * Pow2(9);
      assert Pow2(11) == 2 * Pow2(10);
      assert Pow2(12) == 2 * Pow2(11);
    }
    assert Pow2(13) == 2 * Pow2(12);
    assert Pow2(14) == 2 * Pow2(13);
    assert Pow2(15) == 2 * Pow2(14);
    assert Pow2(16) == 2 * Pow2(15);
  }

  /** Masking byte `i` in place and shifting it down yields byte `i`. */
  lemma ByteMaskShift(x: nat, i: nat)
    ensures BitAnd(x, 0xFF * Pow256(i)) / Pow256(i) == ByteAt(x, i)
  {
    BitAndByteMask(x, i);
    DivModUnique(Pow256(i) * ByteAt(x, i), Pow256(i), ByteAt(x, i), 0);
  }
  /** Reading a 64-bit pattern as a `Long` and back gives the pattern. */
  lemma LongBitsAsLong(w: nat)
    requires w < 0x1_0000_0000_0000_0000
    ensures LongBits(AsLong(w)) == w
  {
    if w >= 0x8000_0000_0000_0000 {
      DivModUnique(AsLong(w), 0x1_0000_0000_0000_0000, -1, w);
    } else {
      DivModUnique(AsLong(w), 0x1_0000_0000_0000_0000, 0, w);
    }
  }

  /** Reading an 8-bit pattern as a `Byte` and back gives the pattern. */
  lemma ByteBitsAsByte(w: nat)
    requires w < 0x100
    ensures ByteBits(AsByte(w)) == w
  {
    if w >= 0x80 {
      DivModUnique(AsByte(w), 0x100, -1, w);
    } else {
      DivModUnique(AsByte(w), 0x100, 0, w);
    }
  }
}
