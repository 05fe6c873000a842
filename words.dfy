/**
 * Go's fixed-width unsigned integers and the conversions and operators on
 * them that the program uses. Dafny integers are unbounded, so every
 * truncation is written out: a Go conversion `uintN(x)` keeps the low N bits
 * of the two's-complement value, which is the Euclidean remainder modulo 2^N.
 */
module Words {

  const TWO_16: nat := 0x1_0000
  const TWO_32: nat := 0x1_0000_0000
  const TWO_64: nat := 0x1_0000_0000_0000_0000

  type Byte = x: int | 0 <= x < 0x100
  type Word16 = x: int | 0 <= x < 0x1_0000
  type Word32 = x: int | 0 <= x < 0x1_0000_0000
  type Word64 = x: int | 0 <= x < 0x1_0000_0000_0000_0000

  /** Go's `uint16(x)` for an `int` x. */
  function ToUint16(x: int): (r: Word16)
    ensures 0 <= x < TWO_16 ==> r == x
    ensures (x - r) % TWO_16 == 0
  {
    x % TWO_16
  }

  /** Go's `uint32(x)` for an `int` x. */
  function ToUint32(x: int): (r: Word32)
    ensures 0 <= x < TWO_32 ==> r == x
    ensures (x - r) % TWO_32 == 0
  {
    x % TWO_32
  }

  function Pow2(n: nat): (r: nat)
    ensures r > 0
  {
    if n == 0 then 1 else 2 * Pow2(n - 1)
  }

  function Pow256(n: nat): (r: nat)
    ensures r > 0
  {
    if n == 0 then 1 else 0x100 * Pow256(n - 1)
  }

  /** Go's `x << n` on a uint64: bits shifted past bit 63 are lost. */
  function ShiftLeft64(x: Word64, n: nat): Word64
  {
    (x * Pow2(n)) % TWO_64
  }

  /** Go's `a + b` on uint64 operands, which wraps around. */
  function Add64(a: Word64, b: Word64): Word64
  {
    (a + b) % TWO_64
  }

  lemma {:induction false} Pow2Add(a: nat, b: nat)
    ensures Pow2(a + b) == Pow2(a) * Pow2(b)
  {
    if a > 0 {
      Pow2Add(a - 1, b);
      assert Pow2(a + b) == 2 * Pow2(a - 1 + b);
    }
  }

  /** Shifting by whole bytes multiplies by a power of 256. */
  lemma {:induction false} Pow2Bytes(i: nat)
    ensures Pow2(8 * i) == Pow256(i)
  {
    if i > 0 {
      Pow2Bytes(i - 1);
      Pow2Add(8 * (i - 1), 8);
      assert Pow2(8) == 0x100 by {
        assert Pow2(1) == 2;
        assert Pow2(2) == 4;
        assert Pow2(3) == 8;
        assert Pow2(4) == 16;
        assert Pow2(5) == 32;
        assert Pow2(6) == 64;
        assert Pow2(7) == 128;
      }
    }
  }

  lemma {:induction false} Pow256Monotone(i: nat, j: nat)
    requires i <= j
    ensures Pow256(i) <= Pow256(j)
  {
    if i < j {
      Pow256Monotone(i, j - 1);
    }
  }

  lemma Pow256Eight()
    ensures Pow256(8) == TWO_64
  {
    assert Pow256(4) == 0x1_0000_0000;
  }

  lemma ModSmall(x: int, m: int)
    requires 0 <= x < m
    ensures x % m == x
  {
  }

  /** A uint64 addition whose true sum fits does not wrap. */
  lemma AddNoWrap(a: Word64, b: Word64)
    requires a + b < TWO_64
    ensures Add64(a, b) == a + b
  {
    ModSmall(a + b, TWO_64);
  }

  lemma MulMonotone(a: nat, b: nat, c: nat)
    requires a <= b
    ensures a * c <= b * c
  {
  }
}
