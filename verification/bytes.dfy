/** Bytes seen as eight bits, and the bit reversal of misfits/bitset.cc. */
module Bytes {

  type Byte = bv8

  const NUL: Byte := 0
  const SPACE: Byte := 32

  /** The byte whose only set bit is bit `k`, counted from the least significant. */
  function Mask(k: nat): Byte
    requires k < 8
  {
    if k == 0 then 1 else if k == 1 then 2 else if k == 2 then 4 else if k == 3 then 8
    else if k == 4 then 16 else if k == 5 then 32 else if k == 6 then 64 else 128
  }

  predicate Bit(b: Byte, k: nat)
    requires k < 8
  {
    b & Mask(k) != 0
  }

  /** The byte with bits 0 to `k - 1` set. */
  function LowMask(k: nat): Byte
    requires k < 8
  {
    Mask(k) - 1
  }

  function ReverseBits(b: Byte): Byte {
    var b1 := ((b & 0xF0) >> 4) | ((b & 0x0F) << 4);
    var b2 := ((b1 & 0xCC) >> 2) | ((b1 & 0x33) << 2);
    ((b2 & 0xAA) >> 1) | ((b2 & 0x55) << 1)
  }

  /** Bit k moves to position 7 - k. */
  lemma ReverseBitsMoves(b: Byte, k: nat)
    requires k < 8
    ensures Bit(ReverseBits(b), k) == Bit(b, 7 - k)
  {
    if k < 4 {
      assert k == 0 || k == 1 || k == 2 || k == 3;
    } else {
      assert k == 4 || k == 5 || k == 6 || k == 7;
    }
  }

  lemma LowMaskKeeps(b: Byte, m: nat, k: nat)
    requires m < 8 && k < 8
    ensures Bit(b & LowMask(m), k) == (k < m && Bit(b, k))
  {
  }

  /** A byte is determined by its eight bits. */
  lemma SameBits(a: Byte, b: Byte)
    requires forall k | 0 <= k < 8 :: Bit(a, k) == Bit(b, k)
    ensures a == b
  {
    assert Bit(a, 0) == Bit(b, 0) && Bit(a, 1) == Bit(b, 1) && Bit(a, 2) == Bit(b, 2) && Bit(a, 3) == Bit(b, 3);
    assert Bit(a, 4) == Bit(b, 4) && Bit(a, 5) == Bit(b, 5) && Bit(a, 6) == Bit(b, 6) && Bit(a, 7) == Bit(b, 7);
  }

  /** Reversing twice is the identity. */
  lemma ReverseBitsInvolution(b: Byte)
    ensures ReverseBits(ReverseBits(b)) == b
  {
  }

  function Filled(n: nat, b: Byte): (s: seq<Byte>)
    ensures |s| == n && forall i | 0 <= i < n :: s[i] == b
  {
    seq(n, _ => b)
  }
}
