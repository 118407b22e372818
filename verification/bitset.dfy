/** The BitSet of misfits/bitset.hpp and the codec of FITS bit columns in misfits/row_entry.cc. */
module BitSets {
  import opened Bytes

  /** boost::dynamic_bitset<byte_t>: bit i is bit i % 8 of block i / 8. */
  datatype BitSet = BitSet(size: nat, blocks: seq<Byte>) {

    predicate Shaped() {
      |blocks| == (size + 7) / 8
    }

    predicate At(i: nat)
      requires i < 8 * |blocks|
    {
      Bit(blocks[i / 8], i % 8)
    }

    /** The class invariant of dynamic_bitset: the unused bits of the last block are zero. */
    predicate Valid() {
      Shaped() && forall i: nat | size <= i < 8 * |blocks| :: !At(i)
    }

    function ZeroUnused(): (r: BitSet)
      requires Shaped()
      ensures r.Shaped() && r.size == size
    {
      if size % 8 == 0 then this
      else
        var last := |blocks| - 1;
        BitSet(size, blocks[last := blocks[last] & LowMask(size % 8)])
    }

    /** dynamic_bitset::resize(n): drop or append zero blocks, then clear the unused bits. */
    function Resize(n: nat): (r: BitSet)
      ensures r.Shaped() && r.size == n
    {
      var need := (n + 7) / 8;
      var bs := if need <= |blocks| then blocks[..need] else blocks + Filled(need - |blocks|, 0);
      BitSet(n, bs).ZeroUnused()
    }
  }

  function ToBits(b: BitSet): (s: seq<bool>)
    requires b.Shaped()
  {
    seq(b.size, i requires 0 <= i < b.size => b.At(i))
  }

  lemma ZeroUnusedBits(b: BitSet, i: nat)
    requires b.Shaped() && i < 8 * |b.blocks|
    ensures b.ZeroUnused().At(i) == (i < b.size && b.At(i))
  {
    if b.size % 8 != 0 && i / 8 == |b.blocks| - 1 {
      LowMaskKeeps(b.blocks[i / 8], b.size % 8, i % 8);
    }
  }

  /** Resizing re-establishes the invariant and keeps every bit below both sizes. */
  lemma ResizeBits(b: BitSet, n: nat)
    requires b.Shaped()
    requires b.Valid() || n <= b.size
    ensures b.Resize(n).Valid()
    ensures forall i: nat | i < n :: b.Resize(n).At(i) == (i < b.size && b.At(i))
  {
    var r := b.Resize(n);
    var need := (n + 7) / 8;
    var bs := if need <= |b.blocks| then b.blocks[..need] else b.blocks + Filled(need - |b.blocks|, 0);
    var c := BitSet(n, bs);
    forall i: nat | i < 8 * |r.blocks|
      ensures r.At(i) == (i < n && i < b.size && b.At(i))
    {
      ZeroUnusedBits(c, i);
      if i < 8 * |b.blocks| {
        assert c.At(i) == b.At(i);
      } else {
        assert c.blocks[i / 8] == 0;
      }
    }
  }

  /** Two valid bitsets with the same bits are the same object value. */
  lemma BitSetsEqual(a: BitSet, b: BitSet)
    requires a.Valid() && b.Valid() && a.size == b.size
    requires forall i: nat | i < a.size :: a.At(i) == b.At(i)
    ensures a == b
  {
    forall j | 0 <= j < |a.blocks|
      ensures a.blocks[j] == b.blocks[j]
    {
      forall k | 0 <= k < 8
        ensures Bit(a.blocks[j], k) == Bit(b.blocks[j], k)
      {
        var i := 8 * j + k;
        assert i / 8 == j && i % 8 == k;
        assert a.At(i) == b.At(i);
      }
      SameBits(a.blocks[j], b.blocks[j]);
    }
  }

  // ------------------------------------------------------------------------------------------
  // FITS bit arrays, section 7.3.3.1 of the FITS Standard 3.0: the first bit is the most
  // significant bit of the first byte.

  predicate FitsBit(bytes: seq<Byte>, i: nat)
    requires i < 8 * |bytes|
  {
    Bit(bytes[i / 8], 7 - i % 8)
  }

  /** Bit k of a byte, counted from the one of weight 1. */
  predicate FromLow(b: Byte, k: nat)
    requires k < 8
  {
    b & [1, 2, 4, 8, 16, 32, 64, 128][k] != 0
  }

  /** Bit k of a byte, counted from the one of weight 128. */
  predicate FromHigh(b: Byte, k: nat)
    requires k < 8
  {
    b & [128, 64, 32, 16, 8, 4, 2, 1][k] != 0
  }

  /** In a block the first bit is the one of weight 1, in the file the one of weight 128. */
  lemma BitWeights(b: BitSet, bytes: seq<Byte>, i: nat)
    requires i < 8 * |b.blocks| && i < 8 * |bytes|
    ensures b.At(i) <==> FromLow(b.blocks[i / 8], i % 8)
    ensures FitsBit(bytes, i) <==> FromHigh(bytes[i / 8], i % 8)
  {
    assert Mask(i % 8) == [1, 2, 4, 8, 16, 32, 64, 128][i % 8];
    assert Mask(7 - i % 8) == [128, 64, 32, 16, 8, 4, 2, 1][i % 8];
  }

  function Reversed(blocks: seq<Byte>): (bytes: seq<Byte>)
    ensures |bytes| == |blocks|
    ensures forall j | 0 <= j < |blocks| :: bytes[j] == ReverseBits(blocks[j])
  {
    seq(|blocks|, j requires 0 <= j < |blocks| => ReverseBits(blocks[j]))
  }

  /** Bit i of `n` bits stored in `bytes` is at place 7 - i % 8 of byte i / 8, and the padding is zero. */
  ghost predicate StoredAs(bits: seq<bool>, bytes: seq<Byte>) {
    && |bytes| == (|bits| + 7) / 8
    && forall i: nat | i < 8 * |bytes| :: FitsBit(bytes, i) == (i < |bits| && bits[i])
  }

  /** What Column<BitSet>::read makes of the stored bytes: whole blocks, filled, then cut to n bits. */
  function Unpacked(bytes: seq<Byte>, n: nat): BitSet {
    BitSet(8 * |bytes|, Reversed(bytes)).Resize(n)
  }

  lemma ReversedBit(blocks: seq<Byte>, i: nat)
    requires i < 8 * |blocks|
    ensures FitsBit(Reversed(blocks), i) == Bit(blocks[i / 8], i % 8)
    ensures Bit(Reversed(blocks)[i / 8], i % 8) == FitsBit(blocks, i)
  {
    ReverseBitsMoves(blocks[i / 8], 7 - i % 8);
    ReverseBitsMoves(blocks[i / 8], i % 8);
  }

  /** Writing follows the FITS layout, padding included, for every number of bits. */
  lemma WriteLayout(b: BitSet)
    requires b.Valid()
    ensures StoredAs(ToBits(b), Reversed(b.blocks))
  {
    forall i: nat | i < 8 * |b.blocks|
      ensures FitsBit(Reversed(b.blocks), i) == (i < b.size && b.At(i))
    {
      ReversedBit(b.blocks, i);
      assert b.At(i) == Bit(b.blocks[i / 8], i % 8);
    }
  }

  /** Whatever bytes are stored, padding included, reading yields exactly their first n bits,
      with the bitset's invariant restored. */
  lemma ReadBits(bytes: seq<Byte>, n: nat)
    requires |bytes| == (n + 7) / 8
    ensures Unpacked(bytes, n).Valid() && Unpacked(bytes, n).size == n
    ensures forall i: nat | i < n :: Unpacked(bytes, n).At(i) == FitsBit(bytes, i)
  {
    var whole := BitSet(8 * |bytes|, Reversed(bytes));
    ResizeBits(whole, n);
    forall i: nat | i < n
      ensures Unpacked(bytes, n).At(i) == FitsBit(bytes, i)
    {
      assert Unpacked(bytes, n).At(i) == whole.At(i);
      ReversedBit(bytes, i);
    }
  }

  /** The padding is never seen. */
  lemma ReadIgnoresPadding(a: seq<Byte>, b: seq<Byte>, n: nat)
    requires |a| == |b| == (n + 7) / 8
    requires forall i: nat | i < n :: FitsBit(a, i) == FitsBit(b, i)
    ensures Unpacked(a, n) == Unpacked(b, n)
  {
    ReadBits(a, n);
    ReadBits(b, n);
    BitSetsEqual(Unpacked(a, n), Unpacked(b, n));
  }

  /** Reading back what was written recovers the bitset, for every number of bits. */
  lemma BitRoundTrip(b: BitSet)
    requires b.Valid()
    ensures Unpacked(Reversed(b.blocks), b.size) == b
  {
    var bytes := Reversed(b.blocks);
    ReadBits(bytes, b.size);
    WriteLayout(b);
    BitSetsEqual(Unpacked(bytes, b.size), b);
  }

  // ------------------------------------------------------------------------------------------
  // The adapters that reverse each byte on its way, and the boost copies that use them.

  class OutputIterator {
    const target: array<Byte>
    var iter: nat

    constructor (target: array<Byte>, iter: nat)
      ensures this.target == target && this.iter == iter
    {
      this.target, this.iter := target, iter;
    }

    method Assign(value: Byte)
      requires iter < target.Length
      modifies target
      ensures target[iter] == ReverseBits(value)
      ensures forall k | 0 <= k < target.Length && k != iter :: target[k] == old(target[k])
    {
      target[iter] := ReverseBits(value);
    }

    method Advance()
      modifies this
      ensures iter == old(iter) + 1
    {
      iter := iter + 1;
    }
  }

  class InputIterator {
    const source: array<Byte>
    var iter: nat

    constructor (source: array<Byte>, iter: nat)
      ensures this.source == source && this.iter == iter
    {
      this.source, this.iter := source, iter;
    }

    function Deref(): Byte
      requires iter < source.Length
      reads this, source
    {
      ReverseBits(source[iter])
    }

    method Advance()
      modifies this
      ensures iter == old(iter) + 1
    {
      iter := iter + 1;
    }
  }

  /** boost::to_block_range through an OutputIterator on the column's buffer. */
  method ToBlockRange(b: BitSet, buffer: array<Byte>)
    requires |b.blocks| <= buffer.Length
    modifies buffer
    ensures buffer[..] == Reversed(b.blocks) + old(buffer[|b.blocks|..])
  {
    var out := new OutputIterator(buffer, 0);
    var j := 0;
    while j < |b.blocks|
      invariant 0 <= j <= |b.blocks| && out.iter == j && out.target == buffer && fresh(out)
      invariant forall k | 0 <= k < j :: buffer[k] == ReverseBits(b.blocks[k])
      invariant forall k | j <= k < buffer.Length :: buffer[k] == old(buffer[k])
    {
      out.Assign(b.blocks[j]);
      out.Advance();
      j := j + 1;
    }
  }

  /** boost::from_block_range through InputIterators from `first` to `last`. */
  method FromBlockRange(first: InputIterator, last: InputIterator, b: BitSet) returns (r: BitSet)
    requires first.source == last.source && first != last && first.iter == 0
    requires last.iter == first.source.Length <= |b.blocks|
    modifies first
    ensures r == BitSet(b.size, Reversed(first.source[..]) + b.blocks[first.source.Length..])
  {
    r := b;
    ghost var n := first.source.Length;
    while first.iter != last.iter
      invariant first.iter <= n
      invariant r.size == b.size && |r.blocks| == |b.blocks|
      invariant forall j | 0 <= j < first.iter :: r.blocks[j] == ReverseBits(first.source[j])
      invariant forall j | first.iter <= j < |r.blocks| :: r.blocks[j] == b.blocks[j]
      decreases n - first.iter
    {
      r := r.(blocks := r.blocks[first.iter := first.Deref()]);
      first.Advance();
    }
  }

  /** The bit branch of Column<BitSet>::read, once the buffer holds the stored bytes. */
  method ReadBitColumn(buffer: array<Byte>, base: BitSet, nelem: nat) returns (r: BitSet)
    requires base.Valid() && buffer.Length == (nelem + 7) / 8
    ensures r == Unpacked(buffer[..], nelem)
  {
    r := base.Resize(8 * buffer.Length);
    var first := new InputIterator(buffer, 0);
    var last := new InputIterator(buffer, buffer.Length);
    r := FromBlockRange(first, last, r);
    assert r.blocks == Reversed(buffer[..]);
    r := r.Resize(nelem);
  }
}
