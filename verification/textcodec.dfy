/** The codecs of FITS character fields in misfits/row_entry.cc and misfits/row_entry.hpp.
    Section 7.3.3.1 of the FITS Standard 3.0: a NUL ends a character string early. */
module TextCodec {
  import opened Bytes

  type Text = seq<Byte>

  /** std::string::find_first_of('\0'), with the length for npos. */
  function FirstNul(s: Text): (n: nat)
    ensures n <= |s| && (n < |s| ==> s[n] == NUL)
    ensures forall i | 0 <= i < n :: s[i] != NUL
  {
    if s == [] || s[0] == NUL then 0 else 1 + FirstNul(s[1..])
  }

  function CutNul(s: Text): Text {
    s[..FirstNul(s)]
  }

  lemma FirstNulIs(s: Text, n: nat)
    requires n <= |s| && (n < |s| ==> s[n] == NUL)
    requires forall i | 0 <= i < n :: s[i] != NUL
    ensures FirstNul(s) == n
  {
  }

  function Truncate(s: Text, n: nat): (r: Text)
    ensures |r| <= n
  {
    if |s| <= n then s else s[..n]
  }

  // ------------------------------------------------------------------------------------------
  // One string per cell: Column<std::string>

  /** What Column<std::string>::write stores in a cell of n bytes. */
  function Padded(s: Text, n: nat): (r: Text)
    ensures |r| == n
  {
    Truncate(s, n) + Filled(n - |Truncate(s, n)|, SPACE)
  }

  /** Byte by byte: the string as far as it goes, and then spaces. */
  lemma PaddedBytes(s: Text, n: nat)
    ensures forall k | 0 <= k < n :: Padded(s, n)[k] == if k < |s| then s[k] else 32
  {
  }

  /** What a string becomes when it is written to a cell of n bytes and read back. */
  function StringNormal(s: Text, n: nat): Text {
    CutNul(Padded(s, n))
  }

  /** Without a NUL the string comes back truncated and padded with spaces to the full width;
      otherwise it comes back cut at its first NUL, unpadded. */
  lemma StringNormalForm(s: Text, n: nat)
    ensures NUL !in Truncate(s, n) ==> StringNormal(s, n) == Padded(s, n)
    ensures NUL in Truncate(s, n) ==> StringNormal(s, n) == CutNul(s)
  {
    var t := Truncate(s, n);
    if NUL in t {
      var k := FirstNul(t);
      assert k < |t| by {
        assert exists i :: 0 <= i < |t| && t[i] == NUL;
      }
      FirstNulIs(Padded(s, n), k);
      FirstNulIs(s, k);
    } else {
      FirstNulIs(Padded(s, n), n);
    }
  }

  /** A second cycle changes nothing exactly when no NUL is written in the first one. */
  lemma StringFixedPoint(s: Text, n: nat)
    ensures StringNormal(StringNormal(s, n), n) == StringNormal(s, n) <==> NUL !in Truncate(s, n)
  {
    StringNormalForm(s, n);
    var r := StringNormal(s, n);
    StringNormalForm(r, n);
    if NUL in Truncate(s, n) {
      FirstNulIs(s, FirstNul(Truncate(s, n)));
      assert |r| < n;
      assert Truncate(r, n) == r && NUL !in r;
      assert |StringNormal(r, n)| == n;
    } else {
      assert Truncate(r, n) == r;
      assert Padded(r, n) == r;
    }
  }

  /** A NUL on its own in a cell of one byte is read as an empty string, which is then padded with a space. */
  lemma NulIsNoFixedPoint()
    ensures StringNormal([NUL], 1) == [] && StringNormal([], 1) == [SPACE]
  {
    FirstNulIs([NUL], 0);
    StringNormalForm([NUL], 1);
    StringNormalForm([], 1);
  }

  method WriteString(base: Text, buffer: array<Byte>)
    modifies buffer
    ensures buffer[..] == Padded(base, buffer.Length)
  {
    forall k | 0 <= k < buffer.Length {
      buffer[k] := SPACE;
    }
    forall k | 0 <= k < buffer.Length && k < |base| {
      buffer[k] := base[k];
    }
  }

  method ReadString(buffer: array<Byte>) returns (base: Text)
    ensures base == CutNul(buffer[..])
  {
    base := buffer[..];
    var nchar := FirstNul(base);
    if nchar != |base| {
      base := base[..nchar];
    }
  }

  // ------------------------------------------------------------------------------------------
  // Several strings per cell: StringColumnVector

  /** One slot of `w` bytes: a short string is ended by a NUL and filled up with spaces. */
  function Slot(s: Text, w: nat): (r: Text)
    ensures |r| == w
  {
    if w > |s| then s + [NUL] + Filled(w - |s| - 1, SPACE) else s[..w]
  }

  /** There is room for `count` slots of w bytes in n bytes. */
  predicate Room(count: nat, w: nat, n: nat) {
    count * w <= n
  }

  lemma RoomStep(count: nat, w: nat, n: nat)
    requires count > 0 && Room(count, w, n)
    ensures w <= n && Room(count - 1, w, n - w)
  {
    MulStep(count, w);
  }

  lemma MulStep(c: nat, w: nat)
    requires c > 0
    ensures c * w == w + (c - 1) * w && (c - 1) * w >= 0
  {
  }

  /** What StringColumnVector::write stores in a cell of n bytes. */
  function Slots(ss: seq<Text>, w: nat, n: nat): (r: Text)
    requires Room(|ss|, w, n)
    ensures |r| == n
  {
    if ss == [] then Filled(n, SPACE)
    else
      RoomStep(|ss|, w, n);
      Slot(ss[0], w) + Slots(ss[1..], w, n - w)
  }

  /** What StringColumnVector::read makes of a cell for a vector of `count` strings. */
  function Unslotted(bytes: Text, w: nat, count: nat): (r: seq<Text>)
    requires Room(count, w, |bytes|)
    ensures |r| == count
  {
    if count == 0 then []
    else
      RoomStep(count, w, |bytes|);
      [CutNul(bytes[..w])] + Unslotted(bytes[w..], w, count - 1)
  }

  /** Slot i starts at byte i * w and holds string i alone. */
  lemma {:induction false} SlotsLayout(ss: seq<Text>, w: nat, n: nat, i: nat)
    requires Room(|ss|, w, n) && i < |ss|
    ensures 0 <= i * w <= i * w + w <= n
    ensures Slots(ss, w, n)[i * w..i * w + w] == Slot(ss[i], w)
  {
    var bytes := Slots(ss, w, n);
    MulStep(|ss|, w);
    if i == 0 {
      assert bytes[..w] == Slot(ss[0], w);
    } else {
      MulStep(i, w);
      var from := (i - 1) * w;
      SlotsLayout(ss[1..], w, n - w, i - 1);
      assert bytes[w + from..w + from + w] == bytes[w..][from..from + w];
      assert bytes[w..] == Slots(ss[1..], w, n - w);
    }
  }

  /** Byte by byte: in its slot each string stands as far as it fits; if it leaves room, a NUL comes behind it,
      and then spaces to the end of the slot. */
  lemma SlotsBytes(ss: seq<Text>, w: nat, n: nat)
    requires Room(|ss|, w, n)
    ensures forall i, k | 0 <= i < |ss| && 0 <= k < w ::
              && 0 <= i * w + k < n
              && Slots(ss, w, n)[i * w + k] == if k < |ss[i]| then ss[i][k] else if k == |ss[i]| then 0 else 32
  {
    forall i, k | 0 <= i < |ss| && 0 <= k < w
      ensures 0 <= i * w + k < n
      ensures Slots(ss, w, n)[i * w + k] == if k < |ss[i]| then ss[i][k] else if k == |ss[i]| then 0 else 32
    {
      SlotsLayout(ss, w, n, i);
      assert Slots(ss, w, n)[i * w + k] == Slots(ss, w, n)[i * w..i * w + w][k] == Slot(ss[i], w)[k];
    }
  }

  /** The bytes after the last slot are spaces. */
  lemma {:induction false} SlotsFill(ss: seq<Text>, w: nat, n: nat)
    requires Room(|ss|, w, n)
    ensures 0 <= |ss| * w && Slots(ss, w, n)[|ss| * w..] == Filled(n - |ss| * w, SPACE)
  {
    if ss != [] {
      MulStep(|ss|, w);
      SlotsFill(ss[1..], w, n - w);
      var bytes, from := Slots(ss, w, n), (|ss| - 1) * w;
      assert bytes[w..] == Slots(ss[1..], w, n - w);
      assert bytes[w + from..] == bytes[w..][from..];
    } else {
      assert |ss| * w == 0;
    }
  }

  lemma SlotsBehind(ss: seq<Text>, w: nat, n: nat)
    requires Room(|ss|, w, n)
    ensures forall k | 0 <= |ss| * w <= k < n :: Slots(ss, w, n)[k] == 32
  {
    SlotsFill(ss, w, n);
    var from := |ss| * w;
    assert forall k | from <= k < n :: Slots(ss, w, n)[k] == Slots(ss, w, n)[from..][k - from];
  }

  lemma SlotRead(s: Text, w: nat)
    ensures CutNul(Slot(s, w)) == CutNul(Truncate(s, w))
  {
    var t := Truncate(s, w);
    if w > |s| {
      FirstNulIs(Slot(s, w), FirstNul(s));
    }
  }

  /** After a write and a read, string i is its original truncated to the slot and cut at its first NUL. */
  lemma {:induction false} SlotsRoundTrip(ss: seq<Text>, w: nat, n: nat)
    requires Room(|ss|, w, n)
    ensures forall i | 0 <= i < |ss| ::
              Unslotted(Slots(ss, w, n), w, |ss|)[i] == CutNul(Truncate(ss[i], w))
  {
    if ss != [] {
      var bytes := Slots(ss, w, n);
      SlotsRoundTrip(ss[1..], w, n - w);
      assert bytes[..w] == Slot(ss[0], w) && bytes[w..] == Slots(ss[1..], w, n - w);
      SlotRead(ss[0], w);
      forall i | 1 <= i < |ss|
        ensures Unslotted(bytes, w, |ss|)[i] == CutNul(Truncate(ss[i], w))
      {
        assert ss[1..][i - 1] == ss[i];
      }
    }
  }

  /** Strings without a NUL that fit their slots come back exactly. */
  lemma SlotsExact(ss: seq<Text>, w: nat, n: nat)
    requires Room(|ss|, w, n)
    requires forall s | s in ss :: |s| <= w && NUL !in s
    ensures Unslotted(Slots(ss, w, n), w, |ss|) == ss
  {
    SlotsRoundTrip(ss, w, n);
    forall i | 0 <= i < |ss|
      ensures CutNul(Truncate(ss[i], w)) == ss[i]
    {
      assert ss[i] in ss;
      FirstNulIs(ss[i], |ss[i]|);
    }
  }

  lemma SlotsStep(ss: seq<Text>, i: nat, w: nat, n: nat, before: Text)
    requires i < |ss| && Room(|ss| - i, w, n)
    ensures w <= n && Room(|ss| - (i + 1), w, n - w)
    ensures before + Slots(ss[i..], w, n) == before + Slot(ss[i], w) + Slots(ss[i + 1..], w, n - w)
  {
    RoomStep(|ss| - i, w, n);
    assert ss[i..][0] == ss[i] && ss[i..][1..] == ss[i + 1..];
  }

  lemma NoSlots(w: nat, n: nat)
    requires Room(0, w, n)
    ensures Slots([], w, n) == Filled(n, SPACE)
  {
  }

  method WriteStrings(base: seq<Text>, w: nat, buffer: array<Byte>)
    requires Room(|base|, w, buffer.Length)
    modifies buffer
    ensures buffer[..] == Slots(base, w, buffer.Length)
  {
    hide Room, Slot, Slots, Filled;
    forall k | 0 <= k < buffer.Length {
      buffer[k] := SPACE;
    }
    ghost var n := buffer.Length;
    var start, i := 0, 0;
    while i < |base|
      invariant 0 <= i <= |base| && 0 <= start <= n && Room(|base| - i, w, n - start)
      invariant forall k | start <= k < n :: buffer[k] == SPACE
      invariant buffer[..start] + Slots(base[i..], w, n - start) == Slots(base, w, n)
    {
      ghost var before := buffer[..start];
      SlotsStep(base, i, w, n - start, before);
      WriteSlot(base[i], w, buffer, start);
      assert buffer[..start + w] == before + Slot(base[i], w);
      start, i := start + w, i + 1;
    }
    NoSlots(w, n - start);
    assert base[i..] == [] && buffer[start..] == Filled(n - start, SPACE);
    assert buffer[..] == buffer[..start] + buffer[start..];
  }

  /** The body of that loop, on a slot already filled with spaces. */
  method WriteSlot(str: Text, w: nat, buffer: array<Byte>, start: nat)
    requires start + w <= buffer.Length
    requires forall k | start <= k < start + w :: buffer[k] == SPACE
    modifies buffer
    ensures buffer[start..start + w] == Slot(str, w)
    ensures forall k | 0 <= k < start || start + w <= k < buffer.Length :: buffer[k] == old(buffer[k])
  {
    var maxc := |str|;
    if w > maxc {
      forall k | 0 <= k < maxc {
        buffer[start + k] := str[k];
      }
      buffer[start + maxc] := NUL;
    } else {
      forall k | 0 <= k < w {
        buffer[start + k] := str[k];
      }
    }
  }

  method ReadStrings(buffer: array<Byte>, w: nat, base: seq<Text>) returns (r: seq<Text>)
    requires Room(|base|, w, buffer.Length)
    ensures r == Unslotted(buffer[..], w, |base|)
  {
    hide Room, CutNul;
    r := base;
    var start, i := 0, 0;
    assert buffer[0..] == buffer[..];
    ghost var all := buffer[..];
    while i < |r|
      invariant |r| == |base| && 0 <= i <= |r|
      invariant start <= buffer.Length && Room(|base| - i, w, buffer.Length - start)
      invariant r[..i] + Unslotted(all[start..], w, |base| - i) == Unslotted(all, w, |base|)
    {
      RoomStep(|base| - i, w, buffer.Length - start);
      assert all[start..][..w] == buffer[start..start + w] && all[start..][w..] == all[start + w..];
      var str := CutSlot(buffer, start, w);
      ghost var done := r[..i];
      start := start + w;
      r := r[i := str];
      i := i + 1;
      assert r[..i] == done + [str];
    }
  }

  method CutSlot(buffer: array<Byte>, start: nat, w: nat) returns (str: Text)
    requires start + w <= buffer.Length
    ensures str == CutNul(buffer[start..start + w])
  {
    str := buffer[start..start + w];
    var nchar := FirstNul(str);
    if nchar != |str| {
      str := str[..nchar];
    }
  }
}
