/** The shape of a cell: misfits/extent.cc. */
module Extents {
  import opened Results
  import opened Numerals

  type Extent = seq<nat>

  const INT_LIMIT := 0x8000_0000

  /** Conversion to a 32-bit int. */
  function ToInt(x: int): (r: int)
    ensures -INT_LIMIT <= r < INT_LIMIT
    ensures -INT_LIMIT <= x < INT_LIMIT ==> r == x
  {
    (x + INT_LIMIT) % (2 * INT_LIMIT) - INT_LIMIT
  }

  /** The accumulator of std::accumulate has the type of its initial value, which is an int. */
  function NelemFrom(e: Extent, acc: int): int {
    if e == [] then acc else NelemFrom(e[1..], ToInt(acc * e[0]))
  }

  function Nelem(e: Extent): int {
    NelemFrom(e, 1)
  }

  function Product(e: Extent): nat {
    if e == [] then 1 else e[0] * Product(e[1..])
  }

  predicate Positive(e: Extent) {
    forall i | 0 <= i < |e| :: e[i] >= 1
  }

  /** The extents the code handles: at least one axis, no empty axis, element count an int. */
  predicate Usable(e: Extent) {
    e != [] && Positive(e) && Product(e) < INT_LIMIT
  }

  lemma MulAtLeast(a: nat, b: nat)
    requires a >= 1 && b >= 1
    ensures a * b >= a && a * b >= b
  {
  }

  lemma ProductPositive(e: Extent)
    requires Positive(e)
    ensures Product(e) >= 1
  {
    if e != [] {
      ProductPositive(e[1..]);
      MulAtLeast(e[0], Product(e[1..]));
    }
  }

  lemma PositiveFromProduct(e: Extent)
    requires Product(e) >= 1
    ensures Positive(e)
  {
    if e != [] {
      PositiveFromProduct(e[1..]);
      forall i | 0 <= i < |e|
        ensures e[i] >= 1
      {
        if i > 0 {
          assert e[i] == e[1..][i - 1];
        }
      }
    }
  }

  /** No prefix of the dimensions has a larger product than the whole. */
  lemma {:induction false} PrefixProduct(e: Extent, k: nat)
    requires Positive(e) && k <= |e|
    ensures 1 <= Product(e[..k]) <= Product(e)
  {
    ProductPositive(e);
    if k > 0 {
      PrefixProduct(e[1..], k - 1);
      assert e[..k][1..] == e[1..][..k - 1];
      var p, q := Product(e[1..][..k - 1]), Product(e[1..]);
      assert Product(e[..k]) == e[0] * p;
      assert e[0] * p <= e[0] * q by { MulMonotone(e[0], p, q); }
      MulAtLeast(e[0], p);
    }
  }

  lemma MulMonotone(a: nat, p: nat, q: nat)
    requires p <= q
    ensures a * p <= a * q
  {
  }

  lemma NelemRange(e: Extent, acc: int)
    requires -INT_LIMIT <= acc < INT_LIMIT
    ensures -INT_LIMIT <= NelemFrom(e, acc) < INT_LIMIT
  {
  }

  lemma {:induction false} NelemFromProduct(e: Extent, acc: nat)
    requires Positive(e) && acc >= 1 && acc * Product(e) < INT_LIMIT
    ensures NelemFrom(e, acc) == acc * Product(e)
  {
    if e != [] {
      ProductPositive(e[1..]);
      var d, p := e[0], Product(e[1..]);
      assert acc * (d * p) == (acc * d) * p;
      MulAtLeast(acc, d);
      MulAtLeast(acc * d, p);
      NelemFromProduct(e[1..], acc * d);
    }
  }

  /** The count is the product exactly when the product is an int; larger products wrap around. */
  lemma NelemExact(e: Extent)
    requires Positive(e)
    ensures Nelem(e) == Product(e) <==> Product(e) < INT_LIMIT
  {
    if Product(e) < INT_LIMIT {
      NelemFromProduct(e, 1);
    } else {
      NelemRange(e, 1);
    }
  }

  /** A square of 65536 has no elements at all, by this count. */
  lemma NelemWraps()
    ensures Positive([0x1_0000, 0x1_0000]) && Nelem([0x1_0000, 0x1_0000]) == 0
  {
    var e: Extent := [0x1_0000, 0x1_0000];
    assert e[1..] == [0x1_0000] && e[1..][1..] == [];
    assert NelemFrom(e[1..], 0x1_0000) == ToInt(0x1_0000 * 0x1_0000) == 0;
  }

  // ------------------------------------------------------------------------------------------

  /** Extent::squeeze: std::remove of the ones, then erase. */
  function Squeeze(e: Extent): Extent {
    if e == [] then [] else if e[0] == 1 then Squeeze(e[1..]) else [e[0]] + Squeeze(e[1..])
  }

  /** Extent's operator==. */
  predicate Same(a: Extent, b: Extent) {
    Squeeze(a) == Squeeze(b)
  }

  /** Squeezing keeps the order: it treats each part of the list on its own. */
  lemma {:induction false} SqueezeConcat(a: Extent, b: Extent)
    ensures Squeeze(a + b) == Squeeze(a) + Squeeze(b)
  {
    if a == [] {
      assert a + b == b;
    } else {
      SqueezeConcat(a[1..], b);
      assert (a + b)[0] == a[0] && (a + b)[1..] == a[1..] + b;
    }
  }

  lemma SqueezeDropsOnes(e: Extent)
    ensures forall d | d in Squeeze(e) :: d != 1
    ensures Squeeze(Squeeze(e)) == Squeeze(e)
    ensures (forall i | 0 <= i < |e| :: e[i] != 1) ==> Squeeze(e) == e
  {
    if e != [] {
      SqueezeDropsOnes(e[1..]);
      if e[0] != 1 {
        assert Squeeze(e)[1..] == Squeeze(e[1..]);
        assert e == [e[0]] + e[1..];
      }
    }
  }

  /** Two shapes are equal exactly if what is left of them without the ones is: an axis of length one never matters,
      and shapes that have none are equal only if they have the same axes in the same order. */
  lemma SameExactly(a: Extent, b: Extent, c: Extent)
    ensures Same(a + [1] + b, c) <==> Same(a + b, c)
    ensures Same(c, a + [1] + b) <==> Same(c, a + b)
    ensures 1 !in a && 1 !in b ==> (Same(a, b) <==> a == b)
  {
    assert Squeeze(a + [1] + b) == Squeeze(a + b) by {
      SqueezeConcat(a + [1], b);
      SqueezeConcat(a, [1]);
      SqueezeConcat(a, b);
      assert Squeeze([1]) == [];
    }
    hide Squeeze;
    SqueezeDropsOnes(a);
    SqueezeDropsOnes(b);
  }

  lemma {:induction false} SqueezeKeepsCount(e: Extent, acc: int)
    requires -INT_LIMIT <= acc < INT_LIMIT
    ensures NelemFrom(Squeeze(e), acc) == NelemFrom(e, acc)
  {
    if e != [] {
      SqueezeKeepsCount(e[1..], ToInt(acc * e[0]));
      if e[0] != 1 {
        assert Squeeze(e)[1..] == Squeeze(e[1..]);
      }
    }
  }

  /** Equal extents have the same number of elements, even where the count wraps around. */
  lemma SameCount(a: Extent, b: Extent)
    requires Same(a, b)
    ensures Nelem(a) == Nelem(b)
  {
    SqueezeKeepsCount(a, 1);
    SqueezeKeepsCount(b, 1);
  }

  lemma SqueezeProduct(e: Extent)
    ensures Product(Squeeze(e)) == Product(e)
  {
    if e != [] {
      SqueezeProduct(e[1..]);
      if e[0] != 1 {
        assert Squeeze(e)[1..] == Squeeze(e[1..]);
      }
    }
  }

  /** A shape with at most one axis other than ones is, up to ones, its element count. */
  lemma SqueezedLine(e: Extent)
    requires Usable(e) && |Squeeze(e)| <= 1
    ensures Same(e, [Product(e)])
  {
    SqueezeProduct(e);
    if |Squeeze(e)| == 1 {
      assert Squeeze(e)[0] in Squeeze(e);
      SqueezeDropsOnes(e);
      assert Product(Squeeze(e)) == Squeeze(e)[0] * 1;
    }
  }

  /** The constructor: the first dimension is kept, further ones are kept when above one. */
  function Make(e: Extent): (r: Extent)
    requires 1 <= |e| <= 10
    ensures r != []
  {
    [e[0]] + OverOne(e[1..])
  }

  function OverOne(e: Extent): Extent {
    if e == [] then [] else if e[0] > 1 then [e[0]] + OverOne(e[1..]) else OverOne(e[1..])
  }

  lemma OverOneIsSqueeze(e: Extent)
    requires Positive(e)
    ensures OverOne(e) == Squeeze(e)
  {
  }

  /** A constructed extent is never empty and has the shape it was asked for. */
  lemma MakeKeepsShape(e: Extent)
    requires 1 <= |e| <= 10 && Positive(e)
    ensures Make(e) != [] && Same(Make(e), e) && Nelem(Make(e)) == Nelem(e)
  {
    OverOneIsSqueeze(e[1..]);
    SqueezeDropsOnes(e[1..]);
    SqueezeConcat([e[0]], OverOne(e[1..]));
    SqueezeConcat([e[0]], e[1..]);
    assert [e[0]] + e[1..] == e;
    SameCount(Make(e), e);
  }

  lemma {:induction false} OverOneAppend(e: Extent, d: nat)
    ensures OverOne(e + [d]) == if d > 1 then OverOne(e) + [d] else OverOne(e)
  {
    if e == [] {
      OverOneLast(d);
      assert e + [d] == [d];
    } else {
      OverOneAppend(e[1..], d);
      assert (e + [d])[0] == e[0] && (e + [d])[1..] == e[1..] + [d];
    }
  }

  /** Of the dimensions behind the first, in their order, each is taken exactly if it is above one. */
  lemma MakeExactly(e: Extent, d: nat)
    requires 1 <= |e| <= 9
    ensures Make([d]) == [d]
    ensures Make(e + [d]) == if d > 1 then Make(e) + [d] else Make(e)
  {
    hide OverOne;
    OverOneAppend(e[1..], d);
    assert (e + [d])[1..] == e[1..] + [d] && (e + [d])[0] == e[0];
    assert [d][1..] == [] && OverOne([]) == [] by {
      OverOneLast(d);
    }
  }

  lemma OverOneLast(d: nat)
    ensures OverOne([]) == [] && OverOne([d]) == if d > 1 then [d] else []
  {
  }

  /** So the axes of (3,1,4) are three and four, and its TDIM says so. */
  lemma MakeInstance()
    ensures Make([3, 1, 4]) == [3, 4] && TdimText([3, 4]) == "(3,4)"
  {
    hide OverOne;
    MakeExactly([3], 1);
    MakeExactly([3], 3);
    MakeExactly([3], 4);
    assert [3] + [1] == [3, 1];
    MakeExactly([3, 1], 4);
    assert [3, 1] + [4] == [3, 1, 4] && [3] + [4] == [3, 4];
    assert [3, 4][1..] == [4] && Decimal(3) == "3" && Decimal(4) == "4";
    assert TdimBody([4]) == "4" && TdimBody([3, 4]) == "3" + "," + "4";
  }

  // ------------------------------------------------------------------------------------------
  // TDIM text, section 7.3.2 of the FITS Standard 3.0

  function TdimBody(e: Extent): string
    requires e != []
  {
    if |e| == 1 then Decimal(e[0]) else Decimal(e[0]) + "," + TdimBody(e[1..])
  }

  function TdimText(e: Extent): string
    requires e != []
  {
    "(" + TdimBody(e) + ")"
  }

  /** to_string: every dimension but the last is followed by a comma. */
  method ToString(extent: Extent) returns (tdim: string)
    requires extent != []
    ensures tdim == TdimText(extent)
  {
    tdim := "(";
    var idx, naxes := 0, |extent|;
    while idx < naxes - 1
      invariant 0 <= idx <= naxes - 1
      invariant tdim + TdimBody(extent[idx..]) == "(" + TdimBody(extent)
    {
      assert extent[idx..][1..] == extent[idx + 1..];
      tdim := tdim + (Decimal(extent[idx]) + ",");
      idx := idx + 1;
    }
    tdim := tdim + Decimal(extent[idx]) + ")";
  }

  function CommaAt(s: string): (i: nat)
    ensures i <= |s| && (i < |s| ==> s[i] == ',')
    ensures forall k | 0 <= k < i :: s[k] != ','
  {
    if s == [] || s[0] == ',' then 0 else 1 + CommaAt(s[1..])
  }

  /** Positive integers separated by commas. */
  function ParseBody(s: string): Option<Extent>
    decreases |s|
  {
    var i := CommaAt(s);
    match ParseNat(s[..i])
    case None => None
    case Some(d) =>
      if i == |s| then Some([d])
      else match ParseBody(s[i + 1..])
           case None => None
           case Some(rest) => Some([d] + rest)
  }

  function ParseTdim(s: string): Option<Extent> {
    if |s| >= 2 && s[0] == '(' && s[|s| - 1] == ')' then ParseBody(s[1..|s| - 1]) else None
  }

  lemma {:induction false} CommaAfterDigits(digits: string, rest: string)
    requires AllDigits(digits) && (rest != [] ==> rest[0] == ',')
    ensures CommaAt(digits + rest) == |digits|
  {
    var s := digits + rest;
    if digits == [] {
      assert s == rest;
    } else {
      assert s[0] == digits[0] && IsDigit(digits[0]);
      assert s[1..] == digits[1..] + rest;
      CommaAfterDigits(digits[1..], rest);
    }
  }

  lemma {:induction false} BodyRoundTrip(e: Extent)
    requires e != []
    ensures ParseBody(TdimBody(e)) == Some(e)
  {
    var first := Decimal(e[0]);
    DecimalValue(e[0]);
    if |e| == 1 {
      CommaAfterDigits(first, "");
      assert first + "" == first;
      assert TdimBody(e) == first && first[..|first|] == first;
      assert e == [e[0]];
    } else {
      var rest := "," + TdimBody(e[1..]);
      assert TdimBody(e) == first + rest;
      CommaAfterDigits(first, rest);
      assert (first + rest)[..|first|] == first;
      assert (first + rest)[|first| + 1..] == TdimBody(e[1..]);
      BodyRoundTrip(e[1..]);
      assert [e[0]] + e[1..] == e;
    }
  }

  /** The printed shape reads back as itself, whatever its rank and dimensions. */
  lemma TdimRoundTrip(e: Extent)
    requires e != []
    ensures ParseTdim(TdimText(e)) == Some(e)
  {
    var s := TdimText(e);
    assert s[1..|s| - 1] == TdimBody(e);
    BodyRoundTrip(e);
  }

  /** Different shapes print differently. */
  lemma TdimInjective(a: Extent, b: Extent)
    requires a != [] && b != [] && TdimText(a) == TdimText(b)
    ensures a == b
  {
    TdimRoundTrip(a);
    TdimRoundTrip(b);
  }
}
