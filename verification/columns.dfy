/** Column descriptions and the header keywords they stand for: misfits/columninfo.cc, misfits/types.cc. */
module Columns {
  import opened Results
  import opened Numerals
  import opened Extents

  datatype TypeId = TBit | TByte | TLogical | TString | TShort | TLong | TLongLong | TFloat | TDouble

  function Code(id: TypeId): char {
    match id
    case TBit => 'X'
    case TByte => 'B'
    case TLogical => 'L'
    case TString => 'A'
    case TShort => 'I'
    case TLong => 'J'
    case TLongLong => 'K'
    case TFloat => 'E'
    case TDouble => 'D'
  }

  function FromCode(c: char): Option<TypeId> {
    if c == 'X' then Some(TBit) else if c == 'B' then Some(TByte) else if c == 'L' then Some(TLogical)
    else if c == 'A' then Some(TString) else if c == 'I' then Some(TShort) else if c == 'J' then Some(TLong)
    else if c == 'K' then Some(TLongLong) else if c == 'E' then Some(TFloat) else if c == 'D' then Some(TDouble)
    else None
  }

  /** The width CFITSIO reports for one element; for bits it is one byte. */
  function UnitBytes(id: TypeId): nat {
    match id
    case TShort => 2
    case TLong => 4
    case TLongLong => 8
    case TFloat => 4
    case TDouble => 8
    case _ => 1
  }

  /** Bytes for n bits, counted as the code does: divide, then add one for a remainder. */
  function BitBytes(n: int): int {
    var b := n / 8;
    if b * 8 < n then b + 1 else b
  }

  /** Spec::width. */
  function SpecWidth(id: TypeId, repeat: int): int {
    if id == TBit then BitBytes(repeat) else UnitBytes(id) * repeat
  }

  // ------------------------------------------------------------------------------------------
  // Header keywords of one column, and how CFITSIO reads them

  datatype Header = Header(ttype: string, tform: string, tdim: Option<string>)

  /** A parsed TFORM: type, repeat count, and for strings an optional width (rAw). */
  datatype Form = Form(id: TypeId, repeat: nat, suffix: Option<nat>)

  function ParseTform(s: string): Option<Form> {
    var k := LeadingDigits(s);
    if k == |s| then None
    else match FromCode(s[k])
         case None => None
         case Some(id) =>
           var repeat := if k == 0 then 1 else Value(s[..k]);
           var rest := s[k + 1..];
           if rest == [] then Some(Form(id, repeat, None))
           else if id == TString && ParseNat(rest).Some? then Some(Form(id, repeat, ParseNat(rest)))
           else None
  }

  /** Headers whose TFORM is legal and not of zero length. */
  predicate WellFormed(h: Header) {
    && ParseTform(h.tform).Some?
    && var f := ParseTform(h.tform).value;
       1 <= f.repeat < INT_LIMIT && (f.suffix.Some? ==> f.suffix.value >= 1)
  }

  function FormOf(h: Header): (f: Form)
    requires WellFormed(h)
    ensures 1 <= f.repeat < INT_LIMIT && (f.suffix.Some? ==> f.suffix.value >= 1)
  {
    ParseTform(h.tform).value
  }

  /** The bytes a cell occupies in the file. */
  function CellBytes(h: Header): (n: nat)
    requires WellFormed(h)
    ensures n >= 1
  {
    var f := FormOf(h);
    if f.id == TBit then (f.repeat + 7) / 8
    else
      assert UnitBytes(f.id) * f.repeat >= 1;
      UnitBytes(f.id) * f.repeat
  }

  /** fits_read_tdimll: the parsed TDIM, or one axis of the repeat count. */
  function ReadTdim(h: Header): Result<Extent>
    requires WellFormed(h)
  {
    match h.tdim
    case None => Success([FormOf(h).repeat])
    case Some(text) =>
      match ParseTdim(text)
      case None => Failure(BadTdim)
      case Some(dims) =>
        if dims != [] && Product(dims) == FormOf(h).repeat then Success(dims) else Failure(BadTdim)
  }

  /** The width of the strings in a cell without TDIM: the suffix of TFORM, unless it exceeds the cell. */
  function StringWidth(f: Form): nat {
    if f.suffix.Some? && f.suffix.value <= f.repeat then f.suffix.value else f.repeat
  }

  /** The width fits_get_coltypell reports; for strings TDIM wins over the suffix of TFORM. */
  function ReportedWidth(h: Header): (w: nat)
    requires WellFormed(h) && ReadTdim(h).Success?
    ensures w >= 1
  {
    var f := FormOf(h);
    var dims := ReadTdim(h).value;
    assert dims[0] >= 1 by {
      if h.tdim.Some? {
        PositiveFromProduct(dims);
      }
    }
    if f.id != TString then UnitBytes(f.id)
    else if h.tdim.Some? then dims[0]
    else StringWidth(f)
  }

  // ------------------------------------------------------------------------------------------

  datatype ColumnInfo =
    ColumnInfo(ttype: string, id: TypeId, extent: Extent, colnum: nat, offset: int, nbytes: int)

  /** ColumnInfo's operator==. */
  predicate Equal(a: ColumnInfo, b: ColumnInfo) {
    a.id == b.id && Same(a.extent, b.extent)
  }

  /** The constructor for users; its offset is not initialized and stands at zero here. */
  function UserInfo(ttype: string, id: TypeId, extent: Extent, colnum: nat): ColumnInfo {
    ColumnInfo(ttype, id, extent, colnum, 0, SpecWidth(id, Nelem(extent)))
  }

  /** How many whole strings of a width there are in a cell. */
  function Strings(repeat: nat, width: nat): nat
    requires width >= 1
  {
    repeat / width
  }

  function InitExtent(h: Header): Extent
    requires WellFormed(h) && ReadTdim(h).Success?
  {
    var f, dims := FormOf(h), ReadTdim(h).value;
    if f.id == TString && |dims| == 1 then
      [ReportedWidth(h), Strings(f.repeat, ReportedWidth(h))]
    else
      dims
  }

  function InitBytes(h: Header): int
    requires WellFormed(h) && ReadTdim(h).Success?
  {
    var id, nelem := FormOf(h).id, Nelem(InitExtent(h));
    if id == TBit then BitBytes(nelem)
    else nelem * (if id == TString then 1 else ReportedWidth(h))
  }

  /** ColumnInfo::init. */
  function Describe(h: Header, colnum: nat, offset: int): Result<ColumnInfo>
    requires WellFormed(h)
  {
    match ReadTdim(h)
    case Failure(e) => Failure(e)
    case Success(_) =>
      Success(ColumnInfo(h.ttype, FormOf(h).id, InitExtent(h), colnum, offset, InitBytes(h)))
  }

  /** ColumnInfo::tform. */
  function TformText(ci: ColumnInfo): string {
    (if Nelem(ci.extent) > 1 then Decimal(Nelem(ci.extent)) else "") + [Code(ci.id)]
  }

  /** The keywords that ColumnInfo::insert writes. */
  function InsertedHeader(ci: ColumnInfo): Header {
    Header(ci.ttype, TformText(ci),
           if |Squeeze(ci.extent)| > 1 then
             SqueezeNonEmpty(ci.extent);
             Some(TdimText(ci.extent))
           else None)
  }

  lemma SqueezeNonEmpty(e: Extent)
    ensures Squeeze(e) != [] ==> e != []
  {
  }

  lemma CodeRoundTrip(id: TypeId)
    ensures FromCode(Code(id)) == Some(id) && !IsDigit(Code(id))
  {
  }

  /** TFORM written for a description is read back with its type and element count. */
  lemma TformRoundTrip(ci: ColumnInfo)
    requires Usable(ci.extent)
    ensures ParseTform(TformText(ci)) == Some(Form(ci.id, Product(ci.extent), None))
  {
    var n := Nelem(ci.extent);
    NelemExact(ci.extent);
    ProductPositive(ci.extent);
    CodeRoundTrip(ci.id);
    var digits := if n > 1 then Decimal(n) else "";
    LeadingDigitsOf(digits, [Code(ci.id)]);
    assert TformText(ci)[..|digits|] == digits;
    if n > 1 {
      DecimalValue(n);
    }
  }

  /** The letter of TFORM for each type, with the element count in front of it unless that is one, and how many bytes
      the cell has: a bit takes an eighth of one, rounded up over the cell. */
  lemma TformLetters(ci: ColumnInfo)
    requires Usable(ci.extent)
    ensures var n := Product(ci.extent);
            var letter := match ci.id case TBit => "X" case TByte => "B" case TLogical => "L" case TString => "A"
                          case TShort => "I" case TLong => "J" case TLongLong => "K" case TFloat => "E"
                          case TDouble => "D";
            var bits := match ci.id case TBit => 1 case TByte => 8 case TLogical => 8 case TString => 8
                        case TShort => 16 case TLong => 32 case TLongLong => 64 case TFloat => 32
                        case TDouble => 64;
            && n >= 1 && WellFormed(InsertedHeader(ci))
            && InsertedHeader(ci).tform == (if n == 1 then "" else Decimal(n)) + letter
            && CellBytes(InsertedHeader(ci)) == (bits * n + 7) / 8
  {
    hide Decimal, ParseTform;
    NelemExact(ci.extent);
    ProductPositive(ci.extent);
    TformRoundTrip(ci);
  }

  /** Two descriptions are equal exactly if they stand for the same TFORM and the same shape. */
  lemma EqualExactly(a: ColumnInfo, b: ColumnInfo)
    requires Usable(a.extent) && Usable(b.extent)
    ensures Equal(a, b) <==> TformText(a) == TformText(b) && Same(a.extent, b.extent)
  {
    hide Decimal, ParseTform, Squeeze;
    TformRoundTrip(a);
    TformRoundTrip(b);
    if Same(a.extent, b.extent) {
      SameCount(a.extent, b.extent);
    }
  }

  lemma TwoAxes(w: nat, q: nat)
    requires w >= 1 && w * q < INT_LIMIT
    ensures Product([w, q]) == w * q == Nelem([w, q])
  {
    var e: Extent := [w, q];
    assert e[1..] == [q] && e[1..][1..] == [];
    assert Product([q]) == q * 1;
    if q == 0 {
      assert NelemFrom(e[1..], ToInt(1 * w)) == ToInt(ToInt(1 * w) * 0);
    } else {
      NelemExact(e);
    }
  }

  lemma Multiple(r: nat, w: nat)
    requires w >= 1
    ensures w * (r / w) == r - r % w <= r
    ensures r == w ==> r / w == 1 && r % w == 0
  {
  }

  /** For a string read as a line, evenness is divisibility by the reported width. */
  lemma LineEven(h: Header)
    requires WellFormed(h) && ReadTdim(h).Success? && FormOf(h).id == TString && |ReadTdim(h).value| == 1
    ensures Even(h) <==> FormOf(h).repeat % ReportedWidth(h) == 0
  {
    var f, dims := FormOf(h), ReadTdim(h).value;
    if h.tdim.Some? {
      LineProduct(dims);
      Multiple(f.repeat, f.repeat);
    } else {
      Multiple(f.repeat, f.repeat);
    }
  }

  lemma LineProduct(e: Extent)
    requires |e| == 1
    ensures Product(e) == e[0]
  {
    assert e[1..] == [] && Product(e) == e[0] * Product([]);
  }

  lemma ReadProduct(h: Header)
    requires WellFormed(h) && ReadTdim(h).Success?
    ensures Product(ReadTdim(h).value) == FormOf(h).repeat && Usable(ReadTdim(h).value)
  {
    var r := FormOf(h).repeat;
    assert Product([r]) == r * Product([]);
    PositiveFromProduct(ReadTdim(h).value);
  }

  /** The element count of a shape read from the header is exact, unless a string width leaves a rest. */
  lemma InitCount(h: Header)
    requires WellFormed(h) && ReadTdim(h).Success?
    ensures Nelem(InitExtent(h)) == Product(InitExtent(h)) <= FormOf(h).repeat
    ensures Nelem(InitExtent(h)) == FormOf(h).repeat <==> Even(h)
  {
    hide WellFormed, FormOf;
    ReadProduct(h);
    if FormOf(h).id == TString && |ReadTdim(h).value| == 1 {
      var w, r := ReportedWidth(h), FormOf(h).repeat;
      LineEven(h);
      Multiple(r, w);
      TwoAxes(w, r / w);
    } else {
      NelemExact(ReadTdim(h).value);
    }
  }

  /** A string column without TDIM whose width does not divide its repeat count is uneven. */
  predicate Even(h: Header)
    requires WellFormed(h)
  {
    var f := FormOf(h);
    f.id == TString && h.tdim == None && f.suffix.Some? && f.suffix.value <= f.repeat ==>
      f.repeat % f.suffix.value == 0
  }

  /** The byte count in the cache is the one in the file exactly for even columns. */
  lemma InitBytesExact(h: Header)
    requires WellFormed(h) && ReadTdim(h).Success?
    ensures 0 <= InitBytes(h) <= CellBytes(h)
    ensures InitBytes(h) == CellBytes(h) <==> Even(h)
  {
    InitCount(h);
    var f := FormOf(h);
    if f.id != TString && f.id != TBit {
      assert Nelem(InitExtent(h)) * UnitBytes(f.id) == UnitBytes(f.id) * f.repeat;
    }
  }

  /** Ten characters in strings of three, 10A3: the cache counts nine bytes of the ten. */
  lemma UnevenStrings(h: Header)
    requires WellFormed(h) && FormOf(h) == Form(TString, 10, Some(3)) && h.tdim == None
    ensures !Even(h) && CellBytes(h) == 10
    ensures InitExtent(h) == [3, 3] && InitBytes(h) == 9
  {
    TwoAxes(3, 3);
  }

  /** A description written to a header is read back equal, with the same counts. */
  lemma DescriptionRoundTrip(ci: ColumnInfo, colnum: nat, offset: int)
    requires Usable(ci.extent)
    ensures var h := InsertedHeader(ci);
            && WellFormed(h) && Even(h)
            && var r := Describe(h, colnum, offset);
            && r.Success?
            && Equal(r.value, ci) && r.value.ttype == ci.ttype
            && r.value.colnum == colnum && r.value.offset == offset
            && Nelem(r.value.extent) == Nelem(ci.extent)
            && r.value.nbytes == SpecWidth(ci.id, Nelem(ci.extent)) == CellBytes(h)
            && (|Squeeze(ci.extent)| > 1 ==> r.value.extent == ci.extent)
            && (|Squeeze(ci.extent)| <= 1 ==>
                  r.value.extent == if ci.id == TString then [Nelem(ci.extent), 1] else [Nelem(ci.extent)])
  {
    hide Decimal, LeadingDigits, ParseTdim;
    var h := InsertedHeader(ci);
    var n := Product(ci.extent);
    NelemExact(ci.extent);
    ProductPositive(ci.extent);
    TformRoundTrip(ci);
    TdimRoundTrip(ci.extent);
    assert WellFormed(h) && FormOf(h) == Form(ci.id, n, None);
    assert ReadTdim(h).Success?;
    InitCount(h);
    InitBytesExact(h);
    if |Squeeze(ci.extent)| <= 1 {
      SqueezedLine(ci.extent);
      assert Squeeze([n, 1]) == Squeeze([n]) by {
        SqueezeConcat([n], [1]);
        assert [n] + [1] == [n, 1] && Squeeze([1]) == [];
      }
      assert ReportedWidth(h) == (if ci.id == TString then n else UnitBytes(ci.id));
      assert n / n == 1;
    } else {
      SqueezeLength(ci.extent);
    }
  }

  lemma SqueezeLength(e: Extent)
    ensures |Squeeze(e)| <= |e|
  {
  }

  // ------------------------------------------------------------------------------------------
  // The descriptions of all columns of a table

  ghost predicate AllWellFormed(cols: seq<Header>) {
    forall k | 0 <= k < |cols| :: WellFormed(cols[k])
  }

  ghost predicate Describable(cols: seq<Header>)
    requires AllWellFormed(cols)
  {
    forall k | 0 <= k < |cols| :: ReadTdim(cols[k]).Success?
  }

  /** The descriptions pushed by Table::refresh from column k on, before the first it cannot describe. */
  function LayoutFrom(cols: seq<Header>, k: nat, offset: int): (cis: seq<ColumnInfo>)
    requires AllWellFormed(cols) && k <= |cols|
    ensures |cis| <= |cols| - k
    decreases |cols| - k
  {
    if k == |cols| then []
    else match Describe(cols[k], k + 1, offset)
         case Failure(_) => []
         case Success(ci) => [ci] + LayoutFrom(cols, k + 1, offset + ci.nbytes)
  }

  function Layout(cols: seq<Header>): seq<ColumnInfo>
    requires AllWellFormed(cols)
  {
    LayoutFrom(cols, 0, 1)
  }

  /** How Table::refresh ends: with the error of the first column it cannot describe, if any. */
  function StatusFrom(cols: seq<Header>, k: nat): (st: Status)
    requires AllWellFormed(cols) && k <= |cols|
    ensures st.Success? <==> forall j | k <= j < |cols| :: ReadTdim(cols[j]).Success?
    decreases |cols| - k
  {
    if k == |cols| then Success(())
    else match ReadTdim(cols[k])
         case Failure(e) => Failure(e)
         case Success(_) => StatusFrom(cols, k + 1)
  }

  function LayoutStatus(cols: seq<Header>): (st: Status)
    requires AllWellFormed(cols)
    ensures st.Success? <==> Describable(cols)
  {
    StatusFrom(cols, 0)
  }

  /** One step of the walk over the columns, `done` being the descriptions made so far. */
  lemma LayoutStep(cols: seq<Header>, k: nat, offset: int, done: seq<ColumnInfo>)
    requires AllWellFormed(cols) && k < |cols|
    ensures match Describe(cols[k], k + 1, offset)
            case Failure(e) =>
              done + LayoutFrom(cols, k, offset) == done && StatusFrom(cols, k) == Failure(e)
            case Success(ci) =>
              && done + LayoutFrom(cols, k, offset) == done + [ci] + LayoutFrom(cols, k + 1, offset + ci.nbytes)
              && StatusFrom(cols, k) == StatusFrom(cols, k + 1)
  {
    hide InitBytes, InitExtent, FormOf, ReadTdim, WellFormed;
    match Describe(cols[k], k + 1, offset)
    case Failure(_) =>
      assert LayoutFrom(cols, k, offset) == [];
    case Success(ci) =>
      var rest := LayoutFrom(cols, k + 1, offset + ci.nbytes);
      assert LayoutFrom(cols, k, offset) == [ci] + rest;
      Associative(done, [ci], rest);
  }

  lemma Associative(a: seq<ColumnInfo>, b: seq<ColumnInfo>, c: seq<ColumnInfo>)
    ensures a + (b + c) == a + b + c
  {
  }

  /** The sum of the cached byte counts of the first k columns. */
  function InitSum(cols: seq<Header>, k: nat): int
    requires AllWellFormed(cols) && Describable(cols) && k <= |cols|
  {
    if k == 0 then 0 else InitSum(cols, k - 1) + InitBytes(cols[k - 1])
  }

  /** The length of the first k cells of a row in the file. */
  function RowBytes(cols: seq<Header>, k: nat): nat
    requires AllWellFormed(cols) && k <= |cols|
  {
    if k == 0 then 0 else RowBytes(cols, k - 1) + CellBytes(cols[k - 1])
  }

  lemma {:induction false} LayoutFromAt(cols: seq<Header>, k: nat, j: nat)
    requires AllWellFormed(cols) && Describable(cols) && k <= j <= |cols|
    ensures var cis := LayoutFrom(cols, k, 1 + InitSum(cols, k));
            && |cis| == |cols| - k
            && (j < |cols| ==> Success(cis[j - k]) == Describe(cols[j], j + 1, 1 + InitSum(cols, j)))
    decreases j - k, |cols| - k
  {
    hide InitBytes, InitExtent, FormOf, ReadTdim, WellFormed;
    if k < |cols| {
      assert InitSum(cols, k + 1) == InitSum(cols, k) + InitBytes(cols[k]);
      LayoutFromAt(cols, k + 1, if k < j then j else k + 1);
    }
  }

  /** Every column is cached in order, numbered from one, at the prefix sum of the byte counts. */
  lemma LayoutAt(cols: seq<Header>, k: nat)
    requires AllWellFormed(cols) && Describable(cols) && k < |cols|
    ensures |Layout(cols)| == |cols|
    ensures Success(Layout(cols)[k]) == Describe(cols[k], k + 1, 1 + InitSum(cols, k))
  {
    hide InitBytes, InitExtent, FormOf, ReadTdim, WellFormed, LayoutFrom;
    LayoutFromAt(cols, 0, k);
  }

  lemma LayoutSize(cols: seq<Header>)
    requires AllWellFormed(cols) && Describable(cols)
    ensures |Layout(cols)| == |cols|
    ensures forall k | 0 <= k < |cols| :: Layout(cols)[k].colnum == k + 1 && Layout(cols)[k].ttype == cols[k].ttype
  {
    hide InitBytes, InitExtent, FormOf, ReadTdim, WellFormed;
    LayoutFromAt(cols, 0, 0);
    forall k | 0 <= k < |cols|
      ensures Layout(cols)[k].colnum == k + 1 && Layout(cols)[k].ttype == cols[k].ttype
    {
      LayoutAt(cols, k);
    }
  }

  ghost predicate AllEven(cols: seq<Header>)
    requires AllWellFormed(cols)
  {
    forall k | 0 <= k < |cols| :: Even(cols[k])
  }

  lemma {:induction false} SumsAgree(cols: seq<Header>, k: nat)
    requires AllWellFormed(cols) && Describable(cols) && k <= |cols|
    ensures 0 <= InitSum(cols, k) <= RowBytes(cols, k)
    ensures InitSum(cols, k) == RowBytes(cols, k) <==> forall j | 0 <= j < k :: Even(cols[j])
  {
    hide InitBytes, CellBytes, Even, ReadTdim, WellFormed;
    if k > 0 {
      SumsAgree(cols, k - 1);
      InitBytesExact(cols[k - 1]);
    }
  }

  /** The cached byte ranges cover the row exactly if and only if every column is even. */
  lemma LayoutTiles(cols: seq<Header>)
    requires AllWellFormed(cols) && Describable(cols)
    ensures InitSum(cols, |cols|) <= RowBytes(cols, |cols|)
    ensures InitSum(cols, |cols|) == RowBytes(cols, |cols|) <==> AllEven(cols)
  {
    SumsAgree(cols, |cols|);
  }

  /** A column is cached at its own bytes in the file's row exactly if all columns in front of it are even. */
  lemma LayoutRange(cols: seq<Header>, k: nat)
    requires AllWellFormed(cols) && Describable(cols) && k < |cols|
    ensures |Layout(cols)| == |cols|
    ensures Layout(cols)[k].offset == 1 + RowBytes(cols, k) <==> forall j | 0 <= j < k :: Even(cols[j])
    ensures Layout(cols)[k].nbytes == CellBytes(cols[k]) <==> Even(cols[k])
  {
    hide InitBytes, InitExtent, CellBytes, Even, FormOf, ReadTdim, WellFormed;
    LayoutAt(cols, k);
    SumsAgree(cols, k);
    InitBytesExact(cols[k]);
  }

  lemma {:induction false} SumPrefix(a: seq<Header>, b: seq<Header>, k: nat)
    requires AllWellFormed(a) && Describable(a) && AllWellFormed(b) && Describable(b)
    requires k <= |a| && k <= |b| && forall j | 0 <= j < k :: a[j] == b[j]
    ensures InitSum(a, k) == InitSum(b, k)
  {
    hide InitBytes, InitExtent, FormOf, ReadTdim, WellFormed;
    if k > 0 {
      SumPrefix(a, b, k - 1);
    }
  }

  /** A description depends only on its own column and those in front of it. */
  lemma LayoutPrefix(a: seq<Header>, b: seq<Header>, k: nat)
    requires AllWellFormed(a) && Describable(a) && AllWellFormed(b) && Describable(b)
    requires k < |a| && k < |b| && forall j | 0 <= j <= k :: a[j] == b[j]
    ensures |Layout(a)| == |a| && |Layout(b)| == |b|
    ensures Layout(a)[k] == Layout(b)[k]
  {
    hide InitBytes, InitExtent, FormOf, ReadTdim, WellFormed;
    LayoutAt(a, k);
    LayoutAt(b, k);
    SumPrefix(a, b, k);
  }

  /** A column appended to a table leaves the description of every other column as it was. */
  lemma LayoutAppend(cols: seq<Header>, more: seq<Header>)
    requires AllWellFormed(cols + more) && Describable(cols + more)
    ensures AllWellFormed(cols) && Describable(cols)
    ensures Layout(cols) <= Layout(cols + more)
  {
    hide InitBytes, InitExtent, FormOf, ReadTdim, WellFormed;
    assert AllWellFormed(cols) && Describable(cols) by {
      assert forall k | 0 <= k < |cols| :: cols[k] == (cols + more)[k];
    }
    LayoutFromAt(cols, 0, 0);
    LayoutFromAt(cols + more, 0, 0);
    forall k | 0 <= k < |cols|
      ensures Layout(cols)[k] == Layout(cols + more)[k]
    {
      LayoutPrefix(cols, cols + more, k);
    }
  }
}
