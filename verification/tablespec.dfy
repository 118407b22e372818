/** What the mutators of misfits/table.cc do to a table and to the cache of its column descriptions.
    The current HDU does not occur here. */
module TableSpecs {
  import opened Results
  import opened Numerals
  import opened Extents
  import opened Columns
  import opened Stores

  /** A table in its file, and Table::columns. */
  datatype State = State(data: TableData, cache: seq<ColumnInfo>)

  /** The cache says what the header says. */
  ghost predicate Coherent(s: State) {
    Sound(s.data) && Describable(s.data.cols) && s.cache == Layout(s.data.cols)
  }

  /** A table that can be refreshed, whatever its cache says. */
  ghost predicate Legible(s: State) {
    Sound(s.data) && Describable(s.data.cols)
  }

  /** The weaker promise that outlives delete_column(name): entries are numbered in order, and there is
      one at least for each column. */
  ghost predicate Numbered(s: State) {
    |s.cache| >= |s.data.cols| && InOrder(s)
  }

  ghost predicate InOrder(s: State) {
    forall k | 0 <= k < |s.cache| :: s.cache[k].colnum == k + 1
  }

  lemma CoherentNumbered(s: State)
    requires Coherent(s)
    ensures Numbered(s) && |s.cache| == |s.data.cols|
  {
    LayoutSize(s.data.cols);
  }

  /** Table::refresh. */
  function Refreshed(t: TableData): (State, Status)
    requires Sound(t)
  {
    (State(t, Layout(t.cols)), LayoutStatus(t.cols))
  }

  lemma UsableCount(e: Extent)
    requires Usable(e)
    ensures 1 <= Nelem(e) == Product(e) < INT_LIMIT
  {
    NelemExact(e);
    ProductPositive(e);
  }

  /** The header fits_insert_col creates, before TDIM is written. */
  function PlainHeader(ci: ColumnInfo): (h: Header)
    requires Usable(ci.extent)
    ensures WellFormed(h) && FormOf(h).repeat == Product(ci.extent)
  {
    TformRoundTrip(ci);
    ProductPositive(ci.extent);
    Header(ci.ttype, TformText(ci), None)
  }

  /** ColumnInfo::insert: CFITSIO appends the column when the number is beyond the last one. */
  function Inserted(t: TableData, ci: ColumnInfo): (r: (TableData, Status))
    requires Sound(t) && Usable(ci.extent)
    ensures Sound(r.0)
  {
    if ci.colnum < 1 then (t, Failure(BadColumnNumber))
    else
      var pos := if ci.colnum - 1 <= |t.cols| then ci.colnum - 1 else |t.cols|;
      var t1 := InsertCol(t, pos, PlainHeader(ci));
      if |Squeeze(ci.extent)| > 1 then
        match WriteTdim(t1, ci.colnum, ci.extent)
        case Failure(e) => (t1, Failure(e))
        case Success(t2) => (t2, Success(()))
      else (t1, Success(()))
  }

  function NumberedInfo(t: TableData, ci: ColumnInfo): ColumnInfo {
    if ci.colnum == 0 then ci.(colnum := |t.cols| + 1) else ci
  }

  /** Table::add. */
  function Add(s: State, ci: ColumnInfo): (State, Status)
    requires Sound(s.data) && Usable(ci.extent)
  {
    var (t, st) := Inserted(s.data, NumberedInfo(s.data, ci));
    if st.Failure? then (State(t, s.cache), st) else Refreshed(t)
  }

  /** Table::resize by number. */
  function Resize(s: State, colnum: int, e: Extent, rule: SuffixRule): (State, Status)
    requires Sound(s.data) && Usable(e)
  {
    UsableCount(e);
    if !(1 <= colnum <= |s.cache|) then (s, Failure(OutOfRange))
    else if Same(s.cache[colnum - 1].extent, e) then (s, Success(()))
    else match ModifyLength(s.data, colnum, Nelem(e), rule)
         case Failure(err) => (s, Failure(err))
         case Success(t) =>
           Refreshed(PutTdim(t, colnum - 1, if |Squeeze(e)| == 1 then None else Some(TdimText(e))))
  }

  /** Table::colinfo by name. */
  function Colinfo(s: State, name: string): Result<ColumnInfo> {
    match FindCol(s.data.cols, name)
    case Failure(e) => Failure(e)
    case Success(k) => if k < |s.cache| then Success(s.cache[k]) else Failure(OutOfRange)
  }

  /** Table::resize by name. */
  function ResizeNamed(s: State, name: string, e: Extent, rule: SuffixRule): (State, Status)
    requires Sound(s.data) && Usable(e)
  {
    match Colinfo(s, name)
    case Failure(err) => (s, Failure(err))
    case Success(ci) => Resize(s, ci.colnum, e, rule)
  }

  /** Table::delete_column by number. */
  function Delete(s: State, colnum: int): (State, Status)
    requires Sound(s.data)
  {
    match DeleteCol(s.data, colnum)
    case Failure(e) => (s, Failure(e))
    case Success(t) => Refreshed(t)
  }

  /** Table::delete_column by name, which does not refresh the cache. */
  function DeleteNamed(s: State, name: string): (r: (State, Status))
    requires Sound(s.data)
    ensures Sound(r.0.data)
  {
    match Colinfo(s, name)
    case Failure(e) => (s, Failure(e))
    case Success(ci) =>
      match DeleteCol(s.data, ci.colnum)
      case Failure(e) => (s, Failure(e))
      case Success(t) => (State(t, s.cache), Success(()))
  }

  // ------------------------------------------------------------------------------------------
  // Cache coherence

  lemma RefreshedCoherent(t: TableData)
    requires Sound(t) && Describable(t.cols)
    ensures Coherent(Refreshed(t).0) && Refreshed(t).1.Success?
  {
  }

  lemma DescribableInsert(cols: seq<Header>, pos: nat, h: Header)
    requires AllWellFormed(cols) && Describable(cols) && pos <= |cols|
    requires WellFormed(h) && ReadTdim(h).Success?
    ensures AllWellFormed(InsertAt(cols, pos, h)) && Describable(InsertAt(cols, pos, h))
  {
  }

  function InsertPos(t: TableData, colnum: nat): (pos: nat)
    requires colnum >= 1
    ensures pos <= |t.cols|
  {
    if colnum - 1 <= |t.cols| then colnum - 1 else |t.cols|
  }

  lemma InsertedOutcome(t: TableData, ci: ColumnInfo)
    requires Sound(t) && Usable(ci.extent) && ci.colnum >= 1
    ensures var (t', st) := Inserted(t, ci);
            && (st.Success? <==> |Squeeze(ci.extent)| <= 1 || ci.colnum <= |t.cols| + 1)
            && (st.Success? ==> t'.cols == InsertAt(t.cols, InsertPos(t, ci.colnum), InsertedHeader(ci)))
            && (st.Failure? ==> t'.cols == t.cols + [PlainHeader(ci)])
  {
    var pos := InsertPos(t, ci.colnum);
    var t1 := InsertCol(t, pos, PlainHeader(ci));
    SqueezeNonEmpty(ci.extent);
    if |Squeeze(ci.extent)| > 1 {
      if ci.colnum <= |t.cols| + 1 {
        assert t1.cols[pos] == PlainHeader(ci);
        assert t1.cols[pos := InsertedHeader(ci)] == InsertAt(t.cols, pos, InsertedHeader(ci));
      } else {
        assert t1.cols == t.cols + [PlainHeader(ci)];
      }
    }
  }

  lemma PlainReads(ci: ColumnInfo)
    requires Usable(ci.extent)
    ensures ReadTdim(PlainHeader(ci)).Success?
  {
  }

  /** Adding to a table, with any cache, ends coherent, with the described column in its place. It fails only for
      a many-dimensional column whose number is beyond the end by more than one: then the column has been
      appended without its shape, and the cache is as it was. */
  lemma AddOutcome(s: State, ci: ColumnInfo)
    requires Legible(s) && Usable(ci.extent)
    ensures var n := |s.data.cols|;
            var colnum := if ci.colnum == 0 then n + 1 else ci.colnum;
            var pos := InsertPos(s.data, colnum);
            var (s', st) := Add(s, ci);
            && (st.Success? <==> |Squeeze(ci.extent)| <= 1 || colnum <= n + 1)
            && (st.Success? ==>
                  && Coherent(s') && |s'.cache| == n + 1
                  && s'.data.cols == InsertAt(s.data.cols, pos, InsertedHeader(ci))
                  && Equal(s'.cache[pos], ci) && s'.cache[pos].colnum == pos + 1)
            && (st.Failure? ==>
                  && s'.cache == s.cache && Legible(s')
                  && s'.data.cols == s.data.cols + [PlainHeader(ci)])
  {
    var ci' := NumberedInfo(s.data, ci);
    var pos := InsertPos(s.data, ci'.colnum);
    assert InsertedHeader(ci') == InsertedHeader(ci) && PlainHeader(ci') == PlainHeader(ci);
    InsertedOutcome(s.data, ci');
    InsertDescribed(s.data.cols, pos, ci);
    var (t, st) := Inserted(s.data, ci');
    if st.Success? {
      RefreshedCoherent(t);
    } else {
      PlainReads(ci);
      assert forall k | 0 <= k < |t.cols| :: ReadTdim(t.cols[k]).Success?;
    }
  }

  /** A two by two column added to a table with the number after the next one. */
  lemma AddBeyondEnd(s: State)
    requires Coherent(s)
    ensures var ci := UserInfo("x", TLong, [2, 2], |s.data.cols| + 2);
            && Usable(ci.extent)
            && Add(s, ci).1.Failure? && !Coherent(Add(s, ci).0)
  {
    var ci := UserInfo("x", TLong, [2, 2], |s.data.cols| + 2);
    TwoAxes(2, 2);
    assert [2, 2][1..] == [2] && [2][1..] == [];
    assert Squeeze([2]) == [2] && Squeeze([2, 2]) == [2, 2];
    AddOutcome(s, ci);
    CoherentNumbered(s);
    var s' := Add(s, ci).0;
    if Coherent(s') {
      CoherentNumbered(s');
    }
  }

  lemma InsertDescribed(cols: seq<Header>, pos: nat, ci: ColumnInfo)
    requires AllWellFormed(cols) && Describable(cols) && pos <= |cols| && Usable(ci.extent)
    ensures var cols' := InsertAt(cols, pos, InsertedHeader(ci));
            && AllWellFormed(cols') && Describable(cols') && |Layout(cols')| == |cols| + 1
            && Equal(Layout(cols')[pos], ci) && Layout(cols')[pos].colnum == pos + 1
  {
    hide InitExtent, InitBytes, ReadTdim, WellFormed, FormOf, InsertedHeader, Nelem, SpecWidth, CellBytes;
    var cols' := InsertAt(cols, pos, InsertedHeader(ci));
    DescriptionRoundTrip(ci, pos + 1, 0);
    DescribableInsert(cols, pos, InsertedHeader(ci));
    var offset := 1 + InitSum(cols', pos);
    LayoutAt(cols', pos);
    DescriptionRoundTrip(ci, pos + 1, offset);
  }

  /** Appending keeps the number, the offset and the shape of every column that was there. */
  lemma AppendKeepsLayout(s: State, ci: ColumnInfo)
    requires Coherent(s) && Usable(ci.extent) && ci.colnum == 0
    ensures var (s', st) := Add(s, ci);
            st.Success? && s.cache <= s'.cache && |s'.cache| == |s.cache| + 1
  {
    AddOutcome(s, ci);
    var (s', st) := Add(s, ci);
    CoherentNumbered(s);
    CoherentNumbered(s');
    assert s'.data.cols == s.data.cols + [InsertedHeader(ci)];
    LayoutAppend(s.data.cols, [InsertedHeader(ci)]);
  }

  lemma DescribableRemove(cols: seq<Header>, pos: nat)
    requires AllWellFormed(cols) && Describable(cols) && pos < |cols|
    ensures AllWellFormed(RemoveAt(cols, pos)) && Describable(RemoveAt(cols, pos))
  {
  }

  /** Deleting by number, with any cache, either refuses a number that no column has, or ends coherent. */
  lemma DeleteOutcome(s: State, colnum: int)
    requires Legible(s)
    ensures var (s', st) := Delete(s, colnum);
            && (st.Success? <==> 1 <= colnum <= |s.data.cols|)
            && (st.Failure? ==> s' == s)
            && (st.Success? ==> Coherent(s') && s'.data.cols == RemoveAt(s.data.cols, colnum - 1))
  {
    if 1 <= colnum <= |s.data.cols| {
      DescribableRemove(s.data.cols, colnum - 1);
      assert LayoutStatus(RemoveAt(s.data.cols, colnum - 1)).Success?;
    }
  }

  /** Deleting by name, on a cache however stale, removes exactly the column of that name. It fails exactly if
      there is no single one, or if the cache ends in front of it. The entries stay in order, as the next
      deletion needs them, and if there were enough of them, there still are. */
  lemma DeleteNamedOutcome(s: State, name: string)
    requires Sound(s.data) && InOrder(s)
    ensures var (s', st) := DeleteNamed(s, name);
            && InOrder(s') && s'.cache == s.cache && (Numbered(s) ==> Numbered(s'))
            && (st.Success? <==> Has(s.data.cols, name) && FindCol(s.data.cols, name).value < |s.cache|)
            && (st.Success? ==>
                  var k := FindCol(s.data.cols, name).value;
                  && DeleteCol(s.data, k + 1) == Success(s'.data)
                  && s'.data.cols == RemoveAt(s.data.cols, k)
                  && FindCol(s'.data.cols, name) == Failure(ColumnNotFound))
            && (st.Failure? ==> s' == s)
  {
    hide CellBytes, WellFormed, FindCol, RowOk, Matches;
    var (s', st) := DeleteNamed(s, name);
    if st.Success? {
      var k := FindCol(s.data.cols, name).value;
      FindColFacts(s.data.cols, name);
      assert forall j | 0 <= j < |s'.data.cols| ::
          s'.data.cols[j] == if j < k then s.data.cols[j] else s.data.cols[j + 1];
      FindColNone(s'.data.cols, name);
    }
  }

  /** After a deletion by name the cache still describes the columns in front of the deleted one, and
      names the wrong column for each one behind it. */
  lemma StaleAfterDeleteNamed(s: State, name: string, j: nat)
    requires Coherent(s) && Has(s.data.cols, name)
    requires j < |s.data.cols| - 1
    ensures var k := FindCol(s.data.cols, name).value;
            var s' := DeleteNamed(s, name).0;
            && |s'.cache| == |s.data.cols| && Describable(s'.data.cols) && |Layout(s'.data.cols)| == |s'.data.cols| > j
            && (j < k ==> s'.cache[j] == Layout(s'.data.cols)[j])
            && (j >= k ==> s'.cache[j].ttype == s.data.cols[j].ttype && s'.data.cols[j] == s.data.cols[j + 1])
  {
    hide InitExtent, InitBytes, ReadTdim, WellFormed, FormOf, FindCol, DeleteCol, DeleteNamed;
    CoherentNumbered(s);
    DeleteNamedOutcome(s, name);
    var k := FindCol(s.data.cols, name).value;
    DescribableRemove(s.data.cols, k);
    LayoutSize(s.data.cols);
    LayoutSize(RemoveAt(s.data.cols, k));
    if j < k {
      LayoutPrefix(s.data.cols, RemoveAt(s.data.cols, k), j);
    }
  }

  // ------------------------------------------------------------------------------------------
  // resize

  /** The header resize leaves when the shape changes. */
  function Resized(h: Header, e: Extent, rule: SuffixRule): (r: Header)
    requires WellFormed(h) && Usable(e)
    ensures WellFormed(r)
  {
    UsableCount(e);
    RelengthForm(h, Product(e), rule);
    Relength(h, Product(e), rule).(tdim := if |Squeeze(e)| == 1 then None else Some(TdimText(e)))
  }

  /** A width suffix that a changed one-axis shape collides with. */
  predicate SuffixInTheWay(h: Header, e: Extent, rule: SuffixRule)
    requires WellFormed(h)
  {
    var f := FormOf(h);
    f.id == TString && f.suffix.Some? && |Squeeze(e)| == 1 && SuffixKept(h, Product(e), rule)
    && 1 < f.suffix.value < Product(e)
  }

  /** The shape read back after a change is the one asked for, exactly when no width suffix gets in the way. */
  lemma ResizedShape(h: Header, e: Extent, rule: SuffixRule)
    requires WellFormed(h) && Usable(e)
    ensures var r := Resized(h, e, rule);
            && ReadTdim(r).Success? && r.ttype == h.ttype
            && FormOf(r).id == FormOf(h).id && FormOf(r).repeat == Product(e)
            && (|Squeeze(e)| == 1 ==> r.tdim == None)
            && (|Squeeze(e)| != 1 ==> r.tdim.Some? && ReadTdim(r) == Success(e))
            && (Same(InitExtent(r), e) <==> !SuffixInTheWay(h, e, rule))
  {
    hide ParseTform, ParseTdim, TdimText, Relength;
    var r, f, n := Resized(h, e, rule), FormOf(h), Product(e);
    UsableCount(e);
    RelengthName(h, n, rule);
    RelengthForm(h, n, rule);
    assert FormOf(r) == f.(repeat := n, suffix := if SuffixKept(h, n, rule) then f.suffix else None);
    if |Squeeze(e)| == 1 {
      SqueezedLine(e);
      LineShape(r, e);
    } else {
      TdimRoundTrip(e);
      assert ReadTdim(r) == Success(e);
      if f.id == TString && |e| == 1 {
        SqueezedUnit(e);
        LineProduct(e);
        assert n == 1 && ReportedWidth(r) == 1;
        assert InitExtent(r) == [1, 1];
        assert Squeeze([1, 1]) == Squeeze([1]);
      }
    }
  }

  lemma RelengthName(h: Header, n: nat, rule: SuffixRule)
    requires WellFormed(h)
    ensures Relength(h, n, rule).ttype == h.ttype
  {
  }

  lemma SqueezedUnit(e: Extent)
    requires |e| == 1 && |Squeeze(e)| != 1
    ensures e == [1]
  {
  }

  lemma LineShape(r: Header, e: Extent)
    requires WellFormed(r) && r.tdim == None && Usable(e)
    requires |Squeeze(e)| == 1 && FormOf(r).repeat == Product(e)
    ensures var f, n := FormOf(r), Product(e);
            Same(InitExtent(r), e) <==>
              !(f.id == TString && f.suffix.Some? && 1 < f.suffix.value < n)
  {
    hide WellFormed, FormOf, TdimText;
    var f, n := FormOf(r), Product(e);
    SqueezeProduct(e);
    var d := Squeeze(e)[0];
    assert Squeeze(e) == [d] && d in Squeeze(e);
    SqueezeDropsOnes(e);
    LineProduct([d]);
    assert d == n != 1;
    if f.id == TString {
      var w := ReportedWidth(r);
      assert InitExtent(r) == [w, n / w];
      PairShape(w, n);
    } else {
      assert InitExtent(r) == [n];
    }
  }

  lemma PairShape(w: nat, n: nat)
    requires w >= 1 && n >= 2
    ensures Squeeze([w, n / w]) == [n] <==> w == 1 || w == n
  {
    var q := n / w;
    Multiple(n, w);
    assert [w, q][1..] == [q] && [q][1..] == [];
    assert Squeeze([w, q]) == (if w == 1 then Squeeze([q]) else [w] + Squeeze([q]));
    assert Squeeze([q]) == if q == 1 then [] else [q];
    if w == 1 {
      assert q == n;
    } else {
      assert Squeeze([w, q])[0] == w;
    }
  }

  /** The resize of a column that the cache takes for another shape. */
  lemma ResizeRefreshes(s: State, colnum: int, e: Extent, rule: SuffixRule)
    requires Legible(s) && Usable(e) && 1 <= colnum <= |s.data.cols|
    requires colnum <= |s.cache| && !Same(s.cache[colnum - 1].extent, e)
    ensures var cols := s.data.cols[colnum - 1 := Resized(s.data.cols[colnum - 1], e, rule)];
            var (s', st) := Resize(s, colnum, e, rule);
            && st.Success? && Coherent(s') && s'.data.cols == cols && |s'.cache| == |cols|
            && AllWellFormed(cols) && Describable(cols)
  {
    hide InitExtent, InitBytes, ReadTdim, WellFormed, FormOf;
    var h := s.data.cols[colnum - 1];
    UsableCount(e);
    ResizedShape(h, e, rule);
    var t := ModifyLength(s.data, colnum, Nelem(e), rule).value;
    var t' := PutTdim(t, colnum - 1, if |Squeeze(e)| == 1 then None else Some(TdimText(e)));
    assert t'.cols == s.data.cols[colnum - 1 := Resized(h, e, rule)];
    RefreshedCoherent(t');
    CoherentNumbered(Refreshed(t').0);
  }

  /** What resize does with any cache. A number that the cache does not have is out of range. If the cached shape
      is the one asked for, nothing happens. A number that the cache has and the table does not is refused by
      CFITSIO. Else the header of the column is rewritten, with a TDIM exactly when the squeezed shape does not
      have one axis, and the table ends coherent.

      So the request is met, up to ones, exactly under this condition: if the cached shape is the one asked for,
      then so is the column's own; else no width suffix gets in the way. */
  lemma ResizeExactly(s: State, colnum: int, e: Extent, rule: SuffixRule)
    requires Legible(s) && Usable(e)
    ensures var (s', st) := Resize(s, colnum, e, rule);
            if !(1 <= colnum <= |s.cache|) then s' == s && st == Failure(OutOfRange)
            else if Same(s.cache[colnum - 1].extent, e) then s' == s && st == Success(())
            else if colnum > |s.data.cols| then s' == s && st == Failure(BadColumnNumber)
            else
              && st.Success? && Coherent(s') && |s'.cache| == |s.data.cols|
              && s'.data.cols == s.data.cols[colnum - 1 := Resized(s.data.cols[colnum - 1], e, rule)]
              && (s'.data.cols[colnum - 1].tdim == None <==> |Squeeze(e)| == 1)
    ensures var s' := Resize(s, colnum, e, rule).0;
            1 <= colnum <= |s.data.cols| && colnum <= |s.cache| ==>
              && Legible(s') && |Layout(s'.data.cols)| == |s'.data.cols| == |s.data.cols| == |Layout(s.data.cols)|
              && (Same(Layout(s'.data.cols)[colnum - 1].extent, e) <==>
                    if Same(s.cache[colnum - 1].extent, e) then Same(Layout(s.data.cols)[colnum - 1].extent, e)
                    else !SuffixInTheWay(s.data.cols[colnum - 1], e, rule))
  {
    hide InitExtent, InitBytes, ReadTdim, ParseTform, WellFormed, Nelem, Product, Relength, Resized, SuffixInTheWay,
         Squeeze, Layout;
    LayoutSize(s.data.cols);
    if 1 <= colnum <= |s.data.cols| && colnum <= |s.cache| && !Same(s.cache[colnum - 1].extent, e) {
      var k := colnum - 1;
      var cols := s.data.cols[k := Resized(s.data.cols[k], e, rule)];
      ResizedShape(s.data.cols[k], e, rule);
      ResizeRefreshes(s, colnum, e, rule);
      LayoutAt(cols, k);
    }
  }

  /** On a coherent table resize therefore meets its request unless a width suffix gets in the way. */
  lemma ResizeOutcome(s: State, colnum: int, e: Extent, rule: SuffixRule)
    requires Coherent(s) && Usable(e)
    requires 1 <= colnum <= |s.data.cols|
    ensures |s.cache| == |s.data.cols|
    ensures var (s', st) := Resize(s, colnum, e, rule);
            && st.Success? && Coherent(s') && |s'.cache| == |s.data.cols|
            && (Same(s'.cache[colnum - 1].extent, e) <==>
                  Same(s.cache[colnum - 1].extent, e) || !SuffixInTheWay(s.data.cols[colnum - 1], e, rule))
  {
    hide Resize, Layout, SuffixInTheWay, Squeeze, Resized;
    CoherentNumbered(s);
    ResizeExactly(s, colnum, e, rule);
  }

  /** After a deletion by name resize does not meet a request for the shape in the entry behind the deleted
      column, unless the column's own shape, which is in the next entry, is the same. */
  lemma StaleResizeSkips(s: State, name: string, j: nat, e: Extent, rule: SuffixRule)
    requires Coherent(s) && Has(s.data.cols, name) && Usable(e)
    requires FindCol(s.data.cols, name).value <= j < |s.data.cols| - 1
    requires |s.cache| == |s.data.cols| && Same(s.cache[j].extent, e)
    ensures var s' := DeleteNamed(s, name).0;
            && Resize(s', j + 1, e, rule) == (s', Success(()))
            && Describable(s'.data.cols) && |Layout(s'.data.cols)| == |s'.data.cols| == |s.data.cols| - 1
            && (Same(Layout(s'.data.cols)[j].extent, e) <==> Same(s.cache[j + 1].extent, e))
  {
    hide InitExtent, InitBytes, ReadTdim, WellFormed, FormOf, FindCol, DeleteNamed, DeleteCol;
    StaleAfterDeleteNamed(s, name, j);
    CoherentNumbered(s);
    DeleteNamedOutcome(s, name);
    ResizeExactly(DeleteNamed(s, name).0, j + 1, e, rule);
    LayoutAt(s.data.cols, j + 1);
    LayoutAt(DeleteNamed(s, name).0.data.cols, j);
  }

  /** Whatever the cache, the other columns keep their descriptions, but for offsets, which move by the bytes
      gained or lost. */
  lemma ResizeKeepsOthers(s: State, colnum: int, e: Extent, rule: SuffixRule, j: nat)
    requires Legible(s) && Usable(e)
    requires 1 <= colnum <= |s.data.cols| && j < |s.data.cols| && j != colnum - 1
    ensures var s' := Resize(s, colnum, e, rule).0;
            && Legible(s') && |Layout(s.data.cols)| == |Layout(s'.data.cols)| == |s.data.cols|
            && var a, b := Layout(s.data.cols), Layout(s'.data.cols);
               && b[j] == a[j].(offset := b[j].offset)
               && b[j].offset - a[j].offset == if j < colnum - 1 then 0 else b[colnum - 1].nbytes - a[colnum - 1].nbytes
  {
    hide InitExtent, InitBytes, ReadTdim, WellFormed, FormOf;
    var k := colnum - 1;
    LayoutSize(s.data.cols);
    if colnum <= |s.cache| && !Same(s.cache[k].extent, e) {
      var h := Resized(s.data.cols[k], e, rule);
      var cols := s.data.cols[k := h];
      ResizeRefreshes(s, colnum, e, rule);
      assert h == cols[k];
      LayoutAfterUpdate(s.data.cols, k, h, j);
    }
  }

  lemma LayoutAfterUpdate(cols: seq<Header>, k: nat, h: Header, j: nat)
    requires k < |cols| && j < |cols| && j != k && WellFormed(h) && ReadTdim(h).Success?
    requires AllWellFormed(cols) && Describable(cols)
    ensures var cols' := cols[k := h];
            && AllWellFormed(cols') && Describable(cols') && |Layout(cols)| == |Layout(cols')| == |cols|
            && var a, b := Layout(cols), Layout(cols');
               && b[j] == a[j].(offset := b[j].offset)
               && b[j].offset - a[j].offset == if j < k then 0 else b[k].nbytes - a[k].nbytes
  {
    hide InitExtent, InitBytes, ReadTdim, WellFormed, FormOf;
    var cols' := cols[k := h];
    SumAfterUpdate(cols, k, h, j);
    LayoutAt(cols, j);
    LayoutAt(cols', j);
    LayoutAt(cols, k);
    LayoutAt(cols', k);
  }

  lemma {:induction false} SumAfterUpdate(cols: seq<Header>, k: nat, h: Header, j: nat)
    requires k < |cols| && j <= |cols| && WellFormed(h) && ReadTdim(h).Success?
    requires AllWellFormed(cols) && Describable(cols)
    ensures AllWellFormed(cols[k := h]) && Describable(cols[k := h])
    ensures InitSum(cols[k := h], j) - InitSum(cols, j) == if j <= k then 0 else InitBytes(h) - InitBytes(cols[k])
  {
    hide InitBytes, ReadTdim, WellFormed;
    if j > 0 {
      SumAfterUpdate(cols, k, h, j - 1);
    }
  }

  /** What resize by name does to a table whose entries are in order. If the name is that of exactly one column, which
      the cache reaches, and the cached shape is not the one asked for, then this column's header is rewritten and the
      table ends coherent; if the cached shape is the one asked for, nothing happens. If no column has the name, or
      several have, or the cache ends in front of the one that has it, the call fails, and nothing happens either.

      The request is met under the same condition as by number. */
  lemma ResizeNamedExactly(s: State, name: string, e: Extent, rule: SuffixRule)
    requires Legible(s) && InOrder(s) && Usable(e)
    ensures var (s', st) := ResizeNamed(s, name, e, rule);
            var found := FindCol(s.data.cols, name);
            if found.Failure? then s' == s && st == Failure(found.error)
            else if found.value >= |s.cache| then s' == s && st == Failure(OutOfRange)
            else if Same(s.cache[found.value].extent, e) then s' == s && st == Success(())
            else
              && st.Success? && Coherent(s') && |s'.cache| == |s.data.cols|
              && s'.data.cols == s.data.cols[found.value := Resized(s.data.cols[found.value], e, rule)]
              && (s'.data.cols[found.value].tdim == None <==> |Squeeze(e)| == 1)
    ensures var s' := ResizeNamed(s, name, e, rule).0;
            forall k | 0 <= k < |s.cache| && FindCol(s.data.cols, name) == Success(k) ::
              && Legible(s') && |Layout(s'.data.cols)| == |s'.data.cols| == |s.data.cols| == |Layout(s.data.cols)|
              && (Same(Layout(s'.data.cols)[k].extent, e) <==>
                    if Same(s.cache[k].extent, e) then Same(Layout(s.data.cols)[k].extent, e)
                    else !SuffixInTheWay(s.data.cols[k], e, rule))
  {
    hide Resize, Layout, SuffixInTheWay, Squeeze, Resized, FindCol, InitExtent, InitBytes, ReadTdim, Product;
    var found := FindCol(s.data.cols, name);
    if found.Success? && found.value < |s.cache| {
      assert s.cache[found.value].colnum == found.value + 1;
      ResizeExactly(s, found.value + 1, e, rule);
    }
  }

  // ------------------------------------------------------------------------------------------
  // What the mutators do to the cells

  /** Adding leaves every cell of every other column as it was. The new column's cells are zero; it stands where its
      number says, or at the end. */
  lemma AddCells(s: State, ci: ColumnInfo)
    requires Sound(s.data) && Usable(ci.extent)
    ensures var t, t' := s.data, Add(s, ci).0.data;
            var pos := if ci.colnum == 0 || ci.colnum > |t.cols| then |t.cols| else ci.colnum - 1;
            && |t'.cols| == |t.cols| + 1 && |t'.rows| == |t.rows| && Sound(t')
            && forall r, k | 0 <= r < |t.rows| && 0 <= k <= |t.cols| ::
                 && k < |t'.rows[r]| && |t.rows[r]| == |t.cols|
                 && (k == pos ==> forall i | 0 <= i < |t'.rows[r][k]| :: t'.rows[r][k][i] == 0)
                 && (k != pos ==> t'.rows[r][k] == t.rows[r][if k < pos then k else k - 1])
  {
    hide PlainHeader, WriteTdim, CellBytes, WellFormed, Layout, LayoutStatus;
    var ci' := NumberedInfo(s.data, ci);
    var pos := InsertPos(s.data, ci'.colnum);
    InsertColCells(s.data, pos, PlainHeader(ci'));
    WriteTdimKeepsRows(InsertCol(s.data, pos, PlainHeader(ci')), ci'.colnum, ci'.extent);
  }

  lemma WriteTdimKeepsRows(t: TableData, colnum: int, e: Extent)
    requires Sound(t) && e != []
    ensures var r := WriteTdim(t, colnum, e);
            r.Success? ==> r.value.rows == t.rows && |r.value.cols| == |t.cols|
  {
  }

  /** Deleting by number leaves every cell of every other column as it was. */
  lemma DeleteCells(s: State, colnum: int)
    requires Sound(s.data) && 1 <= colnum <= |s.data.cols|
    ensures var t, t' := s.data, Delete(s, colnum).0.data;
            && |t'.cols| == |t.cols| - 1 && |t'.rows| == |t.rows|
            && forall r, k | 0 <= r < |t.rows| && 0 <= k < |t'.cols| ::
                 && k < |t'.rows[r]| && |t.rows[r]| == |t.cols|
                 && t'.rows[r][k] == t.rows[r][if k < colnum - 1 then k else k + 1]
  {
    DeleteColCells(s.data, colnum);
  }

  /** Resizing leaves every cell of every other column as it was. Of its own cells it keeps the bytes that there still
      is room for, and puts zeros behind them. */
  lemma ResizeCells(s: State, colnum: int, e: Extent, rule: SuffixRule)
    requires Legible(s) && Usable(e) && 1 <= colnum <= |s.data.cols| && colnum <= |s.cache|
    requires !Same(s.cache[colnum - 1].extent, e)
    ensures var t, t' := s.data, Resize(s, colnum, e, rule).0.data;
            && |t'.rows| == |t.rows| && Sound(t')
            && forall r, k | 0 <= r < |t.rows| && 0 <= k < |t.cols| ::
                 && k < |t'.rows[r]| && |t.rows[r]| == |t.cols|
                 && (k != colnum - 1 ==> t'.rows[r][k] == t.rows[r][k])
                 && (k == colnum - 1 ==> forall i | 0 <= i < |t'.rows[r][k]| ::
                       t'.rows[r][k][i] == if i < |t.rows[r][k]| then t.rows[r][k][i] else 0)
  {
    hide CellBytes, WellFormed, Layout, LayoutStatus, Relength, FormOf, ReadTdim;
    UsableCount(e);
    RelengthForm(s.data.cols[colnum - 1], Nelem(e), rule);
    ReformCells(s.data, colnum - 1, Relength(s.data.cols[colnum - 1], Nelem(e), rule));
    ResizeRefreshes(s, colnum, e, rule);
  }

  /** A table that cannot be described: refresh fails at the first such column, and leaves the cache with the
      descriptions of those in front of it. */
  lemma RefreshStops(t: TableData, k: nat)
    requires Sound(t) && k < |t.cols| && ReadTdim(t.cols[k]).Failure?
    requires forall j | 0 <= j < k :: ReadTdim(t.cols[j]).Success?
    ensures AllWellFormed(t.cols[..k]) && Describable(t.cols[..k])
    ensures Refreshed(t) == (State(t, Layout(t.cols[..k])), Failure(ReadTdim(t.cols[k]).error))
  {
    StopsFrom(t.cols, 0, k, 1);
  }

  lemma {:induction false} StopsFrom(cols: seq<Header>, i: nat, k: nat, offset: int)
    requires AllWellFormed(cols) && i <= k < |cols| && ReadTdim(cols[k]).Failure?
    requires forall j | 0 <= j < k :: ReadTdim(cols[j]).Success?
    ensures AllWellFormed(cols[..k])
    ensures LayoutFrom(cols, i, offset) == LayoutFrom(cols[..k], i, offset)
    ensures StatusFrom(cols, i) == Failure(ReadTdim(cols[k]).error)
    decreases k - i
  {
    hide InitExtent, InitBytes, ReadTdim, WellFormed, FormOf;
    assert forall j | 0 <= j < k :: cols[..k][j] == cols[j];
    if i < k {
      assert cols[..k][i] == cols[i];
      StopsFrom(cols, i + 1, k, offset + InitBytes(cols[i]));
    }
  }

  /** Resizing to a scalar does write a TDIM, which adding a scalar column does not. */
  lemma ScalarResizeWritesTdim(rule: SuffixRule)
    ensures var h := Header("x", "2J", None);
            WellFormed(h) && Usable([1]) && Resized(h, [1], rule).tdim == Some("(1)")
    ensures forall ci: ColumnInfo | ci.extent == [1] :: InsertedHeader(ci).tdim == None
  {
    var s := "2J";
    assert LeadingDigits("J") == 0;
    assert s[1..] == "J";
    assert LeadingDigits(s) == 1;
    assert s[..1] == "2" && "2"[..0] == "" && Value("2") == 2;
    LineProduct([1]);
    assert Squeeze([1]) == [];
    assert TdimText([1]) == "(1)";
  }

  /** Five strings of twelve (60A12), asked to become 60 characters in a line, stay five strings of twelve,
      unless CFITSIO writes TFORM anew even for a repeat count that stays the same. */
  lemma SuffixSurvivesResize(h: Header, rule: SuffixRule)
    requires WellFormed(h) && FormOf(h) == Form(TString, 60, Some(12)) && h.tdim == None
    ensures ReadTdim(h).Success? && InitExtent(h) == [12, 5] && Usable([60]) && !Same([12, 5], [60])
    ensures rule != DropAlways ==> Resized(h, [60], rule) == h
    ensures rule == DropAlways ==> InitExtent(Resized(h, [60], rule)) == [60, 1]
  {
    LineProduct([60]);
    assert Squeeze([60]) == [60];
    RelengthForm(h, 60, rule);
    PairShape(12, 60);
  }
}
