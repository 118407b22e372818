/** Table::copy_columns of misfits/table.cc, between tables in different files. */
module CopySpecs {
  import opened Results
  import opened Numerals
  import opened Extents
  import opened Columns
  import opened Stores
  import opened TableSpecs

  // ColumnCopy::Flag
  const NO_DUPLICATES: bv8 := 0x01
  const REPLACE: bv8 := 0x02
  const OVER_WRITE: bv8 := 0x03
  const EXTEND_TABLE: bv8 := 0x10
  const EXTEND_TABLE_IF_EMPTY: bv8 := 0x20
  const FLAG_MASK: bv8 := 0x0f

  /** What to do with a column that the destination has already, and when to add rows. */
  datatype Policy = NoDuplicates | Replace | OverWrite | Unknown
  datatype Extension = Never | IfEmpty | Always

  function PolicyOf(how: bv8): Policy {
    if how & FLAG_MASK == NO_DUPLICATES then NoDuplicates
    else if how & FLAG_MASK == REPLACE then Replace
    else if how & FLAG_MASK == OVER_WRITE then OverWrite
    else Unknown
  }

  function ExtensionOf(how: bv8): Extension {
    if how & EXTEND_TABLE != 0 then Always else if how & EXTEND_TABLE_IF_EMPTY != 0 then IfEmpty else Never
  }

  /** What fits_copy_col looks at: type, repeat count and reported width. */
  datatype CellType = CellType(id: TypeId, repeat: nat, width: nat)

  function CellTypeOf(h: Header): CellType
    requires WellFormed(h) && ReadTdim(h).Success?
  {
    CellType(FormOf(h).id, FormOf(h).repeat, ReportedWidth(h))
  }

  function TypeBytes(ct: CellType): nat {
    if ct.id == TBit then (ct.repeat + 7) / 8 else UnitBytes(ct.id) * ct.repeat
  }

  /** The conversions inside fits_copy_col, which are CFITSIO's own: any that give cells of the right length
      and change nothing between equal types. */
  datatype Conversion = Conversion(possible: (CellType, CellType) -> bool, cell: (CellType, CellType, Cell) -> Cell)

  ghost predicate Legal(conv: Conversion) {
    && (forall a, b, c :: |conv.cell(a, b, c)| == TypeBytes(b))
    && (forall a :: conv.possible(a, a))
    && (forall a, c :: |c| == TypeBytes(a) ==> conv.cell(a, a, c) == c)
  }

  lemma TypeBytesAreCellBytes(h: Header)
    requires WellFormed(h) && ReadTdim(h).Success?
    ensures TypeBytes(CellTypeOf(h)) == CellBytes(h)
  {
  }

  function CopiedCell(src: TableData, from: nat, to: Header, conv: Conversion, r: nat): (c: Cell)
    requires Sound(src) && Describable(src.cols) && Legal(conv) && WellFormed(to) && ReadTdim(to).Success?
    requires from < |src.cols| && r < |src.rows|
    ensures |c| == CellBytes(to)
  {
    TypeBytesAreCellBytes(to);
    assert RowOk(src.cols, src.rows[r]);
    conv.cell(CellTypeOf(src.cols[from]), CellTypeOf(to), src.rows[r][from])
  }

  function CopiedRow(src: TableData, from: nat, dst: TableData, to: nat, conv: Conversion, r: nat): (row: RowCells)
    requires Sound(src) && Describable(src.cols) && Sound(dst) && Describable(dst.cols) && Legal(conv)
    requires from < |src.cols| && to < |dst.cols| && r < |dst.rows|
    ensures RowOk(dst.cols, row)
  {
    hide CellBytes, WellFormed, CellTypeOf, ReadTdim, CopiedCell;
    assert RowOk(dst.cols, dst.rows[r]);
    if r < |src.rows| then dst.rows[r][to := CopiedCell(src, from, dst.cols[to], conv, r)] else dst.rows[r]
  }

  /** fits_copy_col: the rows that both tables have. */
  function CopyCol(src: TableData, from: int, dst: TableData, to: int, conv: Conversion): (r: Result<TableData>)
    requires Sound(src) && Describable(src.cols) && Sound(dst) && Describable(dst.cols) && Legal(conv)
    ensures r.Success? ==> Sound(r.value) && r.value.cols == dst.cols && |r.value.rows| == |dst.rows|
  {
    hide CellBytes, WellFormed, CellTypeOf, ReadTdim, CopiedRow, RowOk, Legal;
    if !(1 <= from <= |src.cols|) || !(1 <= to <= |dst.cols|) then Failure(BadColumnNumber)
    else if !conv.possible(CellTypeOf(src.cols[from - 1]), CellTypeOf(dst.cols[to - 1])) then Failure(Inconvertible)
    else
      var rows := seq(|dst.rows|, r requires 0 <= r < |dst.rows| => CopiedRow(src, from - 1, dst, to - 1, conv, r));
      Success(TableData(dst.cols, rows))
  }

  /** The TFORM of any description is legal. */
  lemma TformLegal(ci: ColumnInfo)
    ensures ParseTform(TformText(ci)).Some?
    ensures ParseTform(TformText(ci)).value == Form(ci.id, if Nelem(ci.extent) > 1 then Nelem(ci.extent) else 1, None)
    ensures Nelem(ci.extent) < INT_LIMIT
  {
    var n := Nelem(ci.extent);
    NelemRange(ci.extent, 1);
    CodeRoundTrip(ci.id);
    var digits := if n > 1 then Decimal(n) else "";
    LeadingDigitsOf(digits, [Code(ci.id)]);
    assert TformText(ci)[..|digits|] == digits;
    if n > 1 {
      DecimalValue(n);
    }
  }

  function CreatedHeader(ci: ColumnInfo): (h: Header)
    ensures WellFormed(h) && FormOf(h).id == ci.id && h.tdim == None && h.ttype == ci.ttype
  {
    TformLegal(ci);
    Header(ci.ttype, TformText(ci), None)
  }

  // ------------------------------------------------------------------------------------------

  /** The vectors src_ci and dest_ttype/dest_tform. */
  datatype Plan = Plan(src: seq<ColumnInfo>, created: seq<Header>)

  /** One turn of the planning loop; under Replace it may delete a column of the destination. */
  function PlanOne(s: State, d: State, name: string, how: Policy, p: Plan): (r: (State, Plan, Status))
    requires Sound(d.data) && AllWellFormed(p.created)
    ensures Sound(r.0.data) && AllWellFormed(r.1.created)
  {
    if !Has(s.data.cols, name) then (d, p, Failure(MissingInSource))
    else match Colinfo(s, name)
         case Failure(e) => (d, p, Failure(e))
         case Success(ci) =>
           var p1 := p.(src := p.src + [ci]);
           var p2 := p1.(created := p.created + [CreatedHeader(ci)]);
           if !Has(d.data.cols, name) then (d, p2, Success(()))
           else if how == NoDuplicates then (d, p1, Failure(Duplicate))
           else if how == Replace then
             var (d1, st) := DeleteNamed(d, name);
             if st.Failure? then (d1, p1, st) else (d1, p2, st)
           else if how == OverWrite then (d, p1, Success(()))
           else (d, p1, Failure(UnknownFlag))
  }

  /** The planning loop on the remaining names. */
  function PlanFrom(s: State, d: State, names: seq<string>, how: Policy, p: Plan): (r: (State, Plan, Status))
    requires Sound(d.data) && AllWellFormed(p.created)
    ensures Sound(r.0.data) && AllWellFormed(r.1.created)
    decreases |names|
  {
    if names == [] then (d, p, Success(()))
    else
      var (d1, p1, st) := PlanOne(s, d, names[0], how, p);
      if st.Failure? then (d1, p1, st) else PlanFrom(s, d1, names[1..], how, p1)
  }

  predicate Extends(n: nat, m: nat, ext: Extension) {
    n > m && (ext == Always || (ext == IfEmpty && m == 0))
  }

  /** The table between planning and refreshing: new columns at the end, new rows if the policy says so. */
  function Enlarged(t: TableData, created: seq<Header>, n: nat, ext: Extension): (r: TableData)
    requires Sound(t) && AllWellFormed(created)
    ensures Sound(r)
  {
    var t1 := if created == [] then t else AppendCols(t, created);
    if Extends(n, |t1.rows|, ext) then AppendRows(t1, n - |t1.rows|) else t1
  }

  /** One turn of the copying loop. */
  function CopyOne(src: TableData, d: State, ci: ColumnInfo, conv: Conversion): (r: (State, Status))
    requires Sound(src) && Describable(src.cols) && Sound(d.data) && Describable(d.data.cols) && Legal(conv)
    ensures Sound(r.0.data) && r.0.data.cols == d.data.cols && |r.0.data.rows| == |d.data.rows| && r.0.cache == d.cache
  {
    match Colinfo(d, ci.ttype)
    case Failure(e) => (d, Failure(e))
    case Success(to) =>
      match CopyCol(src, ci.colnum, d.data, to.colnum, conv)
      case Failure(e) => (d, Failure(e))
      case Success(t) => (d.(data := t), Success(()))
  }

  /** The copying loop on the remaining descriptions. */
  function CopyFrom(src: TableData, d: State, cis: seq<ColumnInfo>, conv: Conversion): (r: (State, Status))
    requires Sound(src) && Describable(src.cols) && Sound(d.data) && Describable(d.data.cols) && Legal(conv)
    ensures Sound(r.0.data) && r.0.data.cols == d.data.cols && |r.0.data.rows| == |d.data.rows| && r.0.cache == d.cache
    decreases |cis|
  {
    if cis == [] then (d, Success(()))
    else
      var (d1, st) := CopyOne(src, d, cis[0], conv);
      if st.Failure? then (d1, st) else CopyFrom(src, d1, cis[1..], conv)
  }

  /** Table::copy_columns on a list of names. */
  function CopyColumns(s: State, d: State, names: seq<string>, how: Policy, ext: Extension, conv: Conversion)
    : (r: (State, Status))
    requires Legible(s) && Sound(d.data) && Legal(conv)
    ensures Sound(r.0.data)
  {
    if names == [] then (d, Success(()))
    else
      var (d1, p, st) := PlanFrom(s, d, names, how, Plan([], []));
      if st.Failure? then (d1, st)
      else
        var (d2, st2) := Refreshed(Enlarged(d1.data, p.created, |s.data.rows|, ext));
        if st2.Failure? then (d2, st2) else CopyFrom(s.data, d2, p.src, conv)
  }

  /** The same for the flags of a call. */
  function CopyFlagged(s: State, d: State, names: seq<string>, how: bv8, conv: Conversion): (r: (State, Status))
    requires Legible(s) && Sound(d.data) && Legal(conv)
    ensures Sound(r.0.data)
  {
    CopyColumns(s, d, names, PolicyOf(how), ExtensionOf(how), conv)
  }

  /** The names that the overload without names passes on: those in the cache. */
  function AllNames(s: State): Result<seq<string>> {
    if |s.data.cols| > |s.cache| then Failure(OutOfRange)
    else Success(NamesIn(s.cache[..|s.data.cols|]))
  }

  function NamesIn(cis: seq<ColumnInfo>): (names: seq<string>)
    ensures |names| == |cis| && forall k | 0 <= k < |cis| :: names[k] == cis[k].ttype
  {
    seq(|cis|, k requires 0 <= k < |cis| => cis[k].ttype)
  }

  // ------------------------------------------------------------------------------------------
  // The source

  /** The source column of a name. */
  function Source(s: State, name: string): nat
    requires Has(s.data.cols, name)
  {
    FindCol(s.data.cols, name).value
  }

  /** The source has the name, and its cache an entry for it. */
  predicate Listed(s: State, name: string) {
    Colinfo(s, name).Success?
  }

  /** That entry, which need not be right. */
  function Entry(s: State, name: string): ColumnInfo
    requires Listed(s, name)
  {
    Colinfo(s, name).value
  }

  predicate AllListed(s: State, names: seq<string>) {
    forall i | 0 <= i < |names| :: Listed(s, names[i])
  }

  /** The entry for a name, if there is one, has the number and the name of the column. A caller can see this by
      asking the source for its description of the name. */
  predicate Knows(s: State, name: string) {
    Listed(s, name) ==>
      && Entry(s, name).colnum == Source(s, name) + 1
      && Lower(Entry(s, name).ttype) == Lower(name)
  }

  predicate AllKnown(s: State, names: seq<string>) {
    forall i | 0 <= i < |names| :: Knows(s, names[i])
  }

  /** The entry for a name is the description of the column, as refresh would make it. */
  ghost predicate Describes(s: State, name: string)
    requires Legible(s) && Listed(s, name)
  {
    |Layout(s.data.cols)| == |s.data.cols| && Entry(s, name) == Layout(s.data.cols)[Source(s, name)]
  }

  lemma DescribesKnows(s: State, name: string)
    requires Legible(s) && Listed(s, name) && Describes(s, name)
    ensures Knows(s, name)
  {
    LayoutSize(s.data.cols);
    FindColFacts(s.data.cols, name);
  }

  /** A coherent source has a right entry for every name that it has. */
  lemma CoherentDescribes(s: State, name: string)
    requires Coherent(s)
    ensures Listed(s, name) <==> Has(s.data.cols, name)
    ensures Listed(s, name) ==> Describes(s, name)
    ensures Knows(s, name)
  {
    LayoutSize(s.data.cols);
    FindColFacts(s.data.cols, name);
  }

  /** The entries of the names. */
  function Sources(s: State, names: seq<string>): (cis: seq<ColumnInfo>)
    requires AllListed(s, names)
    ensures |cis| == |names| && forall i | 0 <= i < |names| :: cis[i] == Entry(s, names[i])
  {
    if names == [] then []
    else
      ListedCons(s, names);
      [Entry(s, names[0])] + Sources(s, names[1..])
  }

  lemma ListedCons(s: State, names: seq<string>)
    requires names != []
    ensures AllListed(s, names) <==> Listed(s, names[0]) && AllListed(s, names[1..])
  {
    assert forall i | 0 <= i < |names[1..]| :: names[1..][i] == names[i + 1];
    assert forall i | 1 <= i < |names| :: names[i] == names[1..][i - 1];
  }

  /** The names those entries carry. */
  function EntryNames(s: State, names: seq<string>): (r: seq<string>)
    requires AllListed(s, names)
    ensures |r| == |names| && forall i | 0 <= i < |r| :: r[i] == Entry(s, names[i]).ttype
  {
    seq(|names|, i requires 0 <= i < |names| => Entry(s, names[i]).ttype)
  }

  // ------------------------------------------------------------------------------------------
  // The planning loop

  /** The columns that are created: all under Replace, else those the destination does not have. */
  function Created(s: State, cols: seq<Header>, names: seq<string>, how: Policy): (hs: seq<Header>)
    ensures AllWellFormed(hs)
  {
    if names == [] then []
    else CreatedOne(s, cols, names[0], how) + Created(s, cols, names[1..], how)
  }

  function CreatedOne(s: State, cols: seq<Header>, name: string, how: Policy): (hs: seq<Header>)
    ensures AllWellFormed(hs)
  {
    if Listed(s, name) && Creates(cols, name, how) then [CreatedHeader(Entry(s, name))] else []
  }

  predicate Creates(cols: seq<Header>, name: string, how: Policy) {
    how == Replace || !Has(cols, name)
  }

  predicate Named(h: Header, names: seq<string>) {
    exists i | 0 <= i < |names| :: Matches(h, names[i])
  }

  /** A column as a unit: its header and its cells, row by row. */
  datatype ColumnData = ColumnData(header: Header, cells: seq<Cell>)

  function ColumnOf(t: TableData, k: nat): ColumnData
    requires Sound(t) && k < |t.cols|
  {
    ColumnData(t.cols[k], seq(|t.rows|, r requires 0 <= r < |t.rows| => t.rows[r][k]))
  }

  function ColumnsOf(t: TableData): (cs: seq<ColumnData>)
    requires Sound(t)
    ensures |cs| == |t.cols|
  {
    seq(|t.cols|, k requires 0 <= k < |t.cols| => ColumnOf(t, k))
  }

  /** A column is hit by names if one of them finds it, that is, matches it and no other column. */
  predicate Hit(h: Header, cols: seq<Header>, names: seq<string>) {
    Named(h, names) && Has(cols, h.ttype)
  }

  /** The columns that are not hit, in their order. */
  function Survivors(cs: seq<ColumnData>, cols: seq<Header>, names: seq<string>): seq<ColumnData> {
    if cs == [] then []
    else if Hit(cs[0].header, cols, names) then Survivors(cs[1..], cols, names)
    else [cs[0]] + Survivors(cs[1..], cols, names)
  }

  lemma {:induction false} SurvivorsRemove(cs: seq<ColumnData>, k: nat, cols: seq<Header>, names: seq<string>)
    requires k < |cs| && Hit(cs[k].header, cols, names)
    ensures Survivors(RemoveAt(cs, k), cols, names) == Survivors(cs, cols, names)
  {
    hide Hit;
    if k == 0 {
      assert RemoveAt(cs, 0) == cs[1..];
    } else {
      SurvivorsRemove(cs[1..], k - 1, cols, names);
      assert RemoveAt(cs, k)[1..] == RemoveAt(cs[1..], k - 1);
    }
  }

  lemma {:induction false} SurvivorsAgree(cs: seq<ColumnData>, a: seq<Header>, m: seq<string>,
                                          b: seq<Header>, n: seq<string>)
    requires forall j | 0 <= j < |cs| :: Hit(cs[j].header, a, m) == Hit(cs[j].header, b, n)
    ensures Survivors(cs, a, m) == Survivors(cs, b, n)
  {
    hide Hit;
    if cs != [] {
      SurvivorsAgree(cs[1..], a, m, b, n);
    }
  }

  lemma SurvivorsAll(cs: seq<ColumnData>, cols: seq<Header>)
    ensures Survivors(cs, cols, []) == cs
  {
    if cs != [] {
      SurvivorsAll(cs[1..], cols);
      assert cs == [cs[0]] + cs[1..];
    }
  }

  lemma DeletedColumns(t: TableData, k: nat)
    requires Sound(t) && k < |t.cols|
    ensures ColumnsOf(DeleteCol(t, k + 1).value) == RemoveAt(ColumnsOf(t), k)
    ensures |DeleteCol(t, k + 1).value.rows| == |t.rows|
  {
    hide WellFormed, CellBytes;
    var t' := DeleteCol(t, k + 1).value;
    forall j | 0 <= j < |t'.cols|
      ensures ColumnsOf(t')[j] == RemoveAt(ColumnsOf(t), k)[j]
    {
      var i := if j < k then j else j + 1;
      assert RemoveAt(ColumnsOf(t), k)[j] == ColumnOf(t, i);
      assert forall r | 0 <= r < |t.rows| :: t'.rows[r] == RemoveAt(t.rows[r], k);
      assert forall r | 0 <= r < |t.rows| :: RowOk(t.cols, t.rows[r]) && t'.rows[r][j] == t.rows[r][i];
      assert ColumnOf(t', j).cells == ColumnOf(t, i).cells;
    }
  }

  /** Without Replace the planning loop never touches the destination, however it ends. */
  lemma {:induction false} PlanLeavesDestination(s: State, d: State, names: seq<string>, how: Policy, p: Plan)
    requires Sound(d.data) && AllWellFormed(p.created) && how != Replace
    ensures PlanFrom(s, d, names, how, p).0 == d
    decreases |names|
  {
    if names != [] {
      var (d1, p1, st) := PlanOne(s, d, names[0], how, p);
      assert d1 == d;
      PlanLeavesDestination(s, d, names[1..], how, p1);
    }
  }

  /** Destinations in which deletions by name hit the right columns, where they happen. */
  ghost predicate Deletable(d: State, how: Policy) {
    Sound(d.data) && (how == Replace ==> InOrder(d))
  }

  /** Nothing stops a deletion by name, if there is something to delete: the cache reaches to the column. */
  predicate Removable(d: State, name: string) {
    Has(d.data.cols, name) ==> FindCol(d.data.cols, name).value < |d.cache|
  }

  lemma PlanOneOutcome(s: State, d: State, name: string, how: Policy, p: Plan)
    requires Deletable(d, how) && AllWellFormed(p.created)
    ensures var (d', p', st) := PlanOne(s, d, name, how, p);
            && Deletable(d', how)
            && (st.Success? ==>
                  && Listed(s, name)
                  && p'.src == p.src + [Entry(s, name)]
                  && p'.created == p.created + CreatedOne(s, d.data.cols, name, how))
            && (how == Replace ==> (st.Success? <==> Listed(s, name) && Removable(d, name)))
            && d' == if how == Replace && Listed(s, name) && Has(d.data.cols, name) then DeleteNamed(d, name).0 else d
  {
    hide FindCol, DeleteNamed, CreatedHeader, WellFormed, Sound, Numbered, InOrder;
    if how == Replace {
      DeleteNamedOutcome(d, name);
    }
  }

  /** A completed planning loop has found every name and has planned the right columns. */
  lemma {:induction false} PlanPlans(s: State, d: State, names: seq<string>, how: Policy, p: Plan)
    requires Deletable(d, how) && AllWellFormed(p.created)
    requires PlanFrom(s, d, names, how, p).2.Success?
    ensures AllListed(s, names)
    ensures PlanFrom(s, d, names, how, p).1.src == p.src + Sources(s, names)
    ensures PlanFrom(s, d, names, how, p).1.created == p.created + Created(s, d.data.cols, names, how)
    decreases |names|
  {
    hide PlanOne, CreatedOne, Listed, Removable, InOrder, Sound;
    if names != [] {
      var name, rest := names[0], names[1..];
      var (d1, p1, st) := PlanOne(s, d, name, how, p);
      PlanOneOutcome(s, d, name, how, p);
      PlanPlans(s, d1, rest, how, p1);
      ListedCons(s, names);
      CreatedIgnores(s, d.data.cols, d1.data.cols, rest, how);
      Reassociate(p.created, CreatedOne(s, d.data.cols, name, how), Created(s, d.data.cols, rest, how));
      Reassociate(p.src, [Entry(s, name)], Sources(s, rest));
    }
  }

  lemma Reassociate<T>(a: seq<T>, b: seq<T>, c: seq<T>)
    ensures a + b + c == a + (b + c)
  {
  }

  lemma CreatedIgnores(s: State, a: seq<Header>, b: seq<Header>, names: seq<string>, how: Policy)
    requires how == Replace || a == b
    ensures Created(s, a, names, how) == Created(s, b, names, how)
  {
  }

  // ------------------------------------------------------------------------------------------
  // What Replace deletes

  /** The destination after Replace has made room for a name. */
  function Without(d: State, name: string): (r: State)
    requires Sound(d.data)
    ensures Sound(r.data)
  {
    if Has(d.data.cols, name) then DeleteNamed(d, name).0 else d
  }

  /** Nothing stops Replace from making room for these names, one after the other. */
  predicate Reached(d: State, names: seq<string>)
    requires Sound(d.data)
    decreases |names|
  {
    names != [] ==> Removable(d, names[0]) && Reached(Without(d, names[0]), names[1..])
  }

  /** Nothing does in a table with an entry for each column. */
  lemma {:induction false} NumberedReached(d: State, names: seq<string>)
    requires Sound(d.data) && Numbered(d)
    ensures Reached(d, names)
    decreases |names|
  {
    hide FindCol, DeleteNamed, Sound;
    if names != [] {
      DeleteNamedOutcome(d, names[0]);
      NumberedReached(Without(d, names[0]), names[1..]);
    }
  }

  /** The names in front of the first one that the source has no entry for, or that there is no room for. */
  function Processed(s: State, d: State, names: seq<string>): seq<string>
    requires Sound(d.data)
    decreases |names|
  {
    if names == [] || !Listed(s, names[0]) || !Removable(d, names[0]) then []
    else [names[0]] + Processed(s, Without(d, names[0]), names[1..])
  }

  lemma {:induction false} ProcessedAll(s: State, d: State, names: seq<string>)
    requires Sound(d.data)
    ensures Processed(s, d, names) == names <==> AllListed(s, names) && Reached(d, names)
    decreases |names|
  {
    hide Listed, Removable, Without, Sound;
    if names != [] {
      ProcessedAll(s, Without(d, names[0]), names[1..]);
      ListedCons(s, names);
      assert names == [names[0]] + names[1..];
    }
  }

  /** One deletion by name, seen from the names that come after it. */
  lemma HitAfterDelete(cols: seq<Header>, name: string, rest: seq<string>, h: Header)
    requires Has(cols, name) && h in cols && !Matches(h, name)
    ensures Hit(h, RemoveAt(cols, FindCol(cols, name).value), rest) <==> Hit(h, cols, [name] + rest)
  {
    var k := FindCol(cols, name).value;
    FindColFacts(cols, name);
    CountRemove(cols, k, h.ttype);
    CountFinds(cols, h.ttype);
    CountFinds(RemoveAt(cols, k), h.ttype);
    assert forall i | 1 <= i < |[name] + rest| :: ([name] + rest)[i] == rest[i - 1];
    assert forall i | 0 <= i < |rest| :: rest[i] == ([name] + rest)[i + 1];
  }

  lemma HitWithout(cols: seq<Header>, name: string, rest: seq<string>, h: Header)
    requires !Has(cols, name)
    ensures Hit(h, cols, rest) <==> Hit(h, cols, [name] + rest)
  {
    if Matches(h, name) {
      FindColLower(cols, h.ttype, name);
    }
    assert forall i | 1 <= i < |[name] + rest| :: ([name] + rest)[i] == rest[i - 1];
    assert forall i | 0 <= i < |rest| :: rest[i] == ([name] + rest)[i + 1];
  }

  /** A deletion by name leaves of the columns what it would leave with the later names in mind. */
  lemma SurvivorsAfterDelete(d: State, name: string, rest: seq<string>)
    requires Sound(d.data) && InOrder(d) && Has(d.data.cols, name) && Removable(d, name)
    ensures var d' := DeleteNamed(d, name).0;
            && Survivors(ColumnsOf(d'.data), d'.data.cols, rest)
               == Survivors(ColumnsOf(d.data), d.data.cols, [name] + rest)
            && |d'.data.rows| == |d.data.rows| && d'.cache == d.cache
  {
    hide Hit, FindCol, Sound, DeleteCol;
    DeleteNamedOutcome(d, name);
    var k := FindCol(d.data.cols, name).value;
    var cols := d.data.cols;
    FindColFacts(cols, name);
    DeletedColumns(d.data, k);
    var cs := RemoveAt(ColumnsOf(d.data), k);
    forall j | 0 <= j < |cs|
      ensures Hit(cs[j].header, RemoveAt(cols, k), rest) == Hit(cs[j].header, cols, [name] + rest)
    {
      var i := if j < k then j else j + 1;
      assert cs[j] == ColumnOf(d.data, i);
      HitAfterDelete(cols, name, rest, cols[i]);
    }
    SurvivorsAgree(cs, RemoveAt(cols, k), rest, cols, [name] + rest);
    assert Hit(cols[k], cols, [name] + rest) by {
      FoundIsHit(cols, name, rest);
    }
    SurvivorsRemove(ColumnsOf(d.data), k, cols, [name] + rest);
  }

  lemma FoundIsHit(cols: seq<Header>, name: string, rest: seq<string>)
    requires Has(cols, name)
    ensures Hit(cols[FindCol(cols, name).value], cols, [name] + rest)
  {
    var k := FindCol(cols, name).value;
    FindColFacts(cols, name);
    FindColLower(cols, cols[k].ttype, name);
    assert ([name] + rest)[0] == name;
  }

  /** However the planning loop ends, under Replace it has deleted exactly the columns that the names in front
      of the failing one find, for any number of deletions through a stale cache; every other column is there
      with its cells, in order. */
  lemma {:induction false} PlanDeletes(s: State, d: State, names: seq<string>, p: Plan)
    requires Deletable(d, Replace) && AllWellFormed(p.created)
    ensures var (d', _, st) := PlanFrom(s, d, names, Replace, p);
            && ColumnsOf(d'.data) == Survivors(ColumnsOf(d.data), d.data.cols, Processed(s, d, names))
            && |d'.data.rows| == |d.data.rows| && d'.cache == d.cache && InOrder(d')
            && (st.Success? <==> AllListed(s, names) && Reached(d, names))
    decreases |names|
  {
    hide PlanOne, Listed, Removable, DeleteNamed, FindCol, Sound, ColumnsOf, WellFormed;
    if names == [] {
      SurvivorsAll(ColumnsOf(d.data), d.data.cols);
    } else {
      var name, rest := names[0], names[1..];
      var (d1, p1, st) := PlanOne(s, d, name, Replace, p);
      PlanOneOutcome(s, d, name, Replace, p);
      DeleteNamedOutcome(d, name);
      ListedCons(s, names);
      if st.Failure? {
        FailedPlanOne(s, d, name, p);
        SurvivorsAll(ColumnsOf(d.data), d.data.cols);
      } else {
        assert d1 == Without(d, name);
        PlanDeletes(s, d1, rest, p1);
        if Has(d.data.cols, name) {
          SurvivorsAfterDelete(d, name, Processed(s, d1, rest));
        } else {
          SurvivorsWithout(d, name, Processed(s, d1, rest));
        }
      }
    }
  }

  lemma FailedPlanOne(s: State, d: State, name: string, p: Plan)
    requires Deletable(d, Replace) && AllWellFormed(p.created) && PlanOne(s, d, name, Replace, p).2.Failure?
    ensures PlanOne(s, d, name, Replace, p).0 == d
  {
    hide FindCol, DeleteNamed, CreatedHeader, WellFormed, Sound;
    DeleteNamedOutcome(d, name);
  }

  lemma SurvivorsWithout(d: State, name: string, rest: seq<string>)
    requires Sound(d.data) && !Has(d.data.cols, name)
    ensures Survivors(ColumnsOf(d.data), d.data.cols, rest) == Survivors(ColumnsOf(d.data), d.data.cols, [name] + rest)
  {
    hide Hit, FindCol, Sound;
    var cs, cols := ColumnsOf(d.data), d.data.cols;
    forall j | 0 <= j < |cs|
      ensures Hit(cs[j].header, cols, rest) == Hit(cs[j].header, cols, [name] + rest)
    {
      HitWithout(cols, name, rest, cs[j].header);
    }
    SurvivorsAgree(cs, cols, rest, cols, [name] + rest);
  }
}
