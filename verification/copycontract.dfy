/** What copy_columns achieves when it succeeds, and what it leaves when it fails. */
module CopyContracts {
  import opened Results
  import opened Bytes
  import opened Extents
  import opened Columns
  import opened Stores
  import opened TableSpecs
  import opened CopySpecs

  /** Under Replace there is one created column for each name. */
  lemma CreatedAt(s: State, cols: seq<Header>, names: seq<string>, i: nat)
    requires AllListed(s, names) && i < |names|
    ensures |Created(s, cols, names, Replace)| == |names|
    ensures Created(s, cols, names, Replace)[i] == CreatedHeader(Entry(s, names[i]))
  {
    hide Listed, Entry, CreatedHeader;
    ListedCons(s, names);
    assert names[1..] != [] ==> AllListed(s, names[1..]);
    if i > 0 {
      CreatedAt(s, cols, names[1..], i - 1);
    } else if |names| > 1 {
      CreatedAt(s, cols, names[1..], 0);
    }
  }

  // ------------------------------------------------------------------------------------------
  // The copying loop

  lemma CopyOneOutcome(src: TableData, d: State, ci: ColumnInfo, conv: Conversion)
    requires Sound(src) && Describable(src.cols) && Coherent(d) && Legal(conv)
    requires CopyOne(src, d, ci, conv).1.Success?
    ensures Has(d.data.cols, ci.ttype) && 1 <= ci.colnum <= |src.cols|
    ensures var to, d' := FindCol(d.data.cols, ci.ttype).value, CopyOne(src, d, ci, conv).0;
            && Coherent(d')
            && forall r, p | 0 <= r < |d.data.rows| && 0 <= p < |d.data.cols| ::
                 && p < |d'.data.rows[r]| && p < |d.data.rows[r]|
                 && d'.data.rows[r][p] ==
                      if p == to && r < |src.rows| then CopiedCell(src, ci.colnum - 1, d.data.cols[to], conv, r)
                      else d.data.rows[r][p]
  {
    hide WellFormed, CellBytes, CellTypeOf, ReadTdim, CopiedCell, FindCol, Layout;
    CoherentNumbered(d);
    assert forall r | 0 <= r < |d.data.rows| :: RowOk(d.data.cols, d.data.rows[r]);
  }

  /** A cell stays as it is if no copied column goes there, or if the source has no such row. */
  lemma {:induction false} CopyKeeps(src: TableData, d: State, cis: seq<ColumnInfo>, conv: Conversion, r: nat, p: nat)
    requires Sound(src) && Describable(src.cols) && Coherent(d) && Legal(conv)
    requires CopyFrom(src, d, cis, conv).1.Success?
    requires r < |d.data.rows| && p < |d.data.cols|
    requires r >= |src.rows| || forall m | 0 <= m < |cis| :: FindCol(d.data.cols, cis[m].ttype) != Success(p)
    ensures var d' := CopyFrom(src, d, cis, conv).0;
            p < |d'.data.rows[r]| && p < |d.data.rows[r]| && d'.data.rows[r][p] == d.data.rows[r][p]
    decreases |cis|
  {
    assert RowOk(d.data.cols, d.data.rows[r]);
    if cis != [] {
      CopyOneOutcome(src, d, cis[0], conv);
      assert forall m | 0 <= m < |cis[1..]| :: cis[1..][m] == cis[m + 1];
      CopyKeeps(src, CopyOne(src, d, cis[0], conv).0, cis[1..], conv, r, p);
    }
  }

  /** Later descriptions of the same name are of the same column. */
  ghost predicate NoRival(cis: seq<ColumnInfo>, m: nat)
    requires m < |cis|
  {
    forall n | m < n < |cis| && Lower(cis[n].ttype) == Lower(cis[m].ttype) :: cis[n].colnum == cis[m].colnum
  }

  /** A completed copying loop has found the place of each column. */
  lemma {:induction false} CopyFinds(src: TableData, d: State, cis: seq<ColumnInfo>, conv: Conversion, m: nat)
    requires Sound(src) && Describable(src.cols) && Coherent(d) && Legal(conv)
    requires CopyFrom(src, d, cis, conv).1.Success? && m < |cis|
    ensures Has(d.data.cols, cis[m].ttype) && 1 <= cis[m].colnum <= |src.cols|
    decreases |cis|
  {
    CopyOneOutcome(src, d, cis[0], conv);
    if m > 0 {
      CopyFinds(src, CopyOne(src, d, cis[0], conv).0, cis[1..], conv, m - 1);
    }
  }

  /** The cells of row r at place `to` of table t are the converted cells of source column `from`. */
  ghost predicate Arrived(src: TableData, t: TableData, from: int, to: nat, conv: Conversion, r: nat)
    requires Sound(src) && Describable(src.cols) && Sound(t) && Describable(t.cols) && Legal(conv)
    requires 1 <= from <= |src.cols| && to < |t.cols| && r < |t.rows| && r < |src.rows|
  {
    && to < |t.rows[r]| && from - 1 < |src.rows[r]|
    && t.rows[r][to] == conv.cell(CellTypeOf(src.cols[from - 1]), CellTypeOf(t.cols[to]), src.rows[r][from - 1])
  }

  /** A copied column arrives if no later one goes to the same place. */
  lemma {:induction false} LastArrives(src: TableData, d: State, cis: seq<ColumnInfo>, conv: Conversion,
                                        m: nat, to: nat, r: nat)
    requires Sound(src) && Describable(src.cols) && Coherent(d) && Legal(conv)
    requires CopyFrom(src, d, cis, conv).1.Success? && m < |cis| && 1 <= cis[m].colnum <= |src.cols|
    requires FindCol(d.data.cols, cis[m].ttype) == Success(to) && r < |d.data.rows| && r < |src.rows|
    requires forall n | m < n < |cis| :: FindCol(d.data.cols, cis[n].ttype) != Success(to)
    ensures Arrived(src, CopyFrom(src, d, cis, conv).0.data, cis[m].colnum, to, conv, r)
    decreases |cis|
  {
    hide Sound, Describable, Legal, Layout, CopyOne, FindCol, Arrived;
    var d1, rest := CopyOne(src, d, cis[0], conv).0, cis[1..];
    CopyOneOutcome(src, d, cis[0], conv);
    if m > 0 {
      assert forall n | m - 1 < n < |rest| :: rest[n] == cis[n + 1];
      LastArrives(src, d1, rest, conv, m - 1, to, r);
    } else {
      assert forall n | 0 <= n < |rest| :: rest[n] == cis[n + 1];
      OneArrives(src, d, cis[0], conv, to, r);
      CopyKeeps(src, d1, rest, conv, r, to);
      SameCellArrived(src, d1.data, CopyFrom(src, d1, rest, conv).0.data, cis[0].colnum, to, conv, r);
    }
  }

  lemma OneArrives(src: TableData, d: State, ci: ColumnInfo, conv: Conversion, to: nat, r: nat)
    requires Sound(src) && Describable(src.cols) && Coherent(d) && Legal(conv)
    requires CopyOne(src, d, ci, conv).1.Success? && 1 <= ci.colnum <= |src.cols|
    requires FindCol(d.data.cols, ci.ttype) == Success(to) && r < |d.data.rows| && r < |src.rows|
    ensures Coherent(CopyOne(src, d, ci, conv).0)
    ensures Arrived(src, CopyOne(src, d, ci, conv).0.data, ci.colnum, to, conv, r)
  {
    hide CellTypeOf, CopyOne, FindCol, Layout, CellBytes, WellFormed, ReadTdim;
    CopyOneOutcome(src, d, ci, conv);
    assert RowOk(src.cols, src.rows[r]);
    assert CopyOne(src, d, ci, conv).0.data.rows[r][to] == CopiedCell(src, ci.colnum - 1, d.data.cols[to], conv, r);
  }

  lemma SameCellArrived(src: TableData, t: TableData, u: TableData, from: int, to: nat, conv: Conversion, r: nat)
    requires Sound(src) && Describable(src.cols) && Sound(t) && Describable(t.cols) && Legal(conv)
    requires 1 <= from <= |src.cols| && to < |t.cols| && r < |t.rows| && r < |src.rows| && r < |u.rows|
    requires Arrived(src, t, from, to, conv, r) && u.cols == t.cols && Sound(u)
    requires to < |u.rows[r]| && u.rows[r][to] == t.rows[r][to]
    ensures Arrived(src, u, from, to, conv, r)
  {
    hide CellTypeOf;
  }

  /** A copied column arrives, in the rows that both tables have, if no other column comes after it under the
      same name. */
  lemma {:induction false} CopyArrives(src: TableData, d: State, cis: seq<ColumnInfo>, conv: Conversion,
                                       m: nat, to: nat, r: nat)
    requires Sound(src) && Describable(src.cols) && Coherent(d) && Legal(conv) && m < |cis| && NoRival(cis, m)
    requires CopyFrom(src, d, cis, conv).1.Success? && 1 <= cis[m].colnum <= |src.cols|
    requires FindCol(d.data.cols, cis[m].ttype) == Success(to) && r < |d.data.rows| && r < |src.rows|
    ensures Arrived(src, CopyFrom(src, d, cis, conv).0.data, cis[m].colnum, to, conv, r)
    decreases |cis| - m
  {
    if n :| m < n < |cis| && FindCol(d.data.cols, cis[n].ttype) == Success(to) {
      FindColFacts(d.data.cols, cis[m].ttype);
      FindColFacts(d.data.cols, cis[n].ttype);
      assert cis[n].colnum == cis[m].colnum;
      CopyArrives(src, d, cis, conv, n, to, r);
    } else {
      LastArrives(src, d, cis, conv, m, to, r);
    }
  }

  // ------------------------------------------------------------------------------------------
  // New columns and rows

  function NewRowCount(n: nat, m: nat, ext: Extension): nat {
    match ext
    case Always => if n > m then n else m
    case IfEmpty => if m == 0 then n else m
    case Never => m
  }

  /** Enlarging keeps every cell there is and fills with zeros. */
  lemma EnlargedCells(t: TableData, created: seq<Header>, n: nat, ext: Extension)
    requires Sound(t) && AllWellFormed(created)
    ensures var t' := Enlarged(t, created, n, ext);
            && t'.cols == t.cols + created
            && |t'.rows| == NewRowCount(n, |t.rows|, ext)
            && forall r, p | 0 <= r < |t'.rows| && 0 <= p < |t'.cols| ::
                 && p < |t'.rows[r]|
                 && t'.rows[r][p] == if r < |t.rows| && p < |t.cols| && p < |t.rows[r]| then t.rows[r][p]
                                     else Filled(CellBytes(t'.cols[p]), 0)
  {
    var t' := Enlarged(t, created, n, ext);
    var t1 := if created == [] then t else AppendCols(t, created);
    assert t.cols + [] == t.cols;
    forall r, p | 0 <= r < |t'.rows| && 0 <= p < |t'.cols|
      ensures p < |t'.rows[r]|
      ensures t'.rows[r][p] == if r < |t.rows| && p < |t.cols| && p < |t.rows[r]| then t.rows[r][p]
                               else Filled(CellBytes(t'.cols[p]), 0)
    {
      if r < |t.rows| {
        assert RowOk(t.cols, t.rows[r]);
        assert t'.rows[r] == t1.rows[r];
        assert p >= |t.cols| ==> t'.cols[p] == created[p - |t.cols|] && t1.rows[r][p] == ZeroRow(created)[p - |t.cols|];
      } else {
        assert t'.rows[r] == ZeroRow(t'.cols);
      }
    }
  }

  // ------------------------------------------------------------------------------------------
  // Success

  /** The old columns that remain: under Replace those that no name finds. */
  function Remaining(t: TableData, names: seq<string>, how: Policy): seq<ColumnData>
    requires Sound(t)
  {
    if how == Replace then Survivors(ColumnsOf(t), t.cols, names) else ColumnsOf(t)
  }

  function Headers(cs: seq<ColumnData>): seq<Header> {
    seq(|cs|, k requires 0 <= k < |cs| => cs[k].header)
  }

  /** The state in which the copying loop starts. */
  function Prepared(s: State, d: State, names: seq<string>, how: Policy, ext: Extension): (r: State)
    requires Sound(d.data)
    ensures Sound(r.data)
  {
    var (d1, p, _) := PlanFrom(s, d, names, how, Plan([], []));
    Refreshed(Enlarged(d1.data, p.created, |s.data.rows|, ext)).0
  }

  ghost predicate Succeeds(s: State, d: State, names: seq<string>, how: Policy, ext: Extension, conv: Conversion) {
    && Legible(s) && Deletable(d, how) && Legal(conv) && names != []
    && CopyColumns(s, d, names, how, ext, conv).1.Success?
  }

  lemma SuccessPhases(s: State, d: State, names: seq<string>, how: Policy, ext: Extension, conv: Conversion)
    requires Succeeds(s, d, names, how, ext, conv)
    ensures PlanFrom(s, d, names, how, Plan([], [])).2.Success?
    ensures var d2 := Prepared(s, d, names, how, ext);
            && AllListed(s, names) && Coherent(d2)
            && CopyFrom(s.data, d2, Sources(s, names), conv) == CopyColumns(s, d, names, how, ext, conv)
  {
    PlanPlans(s, d, names, how, Plan([], []));
    assert [] + Sources(s, names) == Sources(s, names);
  }

  /** What remains of the destination when the planning loop is done, and what it has planned. */
  lemma PlannedColumns(s: State, d: State, names: seq<string>, how: Policy, ext: Extension, conv: Conversion)
    requires Succeeds(s, d, names, how, ext, conv)
    ensures var (d1, p, st) := PlanFrom(s, d, names, how, Plan([], []));
            && st.Success?
            && ColumnsOf(d1.data) == Remaining(d.data, names, how)
            && p.created == Created(s, d.data.cols, names, how)
            && |d1.data.rows| == |d.data.rows|
            && Prepared(s, d, names, how, ext).data.cols == d1.data.cols + p.created
  {
    hide Created, CopyFrom, PlanFrom, Layout, Matches, CopyColumns;
    var (d1, p, st) := PlanFrom(s, d, names, how, Plan([], []));
    SuccessPhases(s, d, names, how, ext, conv);
    PlanPlans(s, d, names, how, Plan([], []));
    assert p.created == Created(s, d.data.cols, names, how);
    EnlargedCells(d1.data, p.created, |s.data.rows|, ext);
    if how == Replace {
      PlanDeletes(s, d, names, Plan([], []));
      ProcessedAll(s, d, names);
    } else {
      PlanLeavesDestination(s, d, names, how, Plan([], []));
    }
  }

  /** The columns that the entries of the names are copied to are there, each once. */
  lemma EntriesFound(s: State, d: State, names: seq<string>, how: Policy, ext: Extension, conv: Conversion, i: nat)
    requires Succeeds(s, d, names, how, ext, conv) && i < |names|
    ensures Listed(s, names[i]) && 1 <= Entry(s, names[i]).colnum <= |s.data.cols|
    ensures Has(Prepared(s, d, names, how, ext).data.cols, Entry(s, names[i]).ttype)
  {
    SuccessPhases(s, d, names, how, ext, conv);
    CopyFinds(s.data, Prepared(s, d, names, how, ext), Sources(s, names), conv, i);
  }

  lemma OnlyOneMatch(a: seq<Header>, b: seq<Header>, j: nat, i: nat, name: string)
    requires Has(a + b, name) && j < |a| && i < |b| && Matches(b[i], name)
    ensures !Matches(a[j], name)
  {
    FindColFacts(a + b, name);
    assert (a + b)[j] == a[j] && (a + b)[|a| + i] == b[i];
  }

  /** Under Replace no old column of a copied name is left, if the source knows the name. */
  lemma ReplacedGone(s: State, d: State, names: seq<string>, ext: Extension, conv: Conversion, j: nat, i: nat)
    requires Succeeds(s, d, names, Replace, ext, conv) && i < |names| && Knows(s, names[i])
    requires j < |Remaining(d.data, names, Replace)|
    ensures !Matches(Remaining(d.data, names, Replace)[j].header, names[i])
  {
    var (d1, p, st) := PlanFrom(s, d, names, Replace, Plan([], []));
    SuccessPhases(s, d, names, Replace, ext, conv);
    PlannedColumns(s, d, names, Replace, ext, conv);
    EntriesFound(s, d, names, Replace, ext, conv, i);
    CreatedAt(s, d.data.cols, names, i);
    FindColLower(d1.data.cols + p.created, names[i], Entry(s, names[i]).ttype);
    OnlyOneMatch(d1.data.cols, p.created, j, i, names[i]);
    assert Remaining(d.data, names, Replace)[j] == ColumnOf(d1.data, j);
  }

  /** After a successful copy the columns are those that remain, in their old order, and then those that were
      created, in the order of the names; the number of rows follows the extension policy; the cache is
      coherent; and each name that the source knows is found in both tables. */
  lemma CopyLayout(s: State, d: State, names: seq<string>, how: Policy, ext: Extension, conv: Conversion)
    requires Succeeds(s, d, names, how, ext, conv)
    ensures var d' := CopyColumns(s, d, names, how, ext, conv).0;
            && Coherent(d') && AllListed(s, names)
            && d'.data.cols == Headers(Remaining(d.data, names, how)) + Created(s, d.data.cols, names, how)
            && |d'.data.rows| == NewRowCount(|s.data.rows|, |d.data.rows|, ext)
            && forall i | 0 <= i < |names| && Knows(s, names[i]) ::
                 Has(s.data.cols, names[i]) && Has(d'.data.cols, names[i])
  {
    var (d1, p, st) := PlanFrom(s, d, names, how, Plan([], []));
    SuccessPhases(s, d, names, how, ext, conv);
    PlannedColumns(s, d, names, how, ext, conv);
    EnlargedCells(d1.data, p.created, |s.data.rows|, ext);
    assert Headers(ColumnsOf(d1.data)) == d1.data.cols;
    var cols := CopyColumns(s, d, names, how, ext, conv).0.data.cols;
    forall i | 0 <= i < |names| && Knows(s, names[i])
      ensures Has(s.data.cols, names[i]) && Has(cols, names[i])
    {
      EntriesFound(s, d, names, how, ext, conv, i);
      FindColLower(cols, names[i], Entry(s, names[i]).ttype);
    }
  }

  /** No later name has another column's entry under the same name. */
  ghost predicate Unrivalled(s: State, names: seq<string>, i: nat)
    requires AllListed(s, names) && i < |names|
  {
    forall m | i < m < |names| && Lower(Entry(s, names[m]).ttype) == Lower(Entry(s, names[i]).ttype) ::
      Entry(s, names[m]).colnum == Entry(s, names[i]).colnum
  }

  /** Names that the source knows have no rivals. */
  lemma KnownUnrivalled(s: State, names: seq<string>, i: nat)
    requires AllListed(s, names) && AllKnown(s, names) && i < |names|
    ensures Unrivalled(s, names, i)
  {
    hide FindCol;
    forall m | i < m < |names| && Lower(Entry(s, names[m]).ttype) == Lower(Entry(s, names[i]).ttype)
      ensures Entry(s, names[m]).colnum == Entry(s, names[i]).colnum
    {
      assert Knows(s, names[m]) && Knows(s, names[i]);
      FindColLower(s.data.cols, names[m], names[i]);
    }
  }

  /** The column that an entry's own name finds has the requested name exactly if the source knows it. */
  lemma EntryColumn(s: State, cols: seq<Header>, name: string)
    requires Listed(s, name) && InOrder(s) && Has(cols, Entry(s, name).ttype)
    ensures Has(s.data.cols, name) && Entry(s, name).colnum == Source(s, name) + 1
    ensures var to := FindCol(cols, Entry(s, name).ttype).value;
            && (Matches(cols[to], name) <==> Knows(s, name))
            && (Knows(s, name) ==> FindCol(cols, name) == Success(to))
  {
    FindColFacts(cols, Entry(s, name).ttype);
    if Knows(s, name) {
      FindColLower(cols, name, Entry(s, name).ttype);
    }
  }

  /** The converted source cells of each name arrive, in the rows that both tables have, in the column that the
      source's entry for the name says; which is the column of that name if and only if the source knows the
      name. */
  lemma CopyNamedCells(s: State, d: State, names: seq<string>, how: Policy, ext: Extension, conv: Conversion,
                       i: nat, r: nat)
    requires Succeeds(s, d, names, how, ext, conv) && InOrder(s) && i < |names|
    requires AllListed(s, names) ==> Unrivalled(s, names, i)
    requires r < |s.data.rows| && r < |CopyColumns(s, d, names, how, ext, conv).0.data.rows|
    ensures Listed(s, names[i]) && Has(s.data.cols, names[i])
    ensures var d' := CopyColumns(s, d, names, how, ext, conv).0;
            && Coherent(d') && Has(d'.data.cols, Entry(s, names[i]).ttype)
            && var to := FindCol(d'.data.cols, Entry(s, names[i]).ttype).value;
               && Arrived(s.data, d'.data, Source(s, names[i]) + 1, to, conv, r)
               && (Matches(d'.data.cols[to], names[i]) <==> Knows(s, names[i]))
               && (Knows(s, names[i]) ==> FindCol(d'.data.cols, names[i]) == Success(to))
  {
    hide CopyFrom, CopyColumns, Layout, Created, WellFormed, Arrived, Knows, FindCol, Prepared, Sound, Describable,
         InOrder, PlanFrom, Coherent, Unrivalled;
    SuccessPhases(s, d, names, how, ext, conv);
    EntriesFound(s, d, names, how, ext, conv, i);
    var d2, cis := Prepared(s, d, names, how, ext), Sources(s, names);
    EntryColumn(s, d2.data.cols, names[i]);
    UnrivalledEntries(s, names, i);
    EntryArrives(s.data, d2, cis, conv, i, r);
  }

  lemma UnrivalledEntries(s: State, names: seq<string>, i: nat)
    requires AllListed(s, names) && i < |names| && Unrivalled(s, names, i)
    ensures NoRival(Sources(s, names), i)
  {
  }

  lemma EntryArrives(src: TableData, d: State, cis: seq<ColumnInfo>, conv: Conversion, m: nat, r: nat)
    requires Sound(src) && Describable(src.cols) && Coherent(d) && Legal(conv) && m < |cis| && NoRival(cis, m)
    requires CopyFrom(src, d, cis, conv).1.Success? && 1 <= cis[m].colnum <= |src.cols|
    requires Has(d.data.cols, cis[m].ttype) && r < |d.data.rows| && r < |src.rows|
    ensures var d' := CopyFrom(src, d, cis, conv).0;
            && Coherent(d') && d'.data.cols == d.data.cols
            && Arrived(src, d'.data, cis[m].colnum, FindCol(d.data.cols, cis[m].ttype).value, conv, r)
  {
    CopyArrives(src, d, cis, conv, m, FindCol(d.data.cols, cis[m].ttype).value, r);
  }

  /** A remaining column that no entry of the names is called like, and in every remaining column the rows that
      the source does not have, are as before, with zeros in new rows. */
  lemma CopyOtherCells(s: State, d: State, names: seq<string>, how: Policy, ext: Extension, conv: Conversion,
                       j: nat, r: nat)
    requires Succeeds(s, d, names, how, ext, conv)
    requires j < |Remaining(d.data, names, how)| && r < |CopyColumns(s, d, names, how, ext, conv).0.data.rows|
    requires AllListed(s, names) ==>
               r >= |s.data.rows| || !Named(Remaining(d.data, names, how)[j].header, EntryNames(s, names))
    ensures var d' := CopyColumns(s, d, names, how, ext, conv).0;
            var old_ := Remaining(d.data, names, how)[j];
            && j < |d'.data.cols| && j < |d'.data.rows[r]| && d'.data.cols[j] == old_.header
            && WellFormed(old_.header) && |old_.cells| == |d.data.rows|
            && d'.data.rows[r][j] == if r < |d.data.rows| then old_.cells[r] else Filled(CellBytes(old_.header), 0)
  {
    hide CopyFrom, CopyColumns, PlanFrom, Created, CellBytes, CellTypeOf, CopiedCell, FindCol, Legal;
    SuccessPhases(s, d, names, how, ext, conv);
    var (d1, p, st) := PlanFrom(s, d, names, how, Plan([], []));
    var d2, cis := Prepared(s, d, names, how, ext), Sources(s, names);
    PlannedColumns(s, d, names, how, ext, conv);
    EnlargedCells(d1.data, p.created, |s.data.rows|, ext);
    assert Remaining(d.data, names, how)[j] == ColumnOf(d1.data, j);
    assert d2.data.cols[j] == d1.data.cols[j];
    if r < |s.data.rows| {
      forall m | 0 <= m < |cis|
        ensures FindCol(d2.data.cols, cis[m].ttype) != Success(j)
      {
        FindColFacts(d2.data.cols, cis[m].ttype);
        assert EntryNames(s, names)[m] == cis[m].ttype;
      }
    }
    CopyKeeps(s.data, d2, cis, conv, r, j);
  }

  /** For names that the source knows, the entries are called like the names. */
  lemma KnownEntryNames(s: State, names: seq<string>, h: Header)
    requires AllListed(s, names) && AllKnown(s, names)
    ensures Named(h, EntryNames(s, names)) <==> Named(h, names)
  {
    hide Listed, Entry;
    assert forall i | 0 <= i < |names| :: Lower(EntryNames(s, names)[i]) == Lower(names[i]) by {
      assert forall i | 0 <= i < |names| :: Knows(s, names[i]);
    }
    if Named(h, names) {
      var i :| 0 <= i < |names| && Matches(h, names[i]);
      assert Matches(h, EntryNames(s, names)[i]);
    }
  }

  /** In a created column the rows that the source does not have are zero. */
  lemma CopyCreatedCells(s: State, d: State, names: seq<string>, how: Policy, ext: Extension, conv: Conversion,
                         p: nat, r: nat)
    requires Succeeds(s, d, names, how, ext, conv)
    requires |Remaining(d.data, names, how)| <= p < |CopyColumns(s, d, names, how, ext, conv).0.data.cols|
    requires |s.data.rows| <= r < |CopyColumns(s, d, names, how, ext, conv).0.data.rows|
    ensures var d' := CopyColumns(s, d, names, how, ext, conv).0;
            && p < |d'.data.rows[r]| && WellFormed(d'.data.cols[p])
            && d'.data.rows[r][p] == Filled(CellBytes(d'.data.cols[p]), 0)
  {
    var (d1, plan, st) := PlanFrom(s, d, names, how, Plan([], []));
    var d2 := Prepared(s, d, names, how, ext);
    SuccessPhases(s, d, names, how, ext, conv);
    PlannedColumns(s, d, names, how, ext, conv);
    EnlargedCells(d1.data, plan.created, |s.data.rows|, ext);
    assert |ColumnsOf(d1.data)| == |d1.data.cols|;
    CopyKeeps(s.data, d2, Sources(s, names), conv, r, p);
  }

  /** The column created for a described name keeps the type and the element count that the description states,
      in one axis. Its cell type is that of the source column if that is even, and if a string then in one
      piece. */
  lemma CreatedType(s: State, name: string)
    requires Legible(s) && Listed(s, name) && Describes(s, name)
    ensures var from, h := s.data.cols[Source(s, name)], CreatedHeader(Entry(s, name));
            && ReadTdim(h).Success?
            && FormOf(h).id == FormOf(from).id && h.ttype == from.ttype
            && (FormOf(h).repeat == FormOf(from).repeat <==> Even(from) || FormOf(from).repeat == 1)
            && ReadTdim(h) == Success([FormOf(h).repeat])
            && (Even(from) && (FormOf(from).id == TString ==> ReportedWidth(from) == FormOf(from).repeat) ==>
                  CellTypeOf(h) == CellTypeOf(from))
  {
    hide FindCol, WellFormed, InitExtent, InitBytes, Nelem;
    var k := Source(s, name);
    LayoutAt(s.data.cols, k);
    CreatedFrom(s.data.cols[k], Entry(s, name));
  }

  lemma CreatedFrom(from: Header, ci: ColumnInfo)
    requires WellFormed(from) && ReadTdim(from).Success?
    requires ci.id == FormOf(from).id && ci.extent == InitExtent(from)
    ensures var h, n := CreatedHeader(ci), Nelem(InitExtent(from));
            && FormOf(h) == Form(FormOf(from).id, if n > 1 then n else 1, None)
            && ReadTdim(h) == Success([FormOf(h).repeat])
            && (FormOf(h).repeat == FormOf(from).repeat <==> Even(from) || FormOf(from).repeat == 1)
            && ReportedWidth(h) == (if FormOf(h).id == TString then FormOf(h).repeat else UnitBytes(FormOf(h).id))
            && (FormOf(from).id != TString ==> ReportedWidth(from) == UnitBytes(FormOf(from).id))
  {
    hide ParseTform, TformText, Nelem, InitExtent, Even;
    InitCount(from);
    TformLegal(ci);
  }

  // ------------------------------------------------------------------------------------------
  // A copying loop that stops

  /** How many columns are copied before the loop stops. */
  function Completed(src: TableData, d: State, cis: seq<ColumnInfo>, conv: Conversion): (m: nat)
    requires Sound(src) && Describable(src.cols) && Sound(d.data) && Describable(d.data.cols) && Legal(conv)
    ensures m <= |cis|
    decreases |cis|
  {
    if cis == [] || CopyOne(src, d, cis[0], conv).1.Failure? then 0
    else 1 + Completed(src, CopyOne(src, d, cis[0], conv).0, cis[1..], conv)
  }

  /** The loop leaves what it would leave on the completed columns alone, and stops early exactly if it fails. */
  lemma {:induction false} CompletedCopies(src: TableData, d: State, cis: seq<ColumnInfo>, conv: Conversion)
    requires Sound(src) && Describable(src.cols) && Sound(d.data) && Describable(d.data.cols) && Legal(conv)
    ensures var m := Completed(src, d, cis, conv);
            && CopyFrom(src, d, cis[..m], conv).1.Success?
            && CopyFrom(src, d, cis, conv).0 == CopyFrom(src, d, cis[..m], conv).0
            && (CopyFrom(src, d, cis, conv).1.Success? <==> m == |cis|)
    decreases |cis|
  {
    hide CopyOne, Sound, Describable;
    if cis != [] {
      var (d1, st) := CopyOne(src, d, cis[0], conv);
      var m := Completed(src, d, cis, conv);
      if st.Success? {
        CompletedCopies(src, d1, cis[1..], conv);
        assert cis[..m][0] == cis[0] && cis[..m][1..] == cis[1..][..m - 1];
      } else {
        CopyOneFails(src, d, cis[0], conv);
      }
    }
  }

  lemma CopyOneFails(src: TableData, d: State, ci: ColumnInfo, conv: Conversion)
    requires Sound(src) && Describable(src.cols) && Sound(d.data) && Describable(d.data.cols) && Legal(conv)
    requires CopyOne(src, d, ci, conv).1.Failure?
    ensures CopyOne(src, d, ci, conv).0 == d
  {
    hide CopyCol, FindCol, Sound, Describable;
  }

  // ------------------------------------------------------------------------------------------
  // Failure

  /** Under any policy but Replace a failure in the planning loop leaves the destination as it was. */
  lemma FailureLeavesDestination(s: State, d: State, names: seq<string>, how: Policy, ext: Extension, conv: Conversion)
    requires Legible(s) && Sound(d.data) && Legal(conv) && how != Replace
    requires PlanFrom(s, d, names, how, Plan([], [])).2.Failure?
    ensures CopyColumns(s, d, names, how, ext, conv) == (d, PlanFrom(s, d, names, how, Plan([], [])).2)
  {
    PlanLeavesDestination(s, d, names, how, Plan([], []));
  }

  /** Under Replace the planning loop fails exactly if the source has no entry for some name, or the cache of the
      destination ends in front of the column of some name. Then the columns that the names in front of that one
      find are gone from the destination, and no others; so that it is as it was if and only if they find
      none. */
  lemma ReplaceFailure(s: State, d: State, names: seq<string>, ext: Extension, conv: Conversion)
    requires Legible(s) && Deletable(d, Replace) && Legal(conv) && names != []
    ensures var (d', st) := CopyColumns(s, d, names, Replace, ext, conv);
            var planned := PlanFrom(s, d, names, Replace, Plan([], [])).2;
            && (planned.Failure? <==> !AllListed(s, names) || !Reached(d, names))
            && (planned.Failure? ==>
                  && st == planned && d'.cache == d.cache
                  && ColumnsOf(d'.data) == Survivors(ColumnsOf(d.data), d.data.cols, Processed(s, d, names))
                  && |d'.data.rows| == |d.data.rows|
                  && (|d'.data.cols| == |d.data.cols| <==>
                        forall n | n in Processed(s, d, names) :: !Has(d.data.cols, n)))
  {
    hide PlanFrom, Listed, Reached, CopyFrom, Layout;
    PlanDeletes(s, d, names, Plan([], []));
    if !AllListed(s, names) || !Reached(d, names) {
      var d' := PlanFrom(s, d, names, Replace, Plan([], [])).0;
      assert |ColumnsOf(d'.data)| == |d'.data.cols|;
      SurvivorCount(ColumnsOf(d.data), d.data.cols, Processed(s, d, names));
      HitAny(d.data, Processed(s, d, names));
    }
  }

  lemma SurvivorCount(cs: seq<ColumnData>, cols: seq<Header>, names: seq<string>)
    ensures |Survivors(cs, cols, names)| <= |cs|
    ensures |Survivors(cs, cols, names)| == |cs| <==> forall j | 0 <= j < |cs| :: !Hit(cs[j].header, cols, names)
  {
    hide Hit;
    if cs != [] {
      SurvivorCount(cs[1..], cols, names);
      assert forall j | 0 <= j < |cs[1..]| :: cs[1..][j] == cs[j + 1];
      assert forall j | 1 <= j < |cs| :: cs[j] == cs[1..][j - 1];
    }
  }

  /** A column is hit exactly if a name finds one. */
  lemma HitAny(t: TableData, names: seq<string>)
    requires Sound(t)
    ensures (forall j | 0 <= j < |t.cols| :: !Hit(ColumnsOf(t)[j].header, t.cols, names))
       <==> forall n | n in names :: !Has(t.cols, n)
  {
    hide Sound, FindCol;
    assert forall j | 0 <= j < |t.cols| :: ColumnsOf(t)[j].header == t.cols[j];
    if n :| n in names && Has(t.cols, n) {
      var k := FindCol(t.cols, n).value;
      FindColFacts(t.cols, n);
      FindColLower(t.cols, t.cols[k].ttype, n);
      assert Hit(t.cols[k], t.cols, names);
    }
    if j :| 0 <= j < |t.cols| && Hit(t.cols[j], t.cols, names) {
      var i :| 0 <= i < |names| && Matches(t.cols[j], names[i]);
      FindColLower(t.cols, t.cols[j].ttype, names[i]);
      assert names[i] in names;
    }
  }

  /** Replacing two columns of which the source has only the first: the call fails, and the destination has
      lost its column. */
  lemma ReplaceLosesColumn(s: State, d: State, a: string, b: string, ext: Extension, conv: Conversion)
    requires Legible(s) && Deletable(d, Replace) && Legal(conv)
    requires Listed(s, a) && !Has(s.data.cols, b) && Has(d.data.cols, a) && Removable(d, a)
    ensures var (d', st) := CopyColumns(s, d, [a, b], Replace, ext, conv);
            st == Failure(MissingInSource) && |d'.data.cols| == |d.data.cols| - 1
  {
    hide FindCol, Legal, Enlarged, CopyFrom, DeleteNamed, Sound;
    var p := Plan([], []);
    var names := [a, b];
    assert names[1..] == [b];
    PlanOneOutcome(s, d, a, Replace, p);
    DeleteNamedOutcome(d, a);
    var (d1, p1, st) := PlanOne(s, d, a, Replace, p);
    assert d1 == DeleteNamed(d, a).0;
    assert PlanOne(s, d1, b, Replace, p1) == (d1, p1, Failure(MissingInSource));
    assert PlanFrom(s, d1, [b], Replace, p1) == (d1, p1, Failure(MissingInSource));
  }
}
