/** copy_columns from a source whose cache is stale, as delete_column(name) leaves it. */
module CopyStale {
  import opened Results
  import opened Columns
  import opened Stores
  import opened TableSpecs
  import opened CopySpecs
  import opened CopyContracts
  import opened CopySuccess

  /** After a deletion by name the source knows exactly the columns in front of the deleted one, and describes
      them; its entry for any column behind is that of the column before. */
  lemma StaleKnows(s: State, gone: string, name: string)
    requires Coherent(s) && Has(s.data.cols, gone)
    requires Has(DeleteNamed(s, gone).0.data.cols, name)
    ensures var s', k := DeleteNamed(s, gone).0, FindCol(s.data.cols, gone).value;
            && Legible(s') && Numbered(s') && |s'.data.cols| == |s.data.cols| - 1 && Listed(s', name)
            && (Knows(s', name) <==> Source(s', name) < k)
            && (Describes(s', name) <==> Source(s', name) < k)
            && Entry(s', name).ttype == s.data.cols[Source(s', name)].ttype
  {
    hide Layout, FindCol, WellFormed, ReadTdim, DeleteNamed;
    var s', k := DeleteNamed(s, gone).0, FindCol(s.data.cols, gone).value;
    CoherentNumbered(s);
    DeleteNamedOutcome(s, gone);
    DescribableRemove(s.data.cols, k);
    var j := FindCol(s'.data.cols, name).value;
    StaleAfterDeleteNamed(s, gone, j);
    LayoutSize(s.data.cols);
    LayoutSize(s'.data.cols);
    FindColFacts(s.data.cols, gone);
    FindColFacts(s'.data.cols, name);
    if j >= k {
      assert s.data.cols[j + 1] == s'.data.cols[j];
      if j > k {
        assert s.data.cols[j] == s'.data.cols[j - 1];
      }
      assert Lower(s.data.cols[j].ttype) != Lower(name);
      if Describes(s', name) {
        DescribesKnows(s', name);
      }
    } else {
      DescribesKnows(s', name);
    }
  }

  /** What the planning loop makes of one name that the destination does not have. */
  lemma PlanOneName(s: State, d: State, name: string)
    requires Legible(s) && Legible(d) && Listed(s, name) && !Has(d.data.cols, name)
    ensures PlanFrom(s, d, [name], NoDuplicates, Plan([], []))
         == (d, Plan([Entry(s, name)], [CreatedHeader(Entry(s, name))]), Success(()))
  {
    hide CreatedHeader, FindCol;
    var p := Plan([Entry(s, name)], [CreatedHeader(Entry(s, name))]);
    assert [] + p.src == p.src && [] + p.created == p.created;
    assert PlanOne(s, d, name, NoDuplicates, Plan([], [])) == (d, p, Success(()));
    assert [name][1..] == [];
    assert PlanFrom(s, d, [], NoDuplicates, p) == (d, p, Success(()));
  }

  lemma FoundLast(cols: seq<Header>, h: Header, name: string)
    requires FindCol(cols, name) == Failure(ColumnNotFound) && Matches(h, name)
    ensures FindCol(cols + [h], name) == Success(|cols|)
  {
    FindColFacts(cols, name);
    assert forall j | 0 <= j < |cols| :: (cols + [h])[j] == cols[j];
    FindColIs(cols + [h], name, |cols|);
  }

  lemma StillMissing(cols: seq<Header>, h: Header, name: string)
    requires FindCol(cols, name) == Failure(ColumnNotFound) && !Matches(h, name)
    ensures FindCol(cols + [h], name) == Failure(ColumnNotFound)
  {
    FindColFacts(cols, name);
    assert forall j | 0 <= j < |cols| :: (cols + [h])[j] == cols[j];
    FindColNone(cols + [h], name);
  }

  /** Copying one column that the destination does not have, from a source with any cache in order: the copy
      succeeds and creates a column called like the entry. */
  lemma CopyOneName(s: State, d: State, name: string, ext: Extension, conv: Conversion)
    requires Legible(s) && InOrder(s) && Legible(d) && Legal(conv) && Listed(s, name)
    requires FindCol(d.data.cols, name) == FindCol(d.data.cols, Entry(s, name).ttype) == Failure(ColumnNotFound)
    requires ReadTdim(CreatedHeader(Entry(s, name))).Success?
    requires conv.possible(CellTypeOf(s.data.cols[Source(s, name)]), CellTypeOf(CreatedHeader(Entry(s, name))))
    ensures var (d', st) := CopyColumns(s, d, [name], NoDuplicates, ext, conv);
            && st.Success? && d'.data.cols == d.data.cols + [CreatedHeader(Entry(s, name))]
            && (Has(d'.data.cols, name) <==> Knows(s, name))
  {
    hide PlanFrom, FindCol, Layout, CellTypeOf, WellFormed, RowOk, Listed, Knows, CreatedHeader, Enlarged, ReadTdim;
    var ci, h := Entry(s, name), CreatedHeader(Entry(s, name));
    PlanOneName(s, d, name);
    EnlargedCells(d.data, [h], |s.data.rows|, ext);
    var t := Enlarged(d.data, [h], |s.data.rows|, ext);
    assert forall j | 0 <= j < |t.cols| :: WellFormed(t.cols[j]) && ReadTdim(t.cols[j]).Success?;
    RefreshedCoherent(t);
    var d2 := Refreshed(t).0;
    FoundLast(d.data.cols, h, ci.ttype);
    EntryColumn(s, t.cols, name);
    assert t.cols[|d.data.cols|] == h;
    assert Copyable(s.data, t.cols, ci, conv);
    CopyFromSucceeds(s.data, d2, [ci], conv);
    if !Matches(h, name) {
      StillMissing(d.data.cols, h, name);
    } else {
      FoundLast(d.data.cols, h, name);
    }
  }

  /** The column behind a deleted one, copied into a table that has neither: the copy succeeds, and the table
      gets a column called like the deleted one, and of its type, but none of the requested name. */
  lemma StaleCopyMisnames(s: State, d: State, gone: string, name: string, ext: Extension, conv: Conversion)
    requires Coherent(s) && Legible(d) && Legal(conv)
    requires Has(s.data.cols, gone) && FindCol(s.data.cols, name) == Success(FindCol(s.data.cols, gone).value + 1)
    requires FindCol(d.data.cols, gone) == FindCol(d.data.cols, name) == Failure(ColumnNotFound)
    requires forall a, b :: conv.possible(a, b)
    ensures var s', k := DeleteNamed(s, gone).0, FindCol(s.data.cols, gone).value;
            && Has(s'.data.cols, name) && Legible(s') && |s.cache| == |s.data.cols|
            && var (d', st) := CopyColumns(s', d, [name], NoDuplicates, ext, conv);
               && st.Success? && d'.data.cols == d.data.cols + [CreatedHeader(s.cache[k])]
               && s.cache[k].ttype == s.data.cols[k].ttype
               && !Has(d'.data.cols, name)
  {
    hide FindCol, Layout, CopyColumns, WellFormed, CellTypeOf, DeleteNamed, Knows, Describes;
    var s', k := DeleteNamed(s, gone).0, FindCol(s.data.cols, gone).value;
    CoherentNumbered(s);
    DeleteNamedOutcome(s, gone);
    LayoutSize(s.data.cols);
    FindColFacts(s.data.cols, gone);
    FindColFacts(s.data.cols, name);
    FoundAfterRemove(s.data.cols, k, name);
    StaleKnows(s, gone, name);
    assert Entry(s', name) == s.cache[k];
    FindColLower(d.data.cols, s.data.cols[k].ttype, gone);
    CreatedReads(s.cache[k]);
    CopyOneName(s', d, name, ext, conv);
  }

  /** A column keeps being found, one place further to the front, when the one before it goes. */
  lemma FoundAfterRemove(cols: seq<Header>, k: nat, name: string)
    requires k < |cols| && FindCol(cols, name) == Success(k + 1)
    ensures FindCol(RemoveAt(cols, k), name) == Success(k)
  {
    FindColFacts(cols, name);
    var rest := RemoveAt(cols, k);
    assert forall j | 0 <= j < |rest| :: rest[j] == if j < k then cols[j] else cols[j + 1];
    FindColIs(rest, name, k);
  }

  lemma CreatedReads(ci: ColumnInfo)
    ensures ReadTdim(CreatedHeader(ci)).Success?
  {
  }

  // ------------------------------------------------------------------------------------------
  // All columns

  /** The names that the overload without names passes on are those in the entries at the places of the columns; it
      fails exactly if there are not enough entries. */
  lemma AllNamesExactly(s: State)
    ensures var r, n := AllNames(s), |s.data.cols|;
            && (n > |s.cache| ==> r == Failure(OutOfRange))
            && (n <= |s.cache| ==>
                  r.Success? && |r.value| == n && forall k | 0 <= k < n :: r.value[k] == s.cache[k].ttype)
  {
  }

  /** From a coherent source the overload without names passes on the names of all columns. */
  lemma AllNamesCoherent(s: State)
    requires Coherent(s)
    ensures AllNames(s) == Success(seq(|s.data.cols|, k requires 0 <= k < |s.data.cols| => s.data.cols[k].ttype))
  {
    LayoutSize(s.data.cols);
    var names := seq(|s.data.cols|, k requires 0 <= k < |s.data.cols| => s.data.cols[k].ttype);
    assert AllNames(s).value == names;
  }

  /** After a deletion by name it passes on the deleted name instead of the last one, so that copying all columns
      fails, unless the deleted column was the last. */
  lemma StaleCopyAll(s: State, d: State, gone: string, how: Policy, ext: Extension, conv: Conversion)
    requires Coherent(s) && Has(s.data.cols, gone) && Deletable(d, how) && Legal(conv)
    ensures var s', k := DeleteNamed(s, gone).0, FindCol(s.data.cols, gone).value;
            && Legible(s') && AllNames(s').Success?
            && (k < |s'.data.cols| ==> CopyColumns(s', d, AllNames(s').value, how, ext, conv).1.Failure?)
            && (k == |s'.data.cols| ==> forall j | 0 <= j < k :: AllNames(s').value[j] == s'.data.cols[j].ttype)
  {
    hide FindCol, Layout, PlanFrom, CopyFrom, Enlarged, DeleteNamed, WellFormed;
    var s', k := DeleteNamed(s, gone).0, FindCol(s.data.cols, gone).value;
    CoherentNumbered(s);
    DeleteNamedOutcome(s, gone);
    LayoutSize(s.data.cols);
    DescribableRemove(s.data.cols, k);
    FindColFacts(s.data.cols, gone);
    var names := AllNames(s').value;
    if k < |s'.data.cols| {
      FindColLower(s'.data.cols, names[k], gone);
      assert !Listed(s', names[k]);
      PlanSucceeds(s', d, names, how, Plan([], []));
    }
  }
}
