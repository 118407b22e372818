/** What the flags of copy_columns mean, bit by bit: misfits/table.hpp and misfits/table.cc. */
module CopyFlags {
  import opened Results
  import opened Columns
  import opened Stores
  import opened TableSpecs
  import opened CopySpecs
  import opened CopyContracts
  import opened CopySuccess

  /** A call between two tables that can be described, the destination with its entries in order, which finds all is
      well. */
  ghost predicate Copied(s: State, d: State, names: seq<string>, how: bv8, conv: Conversion) {
    && Legible(s) && Legible(d) && InOrder(d) && Legal(conv) && names != []
    && CopyFlagged(s, d, names, how, conv).1.Success?
  }

  /** What PolicyOf and ExtensionOf make of each byte. */
  lemma Bits(how: bv8)
    ensures PolicyOf(how) == if how & 15 == 1 then NoDuplicates else if how & 15 == 2 then Replace
                             else if how & 15 == 3 then OverWrite else Unknown
    ensures ExtensionOf(how) == if how & 16 != 0 then Always else if how & 32 != 0 then IfEmpty else Never
  {
  }

  lemma CopiedAs(s: State, d: State, names: seq<string>, how: bv8, conv: Conversion, policy: Policy)
    requires Copied(s, d, names, how, conv)
    requires policy == if how & 15 == 1 then NoDuplicates else if how & 15 == 2 then Replace
                       else if how & 15 == 3 then OverWrite else Unknown
    ensures Succeeds(s, d, names, policy, ExtensionOf(how), conv) && Legible(s) && Legible(d) && Legal(conv)
    ensures names != []
    ensures CopyFlagged(s, d, names, how, conv) == CopyColumns(s, d, names, policy, ExtensionOf(how), conv)
  {
    hide CopyColumns, PolicyOf, ExtensionOf, Legal;
    Bits(how);
  }

  /** The columns are the old ones in `cs`, with their headers, and behind them one for each name, made from the
      source's entry for it; and of a name that the source knows there is no other column, old or new. */
  ghost predicate OneForEach(s: State, cs: seq<ColumnData>, names: seq<string>, cols: seq<Header>) {
    && AllListed(s, names) && |cols| == |cs| + |names|
    && cols[..|cs|] == Headers(cs)
    && (forall i | 0 <= i < |names| :: cols[|cs|..][i] == CreatedHeader(Entry(s, names[i])))
    && (forall i | 0 <= i < |names| && Knows(s, names[i]) :: OnlyAt(cols, names[i], |cs| + i))
  }

  /** Column k has the name, and no other. */
  predicate OnlyAt(cols: seq<Header>, name: string, k: nat) {
    forall j | 0 <= j < |cols| :: Matches(cols[j], name) <==> j == k
  }

  /** With 2 in the low four bits a successful copy has deleted the columns that the names find, and keeps the others
      in their order. */
  lemma ReplaceFlag(s: State, d: State, names: seq<string>, how: bv8, conv: Conversion)
    requires Copied(s, d, names, how, conv) && how & 15 == 2
    ensures OneForEach(s, Survivors(ColumnsOf(d.data), d.data.cols, names), names,
                       CopyFlagged(s, d, names, how, conv).0.data.cols)
  {
    hide Copied, CopyFlagged, CopyColumns, Created, Survivors, ColumnsOf, Headers, Succeeds, Listed, Entry, Knows,
         OneForEach, CreatedHeader, FindCol;
    CopiedAs(s, d, names, how, conv, Replace);
    CopyLayout(s, d, names, Replace, ExtensionOf(how), conv);
    CreatedAll(s, d.data.cols, names);
    NewBehindOld(s, Survivors(ColumnsOf(d.data), d.data.cols, names), Created(s, d.data.cols, names, Replace), names);
  }

  lemma CreatedAll(s: State, cols: seq<Header>, names: seq<string>)
    requires AllListed(s, names) && names != []
    ensures |Created(s, cols, names, Replace)| == |names|
    ensures forall i | 0 <= i < |names| :: Created(s, cols, names, Replace)[i] == CreatedHeader(Entry(s, names[i]))
  {
    hide Listed, Entry, CreatedHeader, Created;
    CreatedAt(s, cols, names, 0);
    forall i | 0 <= i < |names|
      ensures Created(s, cols, names, Replace)[i] == CreatedHeader(Entry(s, names[i]))
    {
      CreatedAt(s, cols, names, i);
    }
  }

  /** A name that is found in columns of which one was made for it is found there and nowhere else. */
  lemma NewBehindOld(s: State, cs: seq<ColumnData>, b: seq<Header>, names: seq<string>)
    requires AllListed(s, names) && |b| == |names|
    requires forall i | 0 <= i < |names| :: b[i] == CreatedHeader(Entry(s, names[i]))
    requires forall i | 0 <= i < |names| && Knows(s, names[i]) :: Has(Headers(cs) + b, names[i])
    ensures OneForEach(s, cs, names, Headers(cs) + b)
  {
    hide CreatedHeader, Listed, Entry, Knows, Has, OnlyAt, Headers;
    SameLength(cs);
    var cols := Headers(cs) + b;
    assert cols[..|cs|] == Headers(cs) && cols[|cs|..] == b;
    forall i | 0 <= i < |names| && Knows(s, names[i])
      ensures OnlyAt(Headers(cs) + b, names[i], |cs| + i)
    {
      BehindAt(s, Headers(cs), b, names[i], i);
    }
  }

  lemma BehindAt(s: State, a: seq<Header>, b: seq<Header>, name: string, i: nat)
    requires Listed(s, name) && Knows(s, name) && i < |b| && b[i] == CreatedHeader(Entry(s, name))
    requires Has(a + b, name)
    ensures OnlyAt(a + b, name, |a| + i)
  {
    hide CreatedHeader, Listed, Entry, Knows, FindCol, OnlyAt;
    KnownMatch(s, name);
    assert (a + b)[|a| + i] == b[i];
    OnlyMatch(a + b, name, |a| + i);
  }

  lemma SameLength(cs: seq<ColumnData>)
    ensures |Headers(cs)| == |cs|
  {
  }

  lemma KnownMatch(s: State, name: string)
    requires Listed(s, name) && Knows(s, name)
    ensures Matches(CreatedHeader(Entry(s, name)), name)
  {
  }

  lemma OnlyMatch(cols: seq<Header>, name: string, k: nat)
    requires Has(cols, name) && k < |cols| && Matches(cols[k], name)
    ensures OnlyAt(cols, name, k)
  {
    FindColFacts(cols, name);
  }

  /** A column made from the source's entry for a name that the destination does not have. */
  predicate MadeForMissing(s: State, cols: seq<Header>, names: seq<string>, h: Header) {
    exists i :: 0 <= i < |names| && !Has(cols, names[i]) && Listed(s, names[i])
                && h == CreatedHeader(Entry(s, names[i]))
  }

  /** With 3 every old column keeps its place and its header. New columns come behind them, only for names that the
      destination does not have. */
  lemma OverWriteFlag(s: State, d: State, names: seq<string>, how: bv8, conv: Conversion)
    requires Copied(s, d, names, how, conv) && how & 15 == 3
    ensures var cols := CopyFlagged(s, d, names, how, conv).0.data.cols;
            && d.data.cols <= cols && AllListed(s, names)
            && (forall j | |d.data.cols| <= j < |cols| :: MadeForMissing(s, d.data.cols, names, cols[j]))
            && (forall i | 0 <= i < |names| && Has(d.data.cols, names[i]) && Knows(s, names[i]) ::
                  FindCol(cols, names[i]) == FindCol(d.data.cols, names[i]))
  {
    hide Copied, CopyFlagged, CopyColumns, Created, ColumnsOf, Headers, Succeeds, Listed, Entry, Knows, CreatedHeader,
         Creates, FindCol;
    CopiedAs(s, d, names, how, conv, OverWrite);
    CopyLayout(s, d, names, OverWrite, ExtensionOf(how), conv);
    SameHeaders(d.data);
    var created := Created(s, d.data.cols, names, OverWrite);
    var cols := CopyFlagged(s, d, names, how, conv).0.data.cols;
    assert cols == d.data.cols + created;
    forall j | |d.data.cols| <= j < |cols|
      ensures MadeForMissing(s, d.data.cols, names, cols[j])
    {
      var i := CreatedFor(s, d.data.cols, names, OverWrite, j - |d.data.cols|);
      CreatesMissing(d.data.cols, names[i]);
    }
    forall i | 0 <= i < |names| && Has(d.data.cols, names[i]) && Knows(s, names[i])
      ensures FindCol(cols, names[i]) == FindCol(d.data.cols, names[i])
    {
      FoundInOld(d.data.cols, created, names[i]);
    }
  }

  lemma CreatesMissing(cols: seq<Header>, name: string)
    requires Creates(cols, name, OverWrite)
    ensures !Has(cols, name)
  {
  }

  lemma SameHeaders(t: TableData)
    requires Sound(t)
    ensures Headers(ColumnsOf(t)) == t.cols
  {
  }

  lemma FoundInOld(a: seq<Header>, b: seq<Header>, name: string)
    requires Has(a + b, name) && Has(a, name)
    ensures FindCol(a + b, name) == FindCol(a, name)
  {
    FindColFacts(a + b, name);
    FindColFacts(a, name);
    var k := FindCol(a, name).value;
    assert (a + b)[k] == a[k];
  }

  /** Each created column is made for a name. */
  lemma {:induction false} CreatedFor(s: State, cols: seq<Header>, names: seq<string>, how: Policy, k: nat)
    returns (i: nat)
    requires AllListed(s, names) && k < |Created(s, cols, names, how)|
    ensures i < |names| && Creates(cols, names[i], how)
    ensures Created(s, cols, names, how)[k] == CreatedHeader(Entry(s, names[i]))
  {
    hide CreatedHeader, Listed, Entry, Creates;
    ListedCons(s, names);
    var one := CreatedOne(s, cols, names[0], how);
    if k < |one| {
      i := 0;
    } else {
      i := CreatedFor(s, cols, names[1..], how, k - |one|);
      i := i + 1;
    }
  }

  /** With any other low bits a name that the destination has makes the call fail and leaves the destination as it was:
      with 1 as a duplicate, else because the flag is unknown. A copy that succeeds has kept every old column, and has
      made a new one for each name. */
  lemma DuplicateFlag(s: State, d: State, names: seq<string>, how: bv8, conv: Conversion, i: nat)
    requires Legible(s) && Legible(d) && Legal(conv) && how & 15 != 2 && how & 15 != 3
    requires i < |names| && Listed(s, names[i]) && Has(d.data.cols, names[i])
    requires forall m | 0 <= m < i :: Listed(s, names[m]) && !Has(d.data.cols, names[m])
    ensures CopyFlagged(s, d, names, how, conv) == (d, Failure(if how & 15 == 1 then Duplicate else UnknownFlag))
  {
    hide FindCol, CreatedHeader, PolicyOf, ExtensionOf;
    Bits(how);
    StopsAtDuplicate(s, d, names, PolicyOf(how), Plan([], []), i);
  }

  lemma {:induction false} StopsAtDuplicate(s: State, d: State, names: seq<string>, how: Policy, p: Plan, i: nat)
    requires Sound(d.data) && AllWellFormed(p.created) && how != Replace && how != OverWrite
    requires i < |names| && Listed(s, names[i]) && Has(d.data.cols, names[i])
    requires forall m | 0 <= m < i :: Listed(s, names[m]) && !Has(d.data.cols, names[m])
    ensures PlanFrom(s, d, names, how, p).0 == d
    ensures PlanFrom(s, d, names, how, p).2 == Failure(if how == NoDuplicates then Duplicate else UnknownFlag)
    decreases i
  {
    hide FindCol, CreatedHeader, Sound;
    if i > 0 {
      var (d1, p1, st) := PlanOne(s, d, names[0], how, p);
      assert d1 == d && st.Success?;
      assert forall m | 0 <= m < i - 1 :: names[1..][m] == names[m + 1];
      StopsAtDuplicate(s, d, names[1..], how, p1, i - 1);
    }
  }

  lemma NoDuplicateFlag(s: State, d: State, names: seq<string>, how: bv8, conv: Conversion)
    requires Copied(s, d, names, how, conv) && how & 15 != 2 && how & 15 != 3
    ensures var cols := CopyFlagged(s, d, names, how, conv).0.data.cols;
            && d.data.cols <= cols && |cols| == |d.data.cols| + |names| && AllListed(s, names)
            && forall i | 0 <= i < |names| ::
                 !Has(d.data.cols, names[i]) && cols[|d.data.cols| + i] == CreatedHeader(Entry(s, names[i]))
  {
    hide CopyColumns, CopyFlagged, PlanFrom, Created, Listed, Entry, CreatedHeader, FindCol, ColumnsOf, Headers;
    var policy := if how & 15 == 1 then NoDuplicates else Unknown;
    CopiedAs(s, d, names, how, conv, policy);
    SuccessPhases(s, d, names, policy, ExtensionOf(how), conv);
    PlanSucceeds(s, d, names, policy, Plan([], []));
    CopyLayout(s, d, names, policy, ExtensionOf(how), conv);
    SameHeaders(d.data);
    forall i | 0 <= i < |names|
      ensures |Created(s, d.data.cols, names, policy)| == |names|
      ensures Created(s, d.data.cols, names, policy)[i] == CreatedHeader(Entry(s, names[i]))
    {
      AllCreated(s, d.data.cols, names, policy, i);
    }
  }

  lemma {:induction false} AllCreated(s: State, cols: seq<Header>, names: seq<string>, how: Policy, i: nat)
    requires AllListed(s, names) && i < |names|
    requires forall m | 0 <= m < |names| :: !Has(cols, names[m])
    ensures |Created(s, cols, names, how)| == |names|
    ensures Created(s, cols, names, how)[i] == CreatedHeader(Entry(s, names[i]))
  {
    hide FindCol, Listed, Entry, CreatedHeader;
    ListedCons(s, names);
    assert Has(cols, names[0]) == false;
    assert forall m | 0 <= m < |names[1..]| :: names[1..][m] == names[m + 1];
    if i > 0 {
      AllCreated(s, cols, names[1..], how, i - 1);
    } else if |names| > 1 {
      AllCreated(s, cols, names[1..], how, 0);
    }
  }

  /** A call without names does nothing, whatever the flags. */
  lemma NoNames(s: State, d: State, how: bv8, conv: Conversion)
    requires Legible(s) && Sound(d.data) && Legal(conv)
    ensures CopyFlagged(s, d, [], how, conv) == (d, Success(()))
  {
  }

  /** With 16 the destination has afterwards as many rows as the longer of both tables had; with 32 but not 16 it has
      got new rows only if it was empty; with neither its row count stays. No rows are ever taken away. */
  lemma RowFlags(s: State, d: State, names: seq<string>, how: bv8, conv: Conversion)
    requires Copied(s, d, names, how, conv)
    ensures var n, m, now := |s.data.rows|, |d.data.rows|, |CopyFlagged(s, d, names, how, conv).0.data.rows|;
            && (how & 16 != 0 ==> now == if n > m then n else m)
            && (how & 16 == 0 && how & 32 != 0 ==> now == if m == 0 then n else m)
            && (how & 16 == 0 && how & 32 == 0 ==> now == m)
  {
    hide CopyColumns, CopyFlagged, Created, Remaining, AllListed;
    Bits(how);
    var policy := if how & 15 == 1 then NoDuplicates else if how & 15 == 2 then Replace
                  else if how & 15 == 3 then OverWrite else Unknown;
    CopiedAs(s, d, names, how, conv, policy);
    CopyLayout(s, d, names, policy, ExtensionOf(how), conv);
  }
}
