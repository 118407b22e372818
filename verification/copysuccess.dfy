/** Exactly when copy_columns succeeds. */
module CopySuccess {
  import opened Results
  import opened Bytes
  import opened Columns
  import opened Stores
  import opened TableSpecs
  import opened CopySpecs
  import opened CopyContracts

  // ------------------------------------------------------------------------------------------
  // Counting the columns of a name

  function Occurrences(names: seq<string>, name: string): nat {
    if names == [] then 0 else (if Lower(names[0]) == Lower(name) then 1 else 0) + Occurrences(names[1..], name)
  }

  lemma OccursAt(names: seq<string>, i: nat)
    requires i < |names|
    ensures Occurrences(names, names[i]) >= 1
  {
    if i > 0 {
      OccursAt(names[1..], i - 1);
    }
  }

  // ------------------------------------------------------------------------------------------
  // Planning

  ghost predicate PolicyAllows(cols: seq<Header>, names: seq<string>, how: Policy) {
    how == NoDuplicates || how == Unknown ==> forall i | 0 <= i < |names| :: !Has(cols, names[i])
  }

  /** Nothing stops a policy from making room for the names. */
  predicate RoomFor(d: State, names: seq<string>, how: Policy)
    requires Sound(d.data)
  {
    how == Replace ==> Reached(d, names)
  }

  lemma PlanOneSucceeds(s: State, d: State, name: string, how: Policy, p: Plan)
    requires Deletable(d, how) && AllWellFormed(p.created)
    ensures PlanOne(s, d, name, how, p).2.Success? <==>
              && Listed(s, name) && (how == NoDuplicates || how == Unknown ==> !Has(d.data.cols, name))
              && (how == Replace ==> Removable(d, name))
  {
    hide FindCol, DeleteNamed, Sound, WellFormed, CreatedHeader;
    if how == Replace {
      DeleteNamedOutcome(d, name);
    }
  }

  /** Planning succeeds exactly if the source has an entry for every name, and the policy has nothing against any
      and can make room for all. */
  lemma {:induction false} PlanSucceeds(s: State, d: State, names: seq<string>, how: Policy, p: Plan)
    requires Deletable(d, how) && AllWellFormed(p.created)
    ensures PlanFrom(s, d, names, how, p).2.Success? <==>
              AllListed(s, names) && PolicyAllows(d.data.cols, names, how) && RoomFor(d, names, how)
    decreases |names|
  {
    hide PlanOne, Has, Listed, Removable, DeleteNamed, Sound, InOrder, WellFormed;
    if how == Replace {
      PlanDeletes(s, d, names, p);
    } else if names != [] {
      var name, rest := names[0], names[1..];
      assert names == [name] + rest;
      ListedCons(s, names);
      PlanOneSucceeds(s, d, name, how, p);
      var (d1, p1, st) := PlanOne(s, d, name, how, p);
      PlanOneOutcome(s, d, name, how, p);
      if st.Success? {
        PlanSucceeds(s, d1, rest, how, p1);
        if how == NoDuplicates || how == Unknown {
          assert d1 == d;
          assert forall i | 0 <= i < |names| :: i == 0 || names[i] == rest[i - 1];
          assert forall i | 0 <= i < |rest| :: rest[i] == names[i + 1];
        }
      } else {
        assert !AllListed(s, names) || !PolicyAllows(d.data.cols, names, how);
      }
    }
  }

  /** What planning leaves of the columns of any name, and that it leaves the rest describable. */
  lemma {:induction false} PlanCounts(s: State, d: State, names: seq<string>, how: Policy, p: Plan, name: string)
    requires Deletable(d, how) && Describable(d.data.cols) && AllWellFormed(p.created)
    requires PlanFrom(s, d, names, how, p).2.Success?
    ensures var cols := PlanFrom(s, d, names, how, p).0.data.cols;
            && AllWellFormed(cols) && Describable(cols)
            && Count(cols, name) ==
                 if how == Replace && Occurrences(names, name) > 0 && Count(d.data.cols, name) == 1 then 0
                 else Count(d.data.cols, name)
    decreases |names|
  {
    hide PlanOne, Listed, FindCol, DeleteNamed, WellFormed, ReadTdim, Matches;
    if names != [] {
      var n := names[0];
      var (d1, p1, st) := PlanOne(s, d, n, how, p);
      PlanOneOutcome(s, d, n, how, p);
      CountFinds(d.data.cols, n);
      if how == Replace && Has(d.data.cols, n) {
        DeleteNamedOutcome(d, n);
        var k := FindCol(d.data.cols, n).value;
        DescribableRemove(d.data.cols, k);
        CountRemove(d.data.cols, k, name);
        NamedCount(d.data.cols, n, name);
      }
      if Lower(n) == Lower(name) {
        CountLower(d.data.cols, n, name);
      }
      PlanCounts(s, d1, names[1..], how, p1, name);
    }
  }

  lemma NamedCount(cols: seq<Header>, n: string, name: string)
    requires Has(cols, n)
    ensures Matches(cols[FindCol(cols, n).value], name) <==> Lower(n) == Lower(name)
  {
    FindColFacts(cols, n);
  }

  lemma CreatesLower(cols: seq<Header>, a: string, b: string, how: Policy)
    requires Lower(a) == Lower(b)
    ensures Creates(cols, a, how) == Creates(cols, b, how)
  {
    FindColLower(cols, a, b);
  }

  /** How many of the created columns have a name, if the source knows all names. */
  lemma {:induction false} CreatedCount(s: State, cols: seq<Header>, names: seq<string>, how: Policy, name: string)
    requires AllListed(s, names) && AllKnown(s, names)
    ensures Count(Created(s, cols, names, how), name)
         == if Creates(cols, name, how) then Occurrences(names, name) else 0
  {
    hide Creates, FindCol, Listed, Entry, CreatedHeader, Lower;
    if names != [] {
      var n, rest := names[0], Created(s, cols, names[1..], how);
      ListedCons(s, names);
      KnownCons(s, names);
      CreatedCount(s, cols, names[1..], how, name);
      var one := CreatedOne(s, cols, n, how);
      CountConcat(one, rest, name);
      assert Count(one, name) == if Creates(cols, n, how) && Lower(n) == Lower(name) then 1 else 0 by {
        CreatedName(s, cols, n, how, name);
      }
      if Lower(n) == Lower(name) {
        CreatesLower(cols, n, name, how);
      }
    }
  }

  lemma KnownCons(s: State, names: seq<string>)
    requires names != [] && AllKnown(s, names)
    ensures Knows(s, names[0]) && AllKnown(s, names[1..])
  {
    hide Knows;
    assert forall i | 0 <= i < |names[1..]| :: names[1..][i] == names[i + 1];
  }

  lemma CreatedName(s: State, cols: seq<Header>, n: string, how: Policy, name: string)
    requires Listed(s, n) && Knows(s, n)
    ensures Count(CreatedOne(s, cols, n, how), name)
         == if Creates(cols, n, how) && Lower(n) == Lower(name) then 1 else 0
  {
    var h := CreatedHeader(Entry(s, n));
    assert [h][1..] == [];
    assert Matches(h, name) <==> Lower(n) == Lower(name);
  }

  lemma SameEntry(s: State, n: string, name: string)
    requires Lower(n) == Lower(name)
    ensures Listed(s, n) == Listed(s, name) && (Listed(s, n) ==> Entry(s, n) == Entry(s, name))
  {
    FindColLower(s.data.cols, n, name);
  }

  lemma CreatedOneIs(s: State, cols: seq<Header>, n: string, how: Policy, name: string)
    requires Listed(s, n) && Knows(s, n) && Listed(s, name)
    ensures forall k | 0 <= k < |CreatedOne(s, cols, n, how)| && Matches(CreatedOne(s, cols, n, how)[k], name) ::
              CreatedOne(s, cols, n, how)[k] == CreatedHeader(Entry(s, name))
  {
    hide Creates, TformText, FindCol;
    if Lower(n) == Lower(name) {
      SameEntry(s, n, name);
    }
  }

  /** Any created column of a name is the one made from that name's entry. */
  lemma {:induction false} CreatedIs(s: State, cols: seq<Header>, names: seq<string>, how: Policy, k: nat, name: string)
    requires AllListed(s, names) && AllKnown(s, names) && Listed(s, name)
    requires k < |Created(s, cols, names, how)| && Matches(Created(s, cols, names, how)[k], name)
    ensures Created(s, cols, names, how)[k] == CreatedHeader(Entry(s, name))
  {
    hide CreatedOne, CreatedHeader, Listed, Entry, Knows, Matches;
    ListedCons(s, names);
    KnownCons(s, names);
    var n := names[0];
    CreatedOneIs(s, cols, n, how, name);
    var one, rest := CreatedOne(s, cols, n, how), Created(s, cols, names[1..], how);
    if k < |one| {
      assert Created(s, cols, names, how)[k] == one[k];
    } else {
      assert Created(s, cols, names, how)[k] == rest[k - |one|];
      CreatedIs(s, cols, names[1..], how, k - |one|, name);
    }
  }

  // ------------------------------------------------------------------------------------------
  // Copying

  ghost predicate Copyable(src: TableData, cols: seq<Header>, ci: ColumnInfo, conv: Conversion)
    requires Sound(src) && Describable(src.cols) && AllWellFormed(cols) && Describable(cols)
  {
    && Has(cols, ci.ttype) && 1 <= ci.colnum <= |src.cols|
    && conv.possible(CellTypeOf(src.cols[ci.colnum - 1]), CellTypeOf(cols[FindCol(cols, ci.ttype).value]))
  }

  lemma CopyOneSucceeds(src: TableData, d: State, ci: ColumnInfo, conv: Conversion)
    requires Sound(src) && Describable(src.cols) && Coherent(d) && Legal(conv)
    ensures CopyOne(src, d, ci, conv).1.Success? <==> Copyable(src, d.data.cols, ci, conv)
  {
    hide CellTypeOf, FindCol, Layout, ReadTdim, WellFormed, RowOk, CopiedCell;
    CoherentNumbered(d);
  }

  lemma {:induction false} CopyFromSucceeds(src: TableData, d: State, cis: seq<ColumnInfo>, conv: Conversion)
    requires Sound(src) && Describable(src.cols) && Coherent(d) && Legal(conv)
    ensures CopyFrom(src, d, cis, conv).1.Success? <==>
              forall i | 0 <= i < |cis| :: Copyable(src, d.data.cols, cis[i], conv)
    decreases |cis|
  {
    hide Copyable, CopyOne, Sound, Layout;
    if cis != [] {
      CopyOneSucceeds(src, d, cis[0], conv);
      var (d1, st) := CopyOne(src, d, cis[0], conv);
      if st.Success? {
        CopyFromSucceeds(src, d1, cis[1..], conv);
        assert forall i | 0 <= i < |cis| :: i == 0 || cis[i] == cis[1..][i - 1];
        assert forall i | 0 <= i < |cis[1..]| :: cis[1..][i] == cis[i + 1];
      }
    }
  }

  // ------------------------------------------------------------------------------------------

  /** The destination column of a name: a created one, or one that is overwritten. */
  function Destination(s: State, cols: seq<Header>, name: string, how: Policy): Header
    requires Listed(s, name)
  {
    if Creates(cols, name, how) then CreatedHeader(Entry(s, name))
    else cols[FindCol(cols, name).value]
  }

  lemma DestinationLegal(s: State, cols: seq<Header>, name: string, how: Policy)
    requires Listed(s, name) && AllWellFormed(cols) && Describable(cols)
    ensures WellFormed(Destination(s, cols, name, how)) && ReadTdim(Destination(s, cols, name, how)).Success?
  {
    hide FindCol, Listed, WellFormed;
  }

  /** What a caller can check beforehand for one name: the source has it, with an entry; the policy does not
      forbid it; the destination does not have it twice; a name is repeated only for a column that is
      overwritten; and the types convert. */
  ghost predicate Fine(s: State, cols: seq<Header>, names: seq<string>, how: Policy, conv: Conversion, name: string)
    requires Legible(s) && AllWellFormed(cols) && Describable(cols)
  {
    && Listed(s, name)
    && (how == NoDuplicates || how == Unknown ==> !Has(cols, name))
    && FindCol(cols, name) != Failure(ColumnNotUnique)
    && (Creates(cols, name, how) ==> Occurrences(names, name) == 1)
    && (DestinationLegal(s, cols, name, how);
        conv.possible(CellTypeOf(s.data.cols[Source(s, name)]), CellTypeOf(Destination(s, cols, name, how))))
  }

  /** The columns in which the copying loop looks names up. */
  lemma FinalColumns(s: State, d: State, names: seq<string>, how: Policy, ext: Extension)
    requires Legible(s) && Deletable(d, how) && Describable(d.data.cols)
    requires PlanFrom(s, d, names, how, Plan([], [])).2.Success?
    ensures AllListed(s, names)
    ensures var (d1, p, _) := PlanFrom(s, d, names, how, Plan([], []));
            var d2 := Prepared(s, d, names, how, ext);
            && p == Plan(Sources(s, names), Created(s, d.data.cols, names, how))
            && Coherent(d2) && d2.data.cols == d1.data.cols + p.created
            && (how != Replace ==> d1 == d)
  {
    hide PlanFrom, Created, Listed, Layout, WellFormed;
    PlanPlans(s, d, names, how, Plan([], []));
    PlanCounts(s, d, names, how, Plan([], []), "");
    if how != Replace {
      PlanLeavesDestination(s, d, names, how, Plan([], []));
    }
    var (d1, p, st) := PlanFrom(s, d, names, how, Plan([], []));
    assert p.created == Created(s, d.data.cols, names, how) && p.src == Sources(s, names);
    CreatedDescribable(s, d.data.cols, names, how);
    EnlargedCells(d1.data, p.created, |s.data.rows|, ext);
    var cols := d1.data.cols + p.created;
    assert AllWellFormed(cols) && Describable(cols);
    RefreshedCoherent(Enlarged(d1.data, p.created, |s.data.rows|, ext));
  }

  lemma CreatedDescribable(s: State, cols: seq<Header>, names: seq<string>, how: Policy)
    ensures Describable(Created(s, cols, names, how))
  {
    hide Creates, Colinfo, TformText, ParseTform;
  }

  /** If the source knows all names, a name is found in the final columns exactly if the destination does not
      have it twice, and if it is created only once; and then where one would expect. */
  lemma FinalFinds(s: State, d: State, names: seq<string>, how: Policy, ext: Extension, i: nat)
    requires Legible(s) && Deletable(d, how) && Describable(d.data.cols) && i < |names| && AllKnown(s, names)
    requires PlanFrom(s, d, names, how, Plan([], [])).2.Success?
    ensures Listed(s, names[i])
    ensures var cols := Prepared(s, d, names, how, ext).data.cols;
            && (Has(cols, names[i]) <==>
                  && FindCol(d.data.cols, names[i]) != Failure(ColumnNotUnique)
                  && (Creates(d.data.cols, names[i], how) ==> Occurrences(names, names[i]) == 1))
            && (Has(cols, names[i]) ==>
                  cols[FindCol(cols, names[i]).value] == Destination(s, d.data.cols, names[i], how))
  {
    hide PlanFrom, Created, Listed, Entry, Layout, WellFormed, FindCol, Sound, Prepared, CreatedHeader, Knows, Numbered,
         ReadTdim, Matches;
    var name := names[i];
    FinalColumns(s, d, names, how, ext);
    var (d1, p, _) := PlanFrom(s, d, names, how, Plan([], []));
    var cols := d1.data.cols + p.created;
    PlanCounts(s, d, names, how, Plan([], []), name);
    CreatedCount(s, d.data.cols, names, how, name);
    CountConcat(d1.data.cols, p.created, name);
    OccursAt(names, i);
    CountFinds(d.data.cols, name);
    CountFinds(cols, name);
    if Has(cols, name) {
      FoundWhere(d1.data.cols, p.created, name);
      var k := FindCol(cols, name).value;
      if Creates(d.data.cols, name, how) {
        CreatedIs(s, d.data.cols, names, how, k - |d1.data.cols|, name);
      }
    }
  }

  lemma FoundWhere(a: seq<Header>, b: seq<Header>, name: string)
    requires Has(a + b, name)
    ensures var k := FindCol(a + b, name).value;
            && (Count(a, name) == 0 ==> k >= |a| && Matches(b[k - |a|], name))
            && (Count(a, name) == 1 ==> FindCol(a, name) == Success(k))
  {
    FindColFacts(a + b, name);
    var k := FindCol(a + b, name).value;
    if k < |a| {
      assert a[k] == (a + b)[k];
      assert forall j | 0 <= j < |a| :: a[j] == (a + b)[j];
      FindColIs(a, name, k);
    } else {
      assert b[k - |a|] == (a + b)[k];
      assert forall j | 0 <= j < |a| :: a[j] == (a + b)[j];
      FindColNone(a, name);
    }
    CountFinds(a, name);
  }

  lemma FineAllows(s: State, cols: seq<Header>, names: seq<string>, how: Policy, conv: Conversion)
    requires Legible(s) && AllWellFormed(cols) && Describable(cols)
    ensures (forall i | 0 <= i < |names| :: Fine(s, cols, names, how, conv, names[i])) ==>
              AllListed(s, names) && PolicyAllows(cols, names, how)
  {
    hide Layout, Listed, WellFormed, FindCol, Creates, CellTypeOf, Destination;
  }

  /** From a source that knows the names copy_columns succeeds exactly if all is fine with each of them
      and there is room for them. */
  lemma CopySucceeds(s: State, d: State, names: seq<string>, how: Policy, ext: Extension, conv: Conversion)
    requires Legible(s) && AllKnown(s, names) && Deletable(d, how) && Describable(d.data.cols)
    requires Legal(conv) && names != []
    ensures CopyColumns(s, d, names, how, ext, conv).1.Success? <==>
              && RoomFor(d, names, how)
              && forall i | 0 <= i < |names| :: Fine(s, d.data.cols, names, how, conv, names[i])
  {
    hide PlanFrom, CopyFrom, Created, Layout, Listed, Entry, FindCol, Copyable, Enlarged, CellTypeOf, Destination, Fine;
    PlanSucceeds(s, d, names, how, Plan([], []));
    FineAllows(s, d.data.cols, names, how, conv);
    if PlanFrom(s, d, names, how, Plan([], [])).2.Success? {
      FinalColumns(s, d, names, how, ext);
      var d2, cis := Prepared(s, d, names, how, ext), Sources(s, names);
      CopyFromSucceeds(s.data, d2, cis, conv);
      forall i | 0 <= i < |names|
        ensures Copyable(s.data, d2.data.cols, cis[i], conv) <==> Fine(s, d.data.cols, names, how, conv, names[i])
      {
        FineIsCopyable(s, d, names, how, ext, conv, i);
      }
    }
  }

  lemma KnownEntry(s: State, name: string)
    requires Listed(s, name) && Knows(s, name)
    ensures Has(s.data.cols, name) && Entry(s, name).colnum == Source(s, name) + 1
    ensures Lower(Entry(s, name).ttype) == Lower(name)
  {
  }

  lemma FineIsCopyable(s: State, d: State, names: seq<string>, how: Policy, ext: Extension, conv: Conversion, i: nat)
    requires Legible(s) && AllKnown(s, names) && Deletable(d, how) && Describable(d.data.cols)
    requires Legal(conv) && i < |names|
    requires PlanFrom(s, d, names, how, Plan([], [])).2.Success? && AllListed(s, names)
    ensures Coherent(Prepared(s, d, names, how, ext))
    ensures Copyable(s.data, Prepared(s, d, names, how, ext).data.cols, Entry(s, names[i]), conv)
       <==> Fine(s, d.data.cols, names, how, conv, names[i])
  {
    hide PlanFrom, Layout, WellFormed, FindCol, Listed, Entry, Sound, Prepared, CellTypeOf, Destination, Creates, Knows,
         Numbered, ReadTdim;
    FinalColumns(s, d, names, how, ext);
    FinalFinds(s, d, names, how, ext, i);
    PlanSucceeds(s, d, names, how, Plan([], []));
    KnownEntry(s, names[i]);
    FindColLower(Prepared(s, d, names, how, ext).data.cols, Entry(s, names[i]).ttype, names[i]);
  }

  // ------------------------------------------------------------------------------------------
  // Sources with any cache

  /** How many columns the destination has of a name when the copying loop starts: those created of the name, and
      those it had, unless Replace has deleted its only one. */
  function FinalCount(s: State, cols: seq<Header>, names: seq<string>, how: Policy, name: string): nat {
    Count(Created(s, cols, names, how), name) +
    if how == Replace && Occurrences(names, name) > 0 && Count(cols, name) == 1 then 0 else Count(cols, name)
  }

  /** The column of a name, if there is just one. */
  function FinalHeader(s: State, cols: seq<Header>, names: seq<string>, how: Policy, name: string): Header
    requires FinalCount(s, cols, names, how, name) == 1
  {
    var created := Created(s, cols, names, how);
    CountFinds(created, name);
    CountFinds(cols, name);
    if Has(created, name) then created[FindCol(created, name).value] else cols[FindCol(cols, name).value]
  }

  lemma FinalLegal(s: State, cols: seq<Header>, names: seq<string>, how: Policy, name: string)
    requires FinalCount(s, cols, names, how, name) == 1 && AllWellFormed(cols) && Describable(cols)
    ensures var h := FinalHeader(s, cols, names, how, name); WellFormed(h) && ReadTdim(h).Success?
  {
    hide Created, FindCol, WellFormed, ReadTdim, Count;
    CreatedDescribable(s, cols, names, how);
    CountFinds(Created(s, cols, names, how), name);
    CountFinds(cols, name);
  }

  /** The same as Fine, in terms of what the source's cache says about the name. */
  ghost predicate FineEntry(s: State, cols: seq<Header>, names: seq<string>, how: Policy, conv: Conversion,
                            name: string)
    requires Legible(s) && AllWellFormed(cols) && Describable(cols)
  {
    && Listed(s, name)
    && (how == NoDuplicates || how == Unknown ==> !Has(cols, name))
    && 1 <= Entry(s, name).colnum <= |s.data.cols|
    && FinalCount(s, cols, names, how, Entry(s, name).ttype) == 1
    && (FinalLegal(s, cols, names, how, Entry(s, name).ttype);
        conv.possible(CellTypeOf(s.data.cols[Entry(s, name).colnum - 1]),
                      CellTypeOf(FinalHeader(s, cols, names, how, Entry(s, name).ttype))))
  }

  lemma FoundInFront(a: seq<Header>, b: seq<Header>, name: string)
    requires Has(a + b, name)
    ensures Has(b, name) ==> (a + b)[FindCol(a + b, name).value] == b[FindCol(b, name).value]
    ensures !Has(b, name) ==> Has(a, name) && FindCol(a + b, name) == FindCol(a, name)
  {
    hide FindCol;
    CountConcat(a, b, name);
    CountFinds(a, name);
    CountFinds(b, name);
    CountFinds(a + b, name);
    FindColFacts(a + b, name);
    if Has(b, name) {
      FindColFacts(b, name);
      var k := FindCol(b, name).value;
      assert (a + b)[|a| + k] == b[k];
    } else {
      FindColFacts(a, name);
      var k := FindCol(a, name).value;
      assert (a + b)[k] == a[k];
    }
  }

  /** A column that Replace leaves is one the destination had. */
  lemma {:induction false} PlanKeepsHeaders(s: State, d: State, names: seq<string>, p: Plan, h: Header)
    requires Deletable(d, Replace) && AllWellFormed(p.created)
    requires h in PlanFrom(s, d, names, Replace, p).0.data.cols
    ensures h in d.data.cols
    decreases |names|
  {
    hide PlanOne, DeleteNamed, FindCol;
    if names != [] {
      var (d1, p1, st) := PlanOne(s, d, names[0], Replace, p);
      PlanOneOutcome(s, d, names[0], Replace, p);
      if st.Success? {
        PlanKeepsHeaders(s, d1, names[1..], p1, h);
      }
      if d1 != d {
        DeleteNamedOutcome(d, names[0]);
      }
    }
  }

  /** The name's column in front of the created ones is the one the destination had. */
  lemma KeptHeader(s: State, d: State, names: seq<string>, how: Policy, name: string)
    requires Deletable(d, how) && Describable(d.data.cols) && PlanFrom(s, d, names, how, Plan([], [])).2.Success?
    requires Has(PlanFrom(s, d, names, how, Plan([], [])).0.data.cols, name) && Has(d.data.cols, name)
    ensures var cols := PlanFrom(s, d, names, how, Plan([], [])).0.data.cols;
            cols[FindCol(cols, name).value] == d.data.cols[FindCol(d.data.cols, name).value]
  {
    hide PlanFrom, FindCol;
    var cols := PlanFrom(s, d, names, how, Plan([], [])).0.data.cols;
    FindColFacts(cols, name);
    FindColFacts(d.data.cols, name);
    if how == Replace {
      PlanKeepsHeaders(s, d, names, Plan([], []), cols[FindCol(cols, name).value]);
    } else {
      PlanLeavesDestination(s, d, names, how, Plan([], []));
    }
  }

  /** From any source, the copying loop finds a name exactly if its final count is one, and then the header
      that FinalHeader says. */
  lemma FinalIs(s: State, d: State, names: seq<string>, how: Policy, ext: Extension, name: string)
    requires Legible(s) && Deletable(d, how) && Describable(d.data.cols)
    requires PlanFrom(s, d, names, how, Plan([], [])).2.Success?
    ensures var cols := Prepared(s, d, names, how, ext).data.cols;
            && (Has(cols, name) <==> FinalCount(s, d.data.cols, names, how, name) == 1)
            && (Has(cols, name) ==>
                  cols[FindCol(cols, name).value] == FinalHeader(s, d.data.cols, names, how, name))
  {
    hide PlanFrom, Created, Listed, Layout, WellFormed, FindCol, Sound, Prepared, Numbered, ReadTdim, Count,
         Occurrences;
    FinalColumns(s, d, names, how, ext);
    var (d1, p, _) := PlanFrom(s, d, names, how, Plan([], []));
    var cols := d1.data.cols + p.created;
    PlanCounts(s, d, names, how, Plan([], []), name);
    CountConcat(d1.data.cols, p.created, name);
    CountFinds(cols, name);
    CountFinds(p.created, name);
    CountFinds(d1.data.cols, name);
    CountFinds(d.data.cols, name);
    if Has(cols, name) {
      FoundInFront(d1.data.cols, p.created, name);
      if !Has(p.created, name) {
        KeptHeader(s, d, names, how, name);
        assert FindCol(cols, name).value < |d1.data.cols|;
      }
    }
  }

  lemma EntryIsCopyable(s: State, d: State, names: seq<string>, how: Policy, ext: Extension, conv: Conversion, i: nat)
    requires Legible(s) && Deletable(d, how) && Describable(d.data.cols) && Legal(conv) && i < |names|
    requires PlanFrom(s, d, names, how, Plan([], [])).2.Success? && AllListed(s, names)
    requires PolicyAllows(d.data.cols, names, how)
    ensures Coherent(Prepared(s, d, names, how, ext))
    ensures Copyable(s.data, Prepared(s, d, names, how, ext).data.cols, Entry(s, names[i]), conv)
       <==> FineEntry(s, d.data.cols, names, how, conv, names[i])
  {
    hide PlanFrom, Layout, WellFormed, FindCol, Listed, Entry, Sound, Prepared, CellTypeOf, FinalHeader, FinalCount,
         Numbered, ReadTdim, Has;
    FinalColumns(s, d, names, how, ext);
    FinalIs(s, d, names, how, ext, Entry(s, names[i]).ttype);
  }

  lemma FineEntryAllows(s: State, cols: seq<Header>, names: seq<string>, how: Policy, conv: Conversion)
    requires Legible(s) && AllWellFormed(cols) && Describable(cols)
    ensures (forall i | 0 <= i < |names| :: FineEntry(s, cols, names, how, conv, names[i])) ==>
              AllListed(s, names) && PolicyAllows(cols, names, how)
  {
    hide Layout, Listed, WellFormed, FindCol, CellTypeOf, FinalHeader, FinalCount;
  }

  /** From any source copy_columns succeeds exactly if all is fine with the entry for each name and there is room for
      them. */
  lemma CopySucceedsAnyway(s: State, d: State, names: seq<string>, how: Policy, ext: Extension, conv: Conversion)
    requires Legible(s) && Deletable(d, how) && Describable(d.data.cols) && Legal(conv) && names != []
    ensures CopyColumns(s, d, names, how, ext, conv).1.Success? <==>
              && RoomFor(d, names, how)
              && forall i | 0 <= i < |names| :: FineEntry(s, d.data.cols, names, how, conv, names[i])
  {
    hide PlanFrom, CopyFrom, Created, Layout, Listed, Entry, FindCol, Copyable, Enlarged, CellTypeOf, FineEntry;
    PlanSucceeds(s, d, names, how, Plan([], []));
    FineEntryAllows(s, d.data.cols, names, how, conv);
    if PlanFrom(s, d, names, how, Plan([], [])).2.Success? {
      FinalColumns(s, d, names, how, ext);
      var d2, cis := Prepared(s, d, names, how, ext), Sources(s, names);
      CopyFromSucceeds(s.data, d2, cis, conv);
      forall i | 0 <= i < |names|
        ensures Copyable(s.data, d2.data.cols, cis[i], conv) <==> FineEntry(s, d.data.cols, names, how, conv, names[i])
      {
        EntryIsCopyable(s, d, names, how, ext, conv, i);
      }
    }
  }

  // ------------------------------------------------------------------------------------------
  // A copy that fails after planning

  /** The number of names copied when planning has succeeded. */
  function CompletedNames(s: State, d: State, names: seq<string>, how: Policy, ext: Extension, conv: Conversion)
    : (m: nat)
    requires Legible(s) && Deletable(d, how) && Describable(d.data.cols) && Legal(conv)
    requires PlanFrom(s, d, names, how, Plan([], [])).2.Success?
    ensures m <= |names|
  {
    FinalColumns(s, d, names, how, ext);
    Completed(s.data, Prepared(s, d, names, how, ext), Sources(s, names), conv)
  }

  /** Once planning has succeeded, the columns and the row count are those of a success, however the copying ends,
      and the cache is coherent. It fails exactly if it stops at a name, whose entry has no single place or no
      conversion; and what has been done by then is what copying the names in front of it does. */
  lemma CopyStops(s: State, d: State, names: seq<string>, how: Policy, ext: Extension, conv: Conversion)
    requires Legible(s) && Deletable(d, how) && Describable(d.data.cols) && Legal(conv) && names != []
    requires PlanFrom(s, d, names, how, Plan([], [])).2.Success?
    ensures AllListed(s, names)
    ensures var (d', st) := CopyColumns(s, d, names, how, ext, conv);
            var m := CompletedNames(s, d, names, how, ext, conv);
            && Coherent(d')
            && d'.data.cols == Headers(Remaining(d.data, names, how)) + Created(s, d.data.cols, names, how)
            && |d'.data.rows| == NewRowCount(|s.data.rows|, |d.data.rows|, ext)
            && (st.Success? <==> m == |names|)
            && (m < |names| ==> !Copyable(s.data, d'.data.cols, Entry(s, names[m]), conv))
            && var (front, done) := CopyFrom(s.data, Prepared(s, d, names, how, ext), Sources(s, names)[..m], conv);
               front == d' && done.Success?
  {
    hide PlanFrom, CopyFrom, CopyColumns, Prepared, Created, Listed, Entry, Layout, Copyable, Completed, Survivors,
         ReadTdim, WellFormed, FindCol, Headers, Remaining, NewRowCount, Sound, Describable, InOrder, Legal;
    LoopOf(s, d, names, how, ext, conv);
    PreparedLayout(s, d, names, how, ext);
    var d2, cis := Prepared(s, d, names, how, ext), Sources(s, names);
    LoopStops(s.data, d2, cis, conv);
    assert CompletedNames(s, d, names, how, ext, conv) == Completed(s.data, d2, cis, conv);
  }

  lemma LoopStops(src: TableData, d: State, cis: seq<ColumnInfo>, conv: Conversion)
    requires Sound(src) && Describable(src.cols) && Coherent(d) && Legal(conv)
    ensures var m, (d', st) := Completed(src, d, cis, conv), CopyFrom(src, d, cis, conv);
            && Coherent(d') && d'.data.cols == d.data.cols && |d'.data.rows| == |d.data.rows|
            && AllWellFormed(d.data.cols) && Describable(d.data.cols)
            && (st.Success? <==> m == |cis|)
            && (m < |cis| ==> !Copyable(src, d.data.cols, cis[m], conv))
            && CopyFrom(src, d, cis[..m], conv).0 == d' && CopyFrom(src, d, cis[..m], conv).1.Success?
  {
    CompletedCopies(src, d, cis, conv);
    StopsAt(src, d, cis, conv);
    CopyKeepsLayout(src, d, cis, conv);
  }

  /** Once planning has succeeded, copy_columns is its copying loop. */
  lemma LoopOf(s: State, d: State, names: seq<string>, how: Policy, ext: Extension, conv: Conversion)
    requires Legible(s) && Deletable(d, how) && Describable(d.data.cols) && Legal(conv) && names != []
    requires PlanFrom(s, d, names, how, Plan([], [])).2.Success?
    ensures AllListed(s, names) && Coherent(Prepared(s, d, names, how, ext))
    ensures CopyColumns(s, d, names, how, ext, conv)
         == CopyFrom(s.data, Prepared(s, d, names, how, ext), Sources(s, names), conv)
  {
    hide PlanFrom, CopyFrom, Created, Listed, Layout, Sound, Enlarged;
    FinalColumns(s, d, names, how, ext);
  }

  lemma CopyKeepsLayout(src: TableData, d: State, cis: seq<ColumnInfo>, conv: Conversion)
    requires Sound(src) && Describable(src.cols) && Coherent(d) && Legal(conv)
    ensures var d' := CopyFrom(src, d, cis, conv).0;
            Coherent(d') && d'.data.cols == d.data.cols && |d'.data.rows| == |d.data.rows|
  {
  }

  lemma {:induction false} StopsAt(src: TableData, d: State, cis: seq<ColumnInfo>, conv: Conversion)
    requires Sound(src) && Describable(src.cols) && Coherent(d) && Legal(conv)
    ensures var m := Completed(src, d, cis, conv);
            m < |cis| ==> !Copyable(src, d.data.cols, cis[m], conv)
    decreases |cis|
  {
    hide Copyable, CopyOne, Sound, Layout;
    if cis != [] {
      CopyOneSucceeds(src, d, cis[0], conv);
      if CopyOne(src, d, cis[0], conv).1.Success? {
        CopyOneCoherent(src, d, cis[0], conv);
        StopsAt(src, CopyOne(src, d, cis[0], conv).0, cis[1..], conv);
      }
    }
  }

  lemma CopyOneCoherent(src: TableData, d: State, ci: ColumnInfo, conv: Conversion)
    requires Sound(src) && Describable(src.cols) && Coherent(d) && Legal(conv)
    ensures var d' := CopyOne(src, d, ci, conv).0;
            Coherent(d') && d'.data.cols == d.data.cols
  {
    hide CopyCol, FindCol, Layout;
  }

  /** The table in which the copying loop starts. */
  lemma PreparedLayout(s: State, d: State, names: seq<string>, how: Policy, ext: Extension)
    requires Legible(s) && Deletable(d, how) && Describable(d.data.cols)
    requires PlanFrom(s, d, names, how, Plan([], [])).2.Success?
    ensures var d2 := Prepared(s, d, names, how, ext);
            && d2.data.cols == Headers(Remaining(d.data, names, how)) + Created(s, d.data.cols, names, how)
            && |d2.data.rows| == NewRowCount(|s.data.rows|, |d.data.rows|, ext)
    ensures var d1 := PlanFrom(s, d, names, how, Plan([], [])).0;
            ColumnsOf(d1.data) == Remaining(d.data, names, how) && |d1.data.rows| == |d.data.rows|
  {
    hide PlanFrom, Created, Listed, Layout, Survivors, Sound;
    FinalColumns(s, d, names, how, ext);
    var (d1, p, _) := PlanFrom(s, d, names, how, Plan([], []));
    if how == Replace {
      PlanDeletes(s, d, names, Plan([], []));
      ProcessedAll(s, d, names);
    } else {
      PlanLeavesDestination(s, d, names, how, Plan([], []));
    }
    EnlargedCells(d1.data, p.created, |s.data.rows|, ext);
    assert Headers(ColumnsOf(d1.data)) == d1.data.cols;
  }

  /** Among the first m names no later one has another column's entry under the same name. */
  predicate InFront(s: State, names: seq<string>, m: nat, i: nat)
    requires AllListed(s, names) && i < m <= |names|
  {
    forall n | i < n < m && Lower(Entry(s, names[n]).ttype) == Lower(Entry(s, names[i]).ttype) ::
      Entry(s, names[n]).colnum == Entry(s, names[i]).colnum
  }

  /** Row r of the column called like an entry holds the converted cell of the entry's column. */
  ghost predicate Holds(s: State, d: State, ci: ColumnInfo, conv: Conversion, r: nat)
    requires Legible(s) && Legal(conv) && r < |s.data.rows| && r < |d.data.rows|
  {
    && Coherent(d) && 1 <= ci.colnum <= |s.data.cols| && Has(d.data.cols, ci.ttype)
    && Arrived(s.data, d.data, ci.colnum, FindCol(d.data.cols, ci.ttype).value, conv, r)
  }

  /** Whether or not the copy then fails: the cells of each name in front of the stop have arrived, if no other
      column came after it under the same name. */
  lemma StoppedNamedCells(s: State, d: State, names: seq<string>, how: Policy, ext: Extension, conv: Conversion,
                          i: nat, r: nat)
    requires Legible(s) && Deletable(d, how) && Describable(d.data.cols) && Legal(conv) && names != []
    requires PlanFrom(s, d, names, how, Plan([], [])).2.Success?
    requires i < CompletedNames(s, d, names, how, ext, conv) && r < |s.data.rows| && AllListed(s, names)
    requires InFront(s, names, CompletedNames(s, d, names, how, ext, conv), i)
    requires r < |CopyColumns(s, d, names, how, ext, conv).0.data.rows|
    ensures Holds(s, CopyColumns(s, d, names, how, ext, conv).0, Entry(s, names[i]), conv, r)
  {
    hide PlanFrom, CopyFrom, CopyColumns, Created, Listed, Entry, Layout, Arrived, FindCol, Prepared, Sound, Copyable,
         CompletedNames;
    CopyStops(s, d, names, how, ext, conv);
    FinalColumns(s, d, names, how, ext);
    var m, d2 := CompletedNames(s, d, names, how, ext, conv), Prepared(s, d, names, how, ext);
    var cis := Sources(s, names)[..m];
    FrontUnrivalled(s, names, m, i);
    CopyFinds(s.data, d2, cis, conv, i);
    EntryArrives(s.data, d2, cis, conv, i, r);
  }

  lemma FrontUnrivalled(s: State, names: seq<string>, m: nat, i: nat)
    requires AllListed(s, names) && i < m <= |names| && InFront(s, names, m, i)
    ensures NoRival(Sources(s, names)[..m], i)
  {
    hide Listed, Entry;
  }

  /** And every other cell is as planning and enlarging have left it: as before, or zero. */
  lemma StoppedOtherCells(s: State, d: State, names: seq<string>, how: Policy, ext: Extension, conv: Conversion,
                          j: nat, r: nat)
    requires Legible(s) && Deletable(d, how) && Describable(d.data.cols) && Legal(conv) && names != []
    requires PlanFrom(s, d, names, how, Plan([], [])).2.Success? && AllListed(s, names)
    requires var d' := CopyColumns(s, d, names, how, ext, conv).0;
             j < |d'.data.cols| && r < |d'.data.rows|
    requires var m := CompletedNames(s, d, names, how, ext, conv);
             var h := CopyColumns(s, d, names, how, ext, conv).0.data.cols[j];
             r >= |s.data.rows| || !Named(h, EntryNames(s, names)[..m])
    ensures var d', old_ := CopyColumns(s, d, names, how, ext, conv).0, Remaining(d.data, names, how);
            && j < |d'.data.rows[r]| && WellFormed(d'.data.cols[j])
            && (j < |old_| ==> |old_[j].cells| == |d.data.rows|)
            && d'.data.rows[r][j] == if j < |old_| && r < |d.data.rows| then old_[j].cells[r]
                                     else Filled(CellBytes(d'.data.cols[j]), 0)
  {
    hide PlanFrom, CopyFrom, CopyColumns, Created, Listed, Entry, Layout, FindCol, CellBytes, Copyable, CompletedNames,
         Survivors;
    CopyStops(s, d, names, how, ext, conv);
    FinalColumns(s, d, names, how, ext);
    PreparedLayout(s, d, names, how, ext);
    var m, d2 := CompletedNames(s, d, names, how, ext, conv), Prepared(s, d, names, how, ext);
    var cis := Sources(s, names)[..m];
    var (d1, p, _) := PlanFrom(s, d, names, how, Plan([], []));
    EnlargedCells(d1.data, p.created, |s.data.rows|, ext);
    assert j < |d1.data.cols| ==> Remaining(d.data, names, how)[j] == ColumnOf(d1.data, j);
    if r < |s.data.rows| {
      forall n | 0 <= n < m
        ensures FindCol(d2.data.cols, cis[n].ttype) != Success(j)
      {
        FindColFacts(d2.data.cols, cis[n].ttype);
        assert EntryNames(s, names)[..m][n] == cis[n].ttype;
      }
    }
    CopyKeeps(s.data, d2, cis, conv, r, j);
  }

  // ------------------------------------------------------------------------------------------
  // Columns copied byte by byte

  /** Equal cell types make a plain copy. */
  lemma SameTypeSameCells(src: TableData, t: TableData, from: int, to: nat, conv: Conversion, r: nat)
    requires Sound(src) && Describable(src.cols) && Sound(t) && Describable(t.cols) && Legal(conv)
    requires 1 <= from <= |src.cols| && to < |t.cols| && r < |t.rows| && r < |src.rows|
    requires CellTypeOf(src.cols[from - 1]) == CellTypeOf(t.cols[to]) && Arrived(src, t, from, to, conv, r)
    ensures from - 1 < |src.rows[r]| && to < |t.rows[r]| && t.rows[r][to] == src.rows[r][from - 1]
  {
    assert RowOk(src.cols, src.rows[r]);
    TypeBytesAreCellBytes(src.cols[from - 1]);
  }

  /** A column that was created for a described name, and whose source column is even and if a string then in
      one piece, holds the source's own bytes after a successful copy, whatever CFITSIO's conversions are. */
  lemma CreatedVerbatim(s: State, d: State, names: seq<string>, how: Policy, ext: Extension, conv: Conversion,
                        i: nat, r: nat)
    requires Succeeds(s, d, names, how, ext, conv) && Describable(d.data.cols) && InOrder(s) && AllKnown(s, names)
    requires i < |names| && Listed(s, names[i]) && Describes(s, names[i]) && Creates(d.data.cols, names[i], how)
    requires var from := s.data.cols[Source(s, names[i])];
             Even(from) && (FormOf(from).id == TString ==> ReportedWidth(from) == FormOf(from).repeat)
    requires r < |s.data.rows| && r < |CopyColumns(s, d, names, how, ext, conv).0.data.rows|
    ensures var t, from := CopyColumns(s, d, names, how, ext, conv).0.data, Source(s, names[i]);
            && Has(t.cols, names[i])
            && var to := FindCol(t.cols, names[i]).value;
               to < |t.rows[r]| && from < |s.data.rows[r]| && t.rows[r][to] == s.data.rows[r][from]
  {
    hide CopyColumns, CopyFrom, PlanFrom, Created, Layout, FindCol, Listed, Entry, Even, ReportedWidth, Knows,
         FormOf, WellFormed, Sound, Arrived, CellTypeOf, CreatedHeader, Prepared, Legal;
    var name := names[i];
    assert Knows(s, name);
    SuccessPhases(s, d, names, how, ext, conv);
    KnownUnrivalled(s, names, i);
    CopyNamedCells(s, d, names, how, ext, conv, i, r);
    FinalFinds(s, d, names, how, ext, i);
    CreatedType(s, name);
    var t := CopyColumns(s, d, names, how, ext, conv).0.data;
    SameTypeSameCells(s.data, t, Source(s, name) + 1, FindCol(t.cols, name).value, conv, r);
  }
}
