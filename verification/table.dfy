/** The Table of misfits/table.cc (with the part of its HDU base class in misfits/hdu.cc that selects HDUs):
    a handle on one HDU of a file whose current HDU is shared. Each contract speaks of the handle's own
    HDU only, wherever the file stood before. */
module Tables {
  import opened Results
  import opened Extents
  import opened Columns
  import opened Stores
  import opened TableSpecs
  import opened CopySpecs

  class Table {
    const file: File
    const hduNum: int
    var columns: seq<ColumnInfo>

    constructor (file: File, hduNum: int)
      ensures this.file == file && this.hduNum == hduNum && columns == []
    {
      this.file, this.hduNum, columns := file, hduNum, [];
    }

    ghost predicate Ready()
      reads this, file
    {
      file.Valid() && IsTable(file.hdus, hduNum)
    }

    ghost function Now(): (s: State)
      requires Ready()
      reads this, file
      ensures Sound(s.data)
    {
      State(file.hdus[hduNum - 1].table.value, columns)
    }

    /** The HDU and Table constructors; HDU number zero is the current one. */
    static method Open(file: File, hduNum: int) returns (r: Result<Table>)
      requires file.Valid()
      modifies file`chdu
      ensures file.Valid()
      ensures r.Success? ==>
                && fresh(r.value) && r.value.file == file
                && r.value.hduNum == (if hduNum == 0 then old(file.chdu) else hduNum)
                && file.chdu == r.value.hduNum
                && r.value.Ready() && Coherent(r.value.Now())
      ensures var n := if hduNum == 0 then old(file.chdu) else hduNum;
              r.Failure? ==>
                if !(1 <= n <= |file.hdus|) then r.error == BadHdu && file.chdu == old(file.chdu)
                else if !IsTable(file.hdus, n) then r.error == NotATable && file.chdu == n
                else !Describable(file.hdus[n - 1].table.value.cols) && file.chdu == n
    {
      hide Layout, WellFormed, RowOk, ReadTdim;
      var n := hduNum;
      if n == 0 {
        n := file.chdu;
      }
      var table := new Table(file, n);
      var st := table.Refresh();
      if st.Failure? {
        return Failure(st.error);
      }
      return Success(table);
    }

    /** HDU::set_as_chdu. */
    method SetAsChdu() returns (st: Status)
      requires file.Valid()
      modifies file`chdu
      ensures file.Valid()
      ensures st == if 1 <= hduNum <= |file.hdus| then Success(()) else Failure(BadHdu)
      ensures file.chdu == if st.Success? then hduNum else old(file.chdu)
    {
      st := file.MoveTo(hduNum);
    }

    /** Table::refresh. */
    method Refresh() returns (st: Status)
      requires file.Valid()
      modifies file`chdu, this`columns
      ensures file.Valid()
      ensures !(1 <= hduNum <= |file.hdus|) ==>
                st == Failure(BadHdu) && file.chdu == old(file.chdu) && columns == old(columns)
      ensures 1 <= hduNum <= |file.hdus| ==> file.chdu == hduNum
      ensures 1 <= hduNum <= |file.hdus| && !IsTable(file.hdus, hduNum) ==>
                st == Failure(NotATable) && columns == old(columns)
      ensures IsTable(file.hdus, hduNum) ==> (Now(), st) == Refreshed(Now().data)
    {
      var _ :- SetAsChdu();
      if !file.AtTable() {
        return Failure(NotATable);
      }
      st := ReadColumns();
    }

    /** The part of Table::refresh behind its checks. */
    method ReadColumns() returns (st: Status)
      requires Ready() && file.chdu == hduNum
      modifies this`columns
      ensures (Now(), st) == Refreshed(Now().data)
    {
      hide Describe, WellFormed, HdusSound, ReadTdim, RowOk;
      ghost var cols := Now().data.cols;
      var ncols := |file.Table().cols|;
      columns := [];
      var offset := 1;
      var colnum := 1;
      while colnum <= ncols
        invariant 1 <= colnum <= ncols + 1
        invariant columns + LayoutFrom(cols, colnum - 1, offset) == Layout(cols)
        invariant StatusFrom(cols, colnum - 1) == LayoutStatus(cols)
      {
        LayoutStep(cols, colnum - 1, offset, columns);
        var ci :- Describe(file.Table().cols[colnum - 1], colnum, offset);
        columns := columns + [ci];
        offset := offset + ci.nbytes;
        colnum := colnum + 1;
      }
      assert columns + [] == columns;
      return Success(());
    }

    /** Table::num_columns. */
    method NumColumns() returns (n: nat)
      requires Ready()
      modifies file`chdu
      ensures Ready() && file.chdu == hduNum && n == |Now().data.cols|
    {
      var _ := SetAsChdu();
      n := |file.Table().cols|;
    }

    /** Table::num_rows. */
    method NumRows() returns (n: nat)
      requires Ready()
      modifies file`chdu
      ensures Ready() && file.chdu == hduNum && n == |Now().data.rows|
    {
      var _ := SetAsChdu();
      n := |file.Table().rows|;
    }

    /** Table::has_column. */
    method HasColumn(name: string) returns (b: bool)
      requires Ready()
      modifies file`chdu
      ensures Ready() && file.chdu == hduNum && b == Has(Now().data.cols, name)
    {
      var _ := SetAsChdu();
      b := FindCol(file.Table().cols, name).Success?;
    }

    /** Table::colinfo by name. */
    method ColinfoNamed(name: string) returns (r: Result<ColumnInfo>)
      requires Ready()
      modifies file`chdu
      ensures Ready() && file.chdu == hduNum && r == Colinfo(Now(), name)
    {
      var _ := SetAsChdu();
      var k :- FindCol(file.Table().cols, name);
      if k >= |columns| {
        return Failure(OutOfRange);
      }
      return Success(columns[k]);
    }

    /** ColumnInfo::insert on the current HDU. */
    static method Insert(file: File, ci: ColumnInfo) returns (st: Status)
      requires file.Valid() && file.AtTable() && Usable(ci.extent)
      modifies file`hdus
      ensures file.Valid()
      ensures var (t, st') := Inserted(old(file.Table()), ci);
              st == st' && file.hdus == WithTable(old(file.hdus), file.chdu, t)
    {
      hide InsertCol, PlainHeader, WriteTdim, Squeeze;
      ghost var was := file.hdus;
      if ci.colnum < 1 {
        assert WithTable(was, file.chdu, file.Table()) == was;
        return Failure(BadColumnNumber);
      }
      var t := file.Table();
      var pos := if ci.colnum - 1 <= |t.cols| then ci.colnum - 1 else |t.cols|;
      file.PutTable(InsertCol(t, pos, PlainHeader(ci)));
      if |Squeeze(ci.extent)| > 1 {
        var t2 :- WriteTdim(file.Table(), ci.colnum, ci.extent);
        file.PutTable(t2);
      }
      return Success(());
    }

    /** Table::add of a description. */
    method AddInfo(ci: ColumnInfo) returns (st: Status)
      requires Ready() && Usable(ci.extent)
      modifies file, this`columns
      ensures Ready() && file.chdu == hduNum
      ensures (Now(), st) == Add(old(Now()), ci)
      ensures file.hdus == WithTable(old(file.hdus), hduNum, Now().data)
    {
      var copy := ci;
      var _ := SetAsChdu();
      if copy.colnum == 0 {
        var n := NumColumns();
        copy := copy.(colnum := n + 1);
      }
      assert copy == NumberedInfo(old(Now()).data, ci);
      st := InsertAndRefresh(copy);
    }

    /** Table::add of a name, a type and a shape. */
    method AddColumn(ttype: string, id: TypeId, extent: Extent, colnum: nat) returns (st: Status)
      requires Ready() && Usable(extent)
      modifies file, this`columns
      ensures Ready() && file.chdu == hduNum
      ensures (Now(), st) == Add(old(Now()), UserInfo(ttype, id, extent, colnum))
      ensures file.hdus == WithTable(old(file.hdus), hduNum, Now().data)
    {
      var _ := SetAsChdu();
      var num := colnum;
      if num == 0 {
        var n := NumColumns();
        num := n + 1;
      }
      var ci := UserInfo(ttype, id, extent, num);
      assert ci == NumberedInfo(old(Now()).data, UserInfo(ttype, id, extent, colnum));
      st := InsertAndRefresh(ci);
    }

    /** The common end of both forms of Table::add. */
    method InsertAndRefresh(ci: ColumnInfo) returns (st: Status)
      requires Ready() && Usable(ci.extent) && file.chdu == hduNum
      modifies file, this`columns
      ensures Ready() && file.chdu == hduNum
      ensures var (t, st') := Inserted(old(Now()).data, ci);
              (Now(), st) == if st'.Failure? then (State(t, old(columns)), st') else Refreshed(t)
      ensures file.hdus == WithTable(old(file.hdus), hduNum, Now().data)
    {
      var _ :- Insert(file, ci);
      st := Refresh();
    }

    /** Table::resize by number. */
    method ResizeColumn(colnum: int, extent: Extent) returns (st: Status)
      requires Ready() && Usable(extent)
      modifies file, this`columns
      ensures Ready() && file.chdu == hduNum
      ensures (Now(), st) == Resize(old(Now()), colnum, extent, file.suffixRule)
      ensures file.hdus == WithTable(old(file.hdus), hduNum, Now().data)
    {
      UsableCount(extent);
      var _ := SetAsChdu();
      assert WithTable(file.hdus, hduNum, Now().data) == file.hdus;
      if !(1 <= colnum <= |columns|) {
        return Failure(OutOfRange);
      }
      var info := columns[colnum - 1];
      if Same(info.extent, extent) {
        return Success(());
      }
      var t :- ModifyLength(file.Table(), colnum, Nelem(extent), file.suffixRule);
      file.PutTable(t);
      WriteShape(colnum, extent);
      st := Refresh();
    }

    /** The part of Table::resize that keeps TDIM in step with the new length. */
    method WriteShape(colnum: int, extent: Extent)
      requires Ready() && file.chdu == hduNum && 1 <= colnum <= |Now().data.cols| && Usable(extent)
      modifies file
      ensures Ready() && file.chdu == hduNum
      ensures Now().data ==
                PutTdim(old(Now().data), colnum - 1, if |Squeeze(extent)| == 1 then None else Some(TdimText(extent)))
      ensures file.hdus == WithTable(old(file.hdus), hduNum, Now().data)
    {
      hide Sound, HdusSound, TdimText, FormOf, WellFormed;
      if |Squeeze(extent)| == 1 {
        if file.Table().cols[colnum - 1].tdim.Some? {
          var _ := SetAsChdu();
          file.PutTable(PutTdim(file.Table(), colnum - 1, None));
        } else {
          assert PutTdim(file.Table(), colnum - 1, None).cols == file.Table().cols;
        }
      } else {
        var tdim := ToString(extent);
        var _ := SetAsChdu();
        file.PutTable(PutTdim(file.Table(), colnum - 1, Some(tdim)));
      }
    }

    /** Table::resize by name. */
    method ResizeColumnNamed(name: string, extent: Extent) returns (st: Status)
      requires Ready() && Usable(extent)
      modifies file, this`columns
      ensures Ready() && file.chdu == hduNum
      ensures (Now(), st) == ResizeNamed(old(Now()), name, extent, file.suffixRule)
      ensures file.hdus == WithTable(old(file.hdus), hduNum, Now().data)
    {
      assert WithTable(file.hdus, hduNum, Now().data) == file.hdus;
      var ci :- ColinfoNamed(name);
      st := ResizeColumn(ci.colnum, extent);
    }

    /** Table::delete_column by number. */
    method DeleteColumn(colnum: int) returns (st: Status)
      requires Ready()
      modifies file, this`columns
      ensures Ready() && file.chdu == hduNum
      ensures (Now(), st) == Delete(old(Now()), colnum)
      ensures file.hdus == WithTable(old(file.hdus), hduNum, Now().data)
    {
      assert WithTable(file.hdus, hduNum, Now().data) == file.hdus;
      var _ := SetAsChdu();
      var t :- DeleteCol(file.Table(), colnum);
      file.PutTable(t);
      st := Refresh();
    }

    /** Table::delete_column by name: the cache is not refreshed. */
    method DeleteColumnNamed(name: string) returns (st: Status)
      requires Ready()
      modifies file
      ensures Ready() && file.chdu == hduNum
      ensures (Now(), st) == DeleteNamed(old(Now()), name)
      ensures file.hdus == WithTable(old(file.hdus), hduNum, Now().data)
    {
      assert WithTable(file.hdus, hduNum, Now().data) == file.hdus;
      var _ := SetAsChdu();
      var ci :- ColinfoNamed(name);
      var t :- DeleteCol(file.Table(), ci.colnum);
      file.PutTable(t);
      return Success(());
    }

    /** HDU::set_keyword. */
    method SetKeyword(name: string, value: string)
      requires Ready()
      modifies file
      ensures Ready() && file.chdu == hduNum && Now() == old(Now())
      ensures file.hdus == WithKey(old(file.hdus), hduNum, name, value)
    {
      var _ := SetAsChdu();
      file.PutKey(name, value);
    }

    /** HDU::get_keyword: the value, or the default, and whether the keyword is there. */
    method GetKeyword(name: string, default_: string) returns (value: string, defined: bool)
      requires Ready()
      modifies file`chdu
      ensures Ready() && file.chdu == hduNum
      ensures (value, defined) == Keyword(file.hdus[hduNum - 1].keys, name, default_)
    {
      var _ := SetAsChdu();
      defined := name in file.hdus[file.chdu - 1].keys;
      value := if defined then file.hdus[file.chdu - 1].keys[name] else default_;
    }

    // ----------------------------------------------------------------------------------------

    /** One turn of the planning loop of copy_columns. */
    method PlanColumn(dest: Table, name: string, how: Policy, p: Plan) returns (p': Plan, st: Status)
      requires Ready() && dest.Ready() && file != dest.file && AllWellFormed(p.created)
      modifies file`chdu, dest.file
      ensures Ready() && dest.Ready() && file.chdu == hduNum && AllWellFormed(p'.created)
      ensures (dest.Now(), p', st) == PlanOne(old(Now()), old(dest.Now()), name, how, p)
      ensures dest.file.hdus == WithTable(old(dest.file.hdus), dest.hduNum, dest.Now().data)
    {
      assert WithTable(dest.file.hdus, dest.hduNum, dest.Now().data) == dest.file.hdus;
      p' := p;
      var inSource := HasColumn(name);
      if !inSource {
        return p', Failure(MissingInSource);
      }
      var r := ColinfoNamed(name);
      if r.Failure? {
        return p', Failure(r.error);
      }
      var ci := r.value;
      p' := p'.(src := p'.src + [ci]);
      var inDest := dest.HasColumn(name);
      if !inDest {
        p' := p'.(created := p'.created + [CreatedHeader(ci)]);
      } else {
        match how
        case NoDuplicates =>
          return p', Failure(Duplicate);
        case Replace =>
          var deleted := dest.DeleteColumnNamed(name);
          if deleted.Failure? {
            return p', deleted;
          }
          p' := p'.(created := p'.created + [CreatedHeader(ci)]);
        case OverWrite =>
        case Unknown =>
          return p', Failure(UnknownFlag);
      }
      return p', Success(());
    }

    /** Table::copy_columns of a list of names. */
    method Copy(dest: Table, names: seq<string>, how: bv8, conv: Conversion) returns (st: Status)
      requires Ready() && Legible(Now()) && dest.Ready() && file != dest.file && Legal(conv)
      modifies file`chdu, dest.file, dest`columns
      ensures Ready() && dest.Ready() && Now() == old(Now())
      ensures (dest.Now(), st) == CopyFlagged(old(Now()), old(dest.Now()), names, how, conv)
      ensures dest.file.hdus == WithTable(old(dest.file.hdus), dest.hduNum, dest.Now().data)
    {
      hide PlanFrom, CopyFrom, Layout, LayoutStatus, WellFormed, ReadTdim, Enlarged, PolicyOf, ExtensionOf;
      assert WithTable(dest.file.hdus, dest.hduNum, dest.Now().data) == dest.file.hdus;
      if names == [] {
        return Success(());
      }
      var _ := SetAsChdu();
      var _ := dest.SetAsChdu();
      var p;
      p, st := PlanAll(dest, names, PolicyOf(how));
      if st.Failure? {
        return st;
      }
      Enlarge(dest, p.created, how);
      st := dest.Refresh();
      if st.Failure? {
        return st;
      }
      st := CopyCells(dest, p.src, conv);
    }

    /** The planning loop of copy_columns. */
    method PlanAll(dest: Table, names: seq<string>, how: Policy) returns (p: Plan, st: Status)
      requires Ready() && dest.Ready() && file != dest.file && file.chdu == hduNum
      modifies file`chdu, dest.file
      ensures Ready() && dest.Ready() && file.chdu == hduNum && AllWellFormed(p.created)
      ensures (dest.Now(), p, st) == PlanFrom(old(Now()), old(dest.Now()), names, how, Plan([], []))
      ensures dest.file.hdus == WithTable(old(dest.file.hdus), dest.hduNum, dest.Now().data)
    {
      hide PlanOne, PolicyOf;
      ghost var s, d, before := Now(), dest.Now(), dest.file.hdus;
      assert WithTable(before, dest.hduNum, dest.Now().data) == before;
      p := Plan([], []);
      var idx := 0;
      assert names[0..] == names;
      while idx < |names|
        invariant 0 <= idx <= |names| && AllWellFormed(p.created)
        invariant Ready() && dest.Ready() && Now() == s && file.chdu == hduNum
        invariant PlanFrom(s, dest.Now(), names[idx..], how, p) == PlanFrom(s, d, names, how, Plan([], []))
        invariant dest.file.hdus == WithTable(before, dest.hduNum, dest.Now().data)
      {
        assert names[idx..][0] == names[idx] && names[idx..][1..] == names[idx + 1..];
        p, st := PlanColumn(dest, names[idx], how, p);
        if st.Failure? {
          return;
        }
        idx := idx + 1;
      }
      assert names[idx..] == [];
      st := Success(());
    }

    /** The insertion of columns and rows in copy_columns. */
    method Enlarge(dest: Table, created: seq<Header>, how: bv8)
      requires Ready() && dest.Ready() && file != dest.file && AllWellFormed(created)
      modifies file`chdu, dest.file
      ensures Ready() && dest.Ready() && file.chdu == hduNum
      ensures dest.Now().data == Enlarged(old(dest.Now().data), created, |old(Now().data.rows)|, ExtensionOf(how))
      ensures dest.file.hdus == WithTable(old(dest.file.hdus), dest.hduNum, dest.Now().data)
    {
      assert WithTable(dest.file.hdus, dest.hduNum, dest.Now().data) == dest.file.hdus;
      if created != [] {
        var _ := dest.NumColumns();
        dest.file.PutTable(AppendCols(dest.file.Table(), created));
      }
      var n := NumRows();
      var m := dest.NumRows();
      if n > m && (how & EXTEND_TABLE != 0 || (how & EXTEND_TABLE_IF_EMPTY != 0 && m == 0)) {
        dest.file.PutTable(AppendRows(dest.file.Table(), n - m));
      }
    }

    /** The copying loop of copy_columns: fits_copy_col reads from whatever HDU the source's file is at. */
    method CopyCells(dest: Table, cis: seq<ColumnInfo>, conv: Conversion) returns (st: Status)
      requires Ready() && dest.Ready() && file != dest.file && file.chdu == hduNum && Legal(conv)
      requires Describable(Now().data.cols) && Describable(dest.Now().data.cols)
      modifies dest.file
      ensures Ready() && dest.Ready() && Now() == old(Now())
      ensures (dest.Now(), st) == CopyFrom(old(Now()).data, old(dest.Now()), cis, conv)
      ensures dest.file.hdus == WithTable(old(dest.file.hdus), dest.hduNum, dest.Now().data)
    {
      hide CopyCol, FindCol, Layout, LayoutStatus, WellFormed, ReadTdim;
      ghost var d := dest.Now();
      assert WithTable(dest.file.hdus, dest.hduNum, dest.Now().data) == dest.file.hdus;
      var idx := 0;
      assert cis[0..] == cis;
      while idx < |cis|
        invariant 0 <= idx <= |cis|
        invariant Ready() && dest.Ready() && Describable(dest.Now().data.cols)
        invariant CopyFrom(Now().data, dest.Now(), cis[idx..], conv) == CopyFrom(Now().data, d, cis, conv)
        invariant dest.file.hdus == WithTable(old(dest.file.hdus), dest.hduNum, dest.Now().data)
      {
        assert cis[idx..][0] == cis[idx] && cis[idx..][1..] == cis[idx + 1..];
        var to :- dest.ColinfoNamed(cis[idx].ttype);
        var t :- CopyCol(file.Table(), cis[idx].colnum, dest.file.Table(), to.colnum, conv);
        dest.file.PutTable(t);
        idx := idx + 1;
      }
      return Success(());
    }

    /** Table::copy_columns of all columns. */
    method CopyAll(dest: Table, how: bv8, conv: Conversion) returns (st: Status)
      requires Ready() && Legible(Now()) && dest.Ready() && file != dest.file && Legal(conv)
      modifies file`chdu, dest.file, dest`columns
      ensures Ready() && dest.Ready() && Now() == old(Now())
      ensures match AllNames(old(Now()))
              case Failure(e) => (dest.Now(), st) == (old(dest.Now()), Failure(e))
              case Success(names) =>
                (dest.Now(), st) == CopyFlagged(old(Now()), old(dest.Now()), names, how, conv)
      ensures dest.file.hdus == WithTable(old(dest.file.hdus), dest.hduNum, dest.Now().data)
    {
      assert WithTable(dest.file.hdus, dest.hduNum, dest.Now().data) == dest.file.hdus;
      var names :- NameColumns();
      st := Copy(dest, names, how, conv);
    }

    /** The loop of that overload: the names in the cache. */
    method NameColumns() returns (r: Result<seq<string>>)
      requires Ready()
      modifies file`chdu
      ensures Ready() && Now() == old(Now()) && r == AllNames(Now())
    {
      var names := [];
      var idx := 1;
      var n := NumColumns();
      while idx <= n
        invariant Ready() && Now() == old(Now())
        invariant 1 <= idx <= n + 1 && n == |Now().data.cols| && idx - 1 <= |columns|
        invariant names == NamesIn(columns[..idx - 1])
      {
        if idx > |columns| {
          return Failure(OutOfRange);
        }
        names := names + [columns[idx - 1].ttype];
        idx := idx + 1;
        n := NumColumns();
      }
      return Success(names);
    }
  }
}
