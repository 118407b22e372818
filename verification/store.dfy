/** The abstract column store that stands for CFITSIO, and the File of misfits/fits.cc over it. */
module Stores {
  import opened Results
  import opened Bytes
  import opened Numerals
  import opened Extents
  import opened Columns

  type Cell = seq<Byte>
  type RowCells = seq<Cell>

  datatype TableData = TableData(cols: seq<Header>, rows: seq<RowCells>)

  ghost predicate RowOk(cols: seq<Header>, row: RowCells)
    requires AllWellFormed(cols)
  {
    |row| == |cols| && forall k | 0 <= k < |cols| :: |row[k]| == CellBytes(cols[k])
  }

  /** Legal headers, and rows whose cells have the lengths the headers say. */
  ghost predicate Sound(t: TableData) {
    && AllWellFormed(t.cols)
    && forall r | 0 <= r < |t.rows| :: RowOk(t.cols, t.rows[r])
  }

  // ------------------------------------------------------------------------------------------
  // Rows

  function ZeroRow(cols: seq<Header>): (row: RowCells)
    requires AllWellFormed(cols)
    ensures RowOk(cols, row)
  {
    seq(|cols|, k requires 0 <= k < |cols| => Filled(CellBytes(cols[k]), 0))
  }

  /** fits_insert_rows behind the last row. */
  function AppendRows(t: TableData, n: nat): (r: TableData)
    requires Sound(t)
    ensures Sound(r)
  {
    t.(rows := t.rows + seq(n, _ => ZeroRow(t.cols)))
  }

  /** A row's bytes, in column order. */
  function Flatten(row: RowCells): seq<Byte> {
    if row == [] then [] else row[0] + Flatten(row[1..])
  }

  /** Cut bytes into cells of the lengths of `shape`. */
  function Unflatten(bytes: seq<Byte>, shape: RowCells): (row: RowCells)
    requires |bytes| == |Flatten(shape)|
    ensures |row| == |shape| && forall k | 0 <= k < |row| :: |row[k]| == |shape[k]|
  {
    if shape == [] then []
    else [bytes[..|shape[0]|]] + Unflatten(bytes[|shape[0]|..], shape[1..])
  }

  /** fits_read_tblbytes within one row; offsets count from one. */
  function ReadRange(row: RowCells, offset: int, n: nat): Result<seq<Byte>> {
    if 1 <= offset && offset - 1 + n <= |Flatten(row)| then
      Success(Flatten(row)[offset - 1..offset - 1 + n])
    else
      Failure(BeyondCell)
  }

  /** fits_write_tblbytes within one row. */
  function WriteRange(row: RowCells, offset: int, data: seq<Byte>): (r: Result<RowCells>)
    ensures r.Success? ==> |r.value| == |row| && forall k | 0 <= k < |row| :: |r.value[k]| == |row[k]|
  {
    if 1 <= offset && offset - 1 + |data| <= |Flatten(row)| then
      var bytes := Flatten(row);
      Success(Unflatten(bytes[..offset - 1] + data + bytes[offset - 1 + |data|..], row))
    else
      Failure(BeyondCell)
  }

  /** fits_read_col and fits_write_col on the leading bytes of one cell. */
  function ReadCell(row: RowCells, colnum: int, n: nat): Result<seq<Byte>> {
    if !(1 <= colnum <= |row|) then Failure(BadColumnNumber)
    else if n > |row[colnum - 1]| then Failure(BeyondCell)
    else Success(row[colnum - 1][..n])
  }

  function WriteCell(row: RowCells, colnum: int, data: seq<Byte>): (r: Result<RowCells>)
    ensures r.Success? ==> |r.value| == |row| && forall k | 0 <= k < |row| :: |r.value[k]| == |row[k]|
  {
    if !(1 <= colnum <= |row|) then Failure(BadColumnNumber)
    else if |data| > |row[colnum - 1]| then Failure(BeyondCell)
    else Success(row[colnum - 1 := data + row[colnum - 1][|data|..]])
  }

  lemma {:induction false} FlattenSplit(row: RowCells, k: nat)
    requires k <= |row|
    ensures Flatten(row) == Flatten(row[..k]) + Flatten(row[k..])
  {
    if k > 0 {
      FlattenSplit(row[1..], k - 1);
      assert row[..k][1..] == row[1..][..k - 1] && row[1..][k - 1..] == row[k..];
    } else {
      assert row[0..] == row;
    }
  }

  lemma UnflattenFlatten(row: RowCells, shape: RowCells)
    requires |row| == |shape| && forall k | 0 <= k < |row| :: |row[k]| == |shape[k]|
    ensures |Flatten(row)| == |Flatten(shape)| && Unflatten(Flatten(row), shape) == row
  {
    if row != [] {
      UnflattenFlatten(row[1..], shape[1..]);
      assert Flatten(row)[..|row[0]|] == row[0] && Flatten(row)[|row[0]|..] == Flatten(row[1..]);
    }
  }

  /** Byte access at the start of a cell, for the length of the cell, reaches that cell alone. */
  lemma RangeIsCell(row: RowCells, k: nat, data: seq<Byte>)
    requires k < |row| && |data| == |row[k]|
    ensures ReadRange(row, 1 + |Flatten(row[..k])|, |row[k]|) == Success(row[k])
    ensures WriteRange(row, 1 + |Flatten(row[..k])|, data) == Success(row[k := data])
  {
    var row', at := row[k := data], |Flatten(row[..k])|;
    FlattenSplit(row, k);
    FlattenSplit(row', k);
    assert row'[..k] == row[..k] && row[k..][1..] == row[k + 1..] && row'[k..][1..] == row[k + 1..];
    assert Flatten(row[k..]) == row[k] + Flatten(row[k + 1..]);
    assert Flatten(row'[k..]) == data + Flatten(row[k + 1..]);
    var bytes := Flatten(row);
    assert bytes[at..at + |row[k]|] == row[k];
    assert bytes[..at] + data + bytes[at + |data|..] == Flatten(row');
    UnflattenFlatten(row', row);
  }

  /** The cells of a row start where the headers say. */
  lemma {:induction false} FlattenLength(cols: seq<Header>, row: RowCells, k: nat)
    requires AllWellFormed(cols) && RowOk(cols, row) && k <= |cols|
    ensures |Flatten(row[..k])| == RowBytes(cols, k)
  {
    if k > 0 {
      FlattenLength(cols, row, k - 1);
      FlattenSplit(row[..k], k - 1);
      assert row[..k][..k - 1] == row[..k - 1] && row[..k][k - 1..] == [row[k - 1]];
      assert Flatten([row[k - 1]]) == row[k - 1] + Flatten([]);
    }
  }

  // ------------------------------------------------------------------------------------------
  // Columns

  function InsertAt<T>(s: seq<T>, pos: nat, x: T): (r: seq<T>)
    requires pos <= |s|
    ensures |r| == |s| + 1
  {
    s[..pos] + [x] + s[pos..]
  }

  function RemoveAt<T>(s: seq<T>, pos: nat): (r: seq<T>)
    requires pos < |s|
    ensures |r| == |s| - 1
  {
    s[..pos] + s[pos + 1..]
  }

  lemma RowsSound(cols: seq<Header>, rows: seq<RowCells>)
    requires AllWellFormed(cols)
    requires forall r | 0 <= r < |rows| :: |rows[r]| == |cols|
    requires forall r, k | 0 <= r < |rows| && 0 <= k < |cols| :: k < |rows[r]| && |rows[r][k]| == CellBytes(cols[k])
    ensures Sound(TableData(cols, rows))
  {
  }

  /** fits_insert_col: the new cells are zero. */
  function InsertCol(t: TableData, pos: nat, h: Header): (r: TableData)
    requires Sound(t) && WellFormed(h) && pos <= |t.cols|
    ensures Sound(r)
  {
    hide CellBytes, WellFormed;
    var cols := InsertAt(t.cols, pos, h);
    var rows := seq(|t.rows|, r requires 0 <= r < |t.rows| => InsertAt(t.rows[r], pos, Filled(CellBytes(h), 0)));
    assert forall r | 0 <= r < |t.rows| :: RowOk(t.cols, t.rows[r]);
    RowsSound(cols, rows);
    TableData(cols, rows)
  }

  /** fits_insert_cols behind the last column. */
  function AppendCols(t: TableData, hs: seq<Header>): (r: TableData)
    requires Sound(t) && AllWellFormed(hs)
    ensures Sound(r)
  {
    var rows := seq(|t.rows|, r requires 0 <= r < |t.rows| => t.rows[r] + ZeroRow(hs));
    assert AllWellFormed(t.cols + hs);
    assert forall r | 0 <= r < |rows| :: RowOk(t.cols + hs, rows[r]) by {
      forall r | 0 <= r < |rows|
        ensures RowOk(t.cols + hs, rows[r])
      {
        assert RowOk(t.cols, t.rows[r]) && RowOk(hs, ZeroRow(hs));
      }
    }
    TableData(t.cols + hs, rows)
  }

  /** fits_delete_col. */
  function DeleteCol(t: TableData, colnum: int): (r: Result<TableData>)
    requires Sound(t)
    ensures r.Success? ==> Sound(r.value)
  {
    if !(1 <= colnum <= |t.cols|) then Failure(BadColumnNumber)
    else
      Success(TableData(RemoveAt(t.cols, colnum - 1),
                        seq(|t.rows|, r requires 0 <= r < |t.rows| => RemoveAt(t.rows[r], colnum - 1))))
  }

  /** Replace the header of a column and refit its cells to the length it says. */
  function Reform(t: TableData, k: nat, h: Header): (r: TableData)
    requires Sound(t) && k < |t.cols| && WellFormed(h)
    ensures Sound(r)
  {
    TableData(t.cols[k := h],
              seq(|t.rows|, r requires 0 <= r < |t.rows| => t.rows[r][k := Refit(t.rows[r][k], CellBytes(h))]))
  }

  function Refit(c: Cell, n: nat): (r: Cell)
    ensures |r| == n
  {
    if |c| >= n then c[..n] else c + Filled(n - |c|, 0)
  }

  lemma InsertColCells(t: TableData, pos: nat, h: Header)
    requires Sound(t) && WellFormed(h) && pos <= |t.cols|
    ensures var t' := InsertCol(t, pos, h);
            && |t'.cols| == |t.cols| + 1 && |t'.rows| == |t.rows|
            && forall r, k | 0 <= r < |t.rows| && 0 <= k <= |t.cols| ::
                 && k < |t'.rows[r]| && |t.rows[r]| == |t.cols|
                 && (k == pos ==> forall i | 0 <= i < |t'.rows[r][k]| :: t'.rows[r][k][i] == 0)
                 && (k != pos ==> t'.rows[r][k] == t.rows[r][if k < pos then k else k - 1])
  {
    hide CellBytes, WellFormed;
    assert forall r | 0 <= r < |t.rows| :: RowOk(t.cols, t.rows[r]);
  }

  lemma DeleteColCells(t: TableData, colnum: int)
    requires Sound(t) && 1 <= colnum <= |t.cols|
    ensures var t' := DeleteCol(t, colnum).value;
            && |t'.cols| == |t.cols| - 1 && |t'.rows| == |t.rows|
            && forall r, k | 0 <= r < |t.rows| && 0 <= k < |t'.cols| ::
                 && k < |t'.rows[r]| && |t.rows[r]| == |t.cols|
                 && t'.rows[r][k] == t.rows[r][if k < colnum - 1 then k else k + 1]
  {
    hide CellBytes, WellFormed;
    assert forall r | 0 <= r < |t.rows| :: RowOk(t.cols, t.rows[r]);
  }

  lemma ReformCells(t: TableData, pos: nat, h: Header)
    requires Sound(t) && WellFormed(h) && pos < |t.cols|
    ensures var t' := Reform(t, pos, h);
            && |t'.rows| == |t.rows|
            && forall r, k | 0 <= r < |t.rows| && 0 <= k < |t.cols| ::
                 && k < |t'.rows[r]| && |t.rows[r]| == |t.cols|
                 && (k != pos ==> t'.rows[r][k] == t.rows[r][k])
                 && (k == pos ==> forall i | 0 <= i < |t'.rows[r][k]| ::
                       t'.rows[r][k][i] == if i < |t.rows[r][k]| then t.rows[r][k][i] else 0)
  {
    hide CellBytes, WellFormed;
    assert forall r | 0 <= r < |t.rows| :: RowOk(t.cols, t.rows[r]);
  }

  /** What fits_modify_vector_len makes of the width suffix of a string column (rAw), which is CFITSIO's own
      affair: it may keep it, or write TFORM anew without it, with or without an exception for a repeat count
      that stays the same. */
  datatype SuffixRule = KeepAlways | KeepUnchanged | DropAlways

  predicate SuffixKept(h: Header, n: nat, rule: SuffixRule)
    requires WellFormed(h)
  {
    rule == KeepAlways || (rule == KeepUnchanged && FormOf(h).repeat == n)
  }

  /** TFORM with its repeat count replaced and its type code kept. */
  function Relength(h: Header, n: nat, rule: SuffixRule): Header
    requires WellFormed(h)
  {
    var k := LeadingDigits(h.tform);
    if !SuffixKept(h, n, rule) then h.(tform := Decimal(n) + [h.tform[k]])
    else if FormOf(h).repeat == n then h
    else h.(tform := Decimal(n) + h.tform[k..])
  }

  lemma RelengthForm(h: Header, n: nat, rule: SuffixRule)
    requires WellFormed(h) && 1 <= n < INT_LIMIT
    ensures WellFormed(Relength(h, n, rule))
    ensures FormOf(Relength(h, n, rule)) ==
              FormOf(h).(repeat := n, suffix := if SuffixKept(h, n, rule) then FormOf(h).suffix else None)
  {
    hide Decimal, Value;
    var k := LeadingDigits(h.tform);
    if SuffixKept(h, n, rule) {
      if FormOf(h).repeat != n {
        NumeralForm(n, h.tform[k..]);
        assert h.tform[k..][1..] == h.tform[k + 1..];
      }
    } else {
      NumeralForm(n, [h.tform[k]]);
    }
  }

  /** A numeral in front of a type code is read as the repeat count. */
  lemma NumeralForm(n: nat, code: string)
    requires code != [] && !IsDigit(code[0])
    ensures var s := Decimal(n) + code;
            LeadingDigits(s) == |Decimal(n)| && ParseNat(s[..|Decimal(n)|]) == Some(n)
            && s[|Decimal(n)|] == code[0] && s[|Decimal(n)| + 1..] == code[1..]
  {
    var s := Decimal(n) + code;
    LeadingDigitsOf(Decimal(n), code);
    DecimalValue(n);
    assert s[..|Decimal(n)|] == Decimal(n);
  }

  /** fits_modify_vector_len. */
  function ModifyLength(t: TableData, colnum: int, n: int, rule: SuffixRule): (r: Result<TableData>)
    requires Sound(t) && 1 <= n < INT_LIMIT
    ensures r.Success? ==> Sound(r.value)
  {
    if !(1 <= colnum <= |t.cols|) then Failure(BadColumnNumber)
    else
      RelengthForm(t.cols[colnum - 1], n, rule);
      Success(Reform(t, colnum - 1, Relength(t.cols[colnum - 1], n, rule)))
  }

  /** Set or delete the TDIM keyword of an existing column. */
  function PutTdim(t: TableData, k: nat, tdim: Option<string>): (r: TableData)
    requires Sound(t) && k < |t.cols|
    ensures Sound(r)
  {
    t.(cols := t.cols[k := t.cols[k].(tdim := tdim)])
  }

  /** fits_write_tdimll. */
  function WriteTdim(t: TableData, colnum: int, e: Extent): (r: Result<TableData>)
    requires Sound(t) && e != []
    ensures r.Success? ==> Sound(r.value)
  {
    if !(1 <= colnum <= |t.cols|) then Failure(BadColumnNumber)
    else if Product(e) != FormOf(t.cols[colnum - 1]).repeat then Failure(BadTdim)
    else Success(PutTdim(t, colnum - 1, Some(TdimText(e))))
  }

  // ------------------------------------------------------------------------------------------
  // Finding a column by name, without regard to case

  function LowerChar(c: char): char {
    if 'A' <= c <= 'Z' then (c as int + 32) as char else c
  }

  function Lower(s: string): string {
    seq(|s|, i requires 0 <= i < |s| => LowerChar(s[i]))
  }

  predicate Matches(h: Header, name: string) {
    Lower(h.ttype) == Lower(name)
  }

  /** A column is called like a name if they are equal letter by letter, but for the case of A to Z. */
  lemma MatchesExactly(h: Header, name: string)
    ensures Matches(h, name) <==>
              && |h.ttype| == |name|
              && forall i | 0 <= i < |name| :: SameLetter(h.ttype[i] as int, name[i] as int)
  {
    var a, b := h.ttype, name;
    assert |Lower(a)| == |a| && |Lower(b)| == |b|;
    forall i | 0 <= i < |a| && |a| == |b|
      ensures Lower(a)[i] == Lower(b)[i] <==> SameLetter(a[i] as int, b[i] as int)
    {
      assert Lower(a)[i] == LowerChar(a[i]) && Lower(b)[i] == LowerChar(b[i]);
      LowerCharExactly(a[i], b[i]);
    }
  }

  /** Equal characters, or the two cases of a letter from A to Z. */
  predicate SameLetter(a: int, b: int) {
    a == b || (65 <= a <= 90 && b == a + 32) || (65 <= b <= 90 && a == b + 32)
  }

  lemma LowerCharExactly(a: char, b: char)
    ensures LowerChar(a) == LowerChar(b) <==> SameLetter(a as int, b as int)
  {
    if LowerChar(a) == LowerChar(b) {
      assert LowerChar(a) as int == LowerChar(b) as int;
    }
  }

  /** So FLUX is found as flux. */
  lemma FluxIsFound(tform: string, tdim: Option<string>)
    ensures var cols := [Header("RATE", tform, tdim), Header("FLUX", tform, tdim)];
            FindCol(cols, "flux") == Success(1)
  {
    var cols := [Header("RATE", tform, tdim), Header("FLUX", tform, tdim)];
    MatchesExactly(cols[0], "flux");
    MatchesExactly(cols[1], "flux");
    assert cols[0].ttype[0] == 'R';
    FindColIs(cols, "flux", 1);
  }

  function FirstMatch(cols: seq<Header>, name: string): (k: nat)
    ensures k <= |cols|
  {
    if cols == [] || Matches(cols[0], name) then 0 else 1 + FirstMatch(cols[1..], name)
  }

  /** fits_get_colnum on a name without wildcards; the position counts from zero. */
  function FindCol(cols: seq<Header>, name: string): (r: Result<nat>)
    ensures r.Success? ==> r.value < |cols|
  {
    var k := FirstMatch(cols, name);
    if k == |cols| then Failure(ColumnNotFound)
    else if FirstMatch(cols[k + 1..], name) == |cols| - k - 1 then Success(k)
    else Failure(ColumnNotUnique)
  }

  lemma FirstMatchFacts(cols: seq<Header>, name: string)
    ensures var k := FirstMatch(cols, name);
            && (k < |cols| ==> Matches(cols[k], name))
            && forall j | 0 <= j < k :: !Matches(cols[j], name)
  {
  }

  /** A column is found exactly if it is the only one of its name. */
  lemma FindColFacts(cols: seq<Header>, name: string)
    ensures var r := FindCol(cols, name);
            && (r.Success? ==>
                  && Matches(cols[r.value], name)
                  && forall j | 0 <= j < |cols| && j != r.value :: !Matches(cols[j], name))
            && (r == Failure(ColumnNotFound) ==> forall j | 0 <= j < |cols| :: !Matches(cols[j], name))
            && (r.Failure? && r != Failure(ColumnNotFound) ==>
                  exists i, j :: 0 <= i < j < |cols| && Matches(cols[i], name) && Matches(cols[j], name))
  {
    var k := FirstMatch(cols, name);
    FirstMatchFacts(cols, name);
    if k < |cols| {
      var rest := cols[k + 1..];
      var next := FirstMatch(rest, name);
      FirstMatchFacts(rest, name);
      assert forall j | k < j < |cols| :: cols[j] == rest[j - k - 1];
      if next < |rest| {
        assert rest[next] == cols[k + 1 + next];
      }
    }
  }

  predicate Has(cols: seq<Header>, name: string) {
    FindCol(cols, name).Success?
  }

  lemma FindColIs(cols: seq<Header>, name: string, k: nat)
    requires k < |cols| && Matches(cols[k], name)
    requires forall j | 0 <= j < |cols| && j != k :: !Matches(cols[j], name)
    ensures FindCol(cols, name) == Success(k)
  {
    FindColFacts(cols, name);
  }

  lemma FindColNone(cols: seq<Header>, name: string)
    requires forall j | 0 <= j < |cols| :: !Matches(cols[j], name)
    ensures FindCol(cols, name) == Failure(ColumnNotFound)
  {
    FindColFacts(cols, name);
  }

  lemma FirstMatchLower(cols: seq<Header>, a: string, b: string)
    requires Lower(a) == Lower(b)
    ensures FirstMatch(cols, a) == FirstMatch(cols, b)
  {
  }

  /** Names that differ in case find the same column. */
  lemma FindColLower(cols: seq<Header>, a: string, b: string)
    requires Lower(a) == Lower(b)
    ensures FindCol(cols, a) == FindCol(cols, b)
  {
    FirstMatchLower(cols, a, b);
    var k := FirstMatch(cols, a);
    if k < |cols| {
      FirstMatchLower(cols[k + 1..], a, b);
    }
  }

  // ------------------------------------------------------------------------------------------
  // Counting the columns of a name

  function Count(cols: seq<Header>, name: string): nat {
    if cols == [] then 0 else (if Matches(cols[0], name) then 1 else 0) + Count(cols[1..], name)
  }

  lemma CountConcat(a: seq<Header>, b: seq<Header>, name: string)
    ensures Count(a + b, name) == Count(a, name) + Count(b, name)
  {
    if a == [] {
      assert a + b == b;
    } else {
      CountConcat(a[1..], b, name);
      assert (a + b)[1..] == a[1..] + b;
    }
  }

  lemma CountSplit(cols: seq<Header>, k: nat, name: string)
    requires k < |cols|
    ensures Count(cols, name)
         == Count(cols[..k], name) + (if Matches(cols[k], name) then 1 else 0) + Count(cols[k + 1..], name)
  {
    CountConcat(cols[..k], cols[k..], name);
    assert cols == cols[..k] + cols[k..] && cols[k..][1..] == cols[k + 1..];
  }

  lemma CountRemove(cols: seq<Header>, k: nat, name: string)
    requires k < |cols|
    ensures Count(RemoveAt(cols, k), name) == Count(cols, name) - (if Matches(cols[k], name) then 1 else 0)
  {
    CountSplit(cols, k, name);
    CountConcat(cols[..k], cols[k + 1..], name);
  }

  lemma CountFirst(cols: seq<Header>, name: string)
    ensures var k := FirstMatch(cols, name);
            && (k == |cols| <==> Count(cols, name) == 0)
            && (k < |cols| ==> Matches(cols[k], name) && Count(cols, name) == 1 + Count(cols[k + 1..], name))
  {
    if cols != [] && !Matches(cols[0], name) {
      CountFirst(cols[1..], name);
      var k := FirstMatch(cols[1..], name);
      assert k < |cols[1..]| ==> cols[1..][k + 1..] == cols[k + 2..];
    }
  }

  /** A column is found exactly if there is one of the name, and missed exactly if there is none. */
  lemma CountFinds(cols: seq<Header>, name: string)
    ensures Has(cols, name) <==> Count(cols, name) == 1
    ensures FindCol(cols, name) == Failure(ColumnNotFound) <==> Count(cols, name) == 0
    ensures FindCol(cols, name) == Failure(ColumnNotUnique) <==> Count(cols, name) >= 2
  {
    CountFirst(cols, name);
    var k := FirstMatch(cols, name);
    if k < |cols| {
      CountFirst(cols[k + 1..], name);
    }
  }

  lemma CountLower(cols: seq<Header>, a: string, b: string)
    requires Lower(a) == Lower(b)
    ensures Count(cols, a) == Count(cols, b)
  {
  }

  // ------------------------------------------------------------------------------------------

  /** One header-data unit: a binary table or an image, and its other keywords. */
  datatype Hdu = Hdu(table: Option<TableData>, keys: map<string, string>)

  ghost predicate HdusSound(hdus: seq<Hdu>) {
    forall i | 0 <= i < |hdus| && hdus[i].table.Some? :: Sound(hdus[i].table.value)
  }

  ghost predicate IsTable(hdus: seq<Hdu>, n: int) {
    1 <= n <= |hdus| && hdus[n - 1].table.Some?
  }

  /** A file handle. CFITSIO works on whichever HDU is current, so does everything below. */
  class File {
    const suffixRule: SuffixRule
    var chdu: int
    var hdus: seq<Hdu>

    ghost predicate Valid()
      reads this
    {
      1 <= chdu <= |hdus| && HdusSound(hdus)
    }

    /** File::move_to(int): a move is made only if it leads elsewhere. */
    method MoveTo(hduNum: int) returns (st: Status)
      requires Valid()
      modifies `chdu
      ensures Valid()
      ensures st == if 1 <= hduNum <= |hdus| then Success(()) else Failure(BadHdu)
      ensures chdu == if st.Success? then hduNum else old(chdu)
    {
      if chdu == hduNum {
        return Success(());
      }
      if !(1 <= hduNum <= |hdus|) {
        return Failure(BadHdu);
      }
      chdu := hduNum;
      return Success(());
    }

    predicate AtTable()
      reads this
    {
      1 <= chdu <= |hdus| && hdus[chdu - 1].table.Some?
    }

    /** The table in the current HDU. */
    function Table(): TableData
      requires AtTable()
      reads this
    {
      hdus[chdu - 1].table.value
    }

    method PutTable(t: TableData)
      requires Valid() && AtTable() && Sound(t)
      modifies `hdus
      ensures Valid() && hdus == old(WithTable(hdus, chdu, t))
    {
      hdus := hdus[chdu - 1 := hdus[chdu - 1].(table := Some(t))];
    }

    /** fits_update_key on the current HDU. */
    method PutKey(name: string, value: string)
      requires Valid()
      modifies `hdus
      ensures Valid() && hdus == old(WithKey(hdus, chdu, name, value))
    {
      hdus := hdus[chdu - 1 := hdus[chdu - 1].(keys := hdus[chdu - 1].keys[name := value])];
    }
  }

  function WithTable(hdus: seq<Hdu>, n: int, t: TableData): seq<Hdu>
    requires 1 <= n <= |hdus|
  {
    hdus[n - 1 := hdus[n - 1].(table := Some(t))]
  }

  function WithKey(hdus: seq<Hdu>, n: int, name: string, value: string): seq<Hdu>
    requires 1 <= n <= |hdus|
  {
    hdus[n - 1 := hdus[n - 1].(keys := hdus[n - 1].keys[name := value])]
  }

  function Keyword(keys: map<string, string>, name: string, default_: string): (string, bool) {
    if name in keys then (keys[name], true) else (default_, false)
  }

  /** A keyword set in one HDU is read there, as it was set; every other keyword, and every keyword of another HDU,
      is read as before, and no table is changed. */
  lemma KeywordKept(hdus: seq<Hdu>, n: nat, name: string, value: string, m: nat, key: string, default_: string)
    requires 1 <= n <= |hdus| && 1 <= m <= |hdus|
    ensures var now := WithKey(hdus, n, name, value);
            && |now| == |hdus| && now[m - 1].table == hdus[m - 1].table
            && (m == n && key == name ==> Keyword(now[m - 1].keys, key, default_) == (value, true))
            && (m != n || key != name ==>
                  Keyword(now[m - 1].keys, key, default_) == Keyword(hdus[m - 1].keys, key, default_))
            && (key !in hdus[m - 1].keys ==> Keyword(hdus[m - 1].keys, key, default_) == (default_, false))
  {
  }
}
