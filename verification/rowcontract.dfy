/** What a Row achieves: columns address their own cells, whole tables are written and read back, cursors do
    not disturb each other, and rows survive columns appended to their table. */
module RowContracts {
  import opened Results
  import opened Bytes
  import opened BitSets
  import opened TextCodec
  import opened Extents
  import opened Columns
  import opened Stores
  import opened RowSpecs

  // ------------------------------------------------------------------------------------------
  // Columns address their own cells

  lemma LayoutDescribed(cols: seq<Header>, k: nat)
    requires AllWellFormed(cols) && Describable(cols) && k < |cols|
    ensures |Layout(cols)| == |cols| && Described(Layout(cols)[k])
  {
    hide WellFormed, Even, CellBytes, ReadTdim, Nelem, Product;
    LayoutAt(cols, k);
    InitCount(cols[k]);
    InitBytesExact(cols[k]);
    ReadProduct(cols[k]);
  }

  /** A column bound to the description of its column. */
  ghost predicate BoundTo(d: Desc, cols: seq<Header>) {
    && AllWellFormed(cols) && Describable(cols)
    && 1 <= d.colnum <= |cols| == |Layout(cols)|
    && var ci := Layout(cols)[d.colnum - 1];
       Described(ci) && Direct(d.kind, ci.id) && Bind(d.kind, ci, d.addr) == Success(d)
  }

  /** What a bound column needs of its table: text goes by byte offset, so that its own column and all in front
      must be even; other types go by column number and need nothing. */
  ghost predicate Reaches(d: Desc, cols: seq<Header>)
    requires AllWellFormed(cols) && d.colnum <= |cols|
  {
    d.kind == KString || d.kind == KStrings ==> forall j | 0 <= j < d.colnum :: Even(cols[j])
  }

  ghost predicate Owns(d: Desc, cols: seq<Header>) {
    BoundTo(d, cols) && Reaches(d, cols)
  }

  lemma LayoutCounts(cols: seq<Header>, k: nat)
    requires AllWellFormed(cols) && Describable(cols) && k < |cols|
    ensures |Layout(cols)| == |cols|
    ensures var ci, f := Layout(cols)[k], FormOf(cols[k]);
            && ci.id == f.id && (Nelem(ci.extent) == f.repeat <==> Even(cols[k]))
            && (ci.nbytes == CellBytes(cols[k]) <==> Even(cols[k]))
            && ci.offset == 1 + InitSum(cols, k) && 0 <= InitSum(cols, k) <= RowBytes(cols, k)
            && (InitSum(cols, k) == RowBytes(cols, k) <==> forall j | 0 <= j < k :: Even(cols[j]))
  {
    hide InitExtent, InitBytes, WellFormed, Nelem, CellBytes, Even;
    LayoutAt(cols, k);
    SumsAgree(cols, k);
    InitCount(cols[k]);
    InitBytesExact(cols[k]);
  }

  /** A bound column transfers exactly the bytes of its cell, from the cell's place in the row, if and only if
      its table has what it needs. */
  lemma BoundExtent(d: Desc, cols: seq<Header>)
    requires BoundTo(d, cols)
    ensures 1 <= d.colnum <= |cols| && AllWellFormed(cols)
    ensures Built(d) && 1 <= d.offset <= 1 + RowBytes(cols, d.colnum - 1)
    ensures Reaches(d, cols) <==>
              && d.natomic == CellBytes(cols[d.colnum - 1])
              && (d.kind == KString || d.kind == KStrings ==> d.offset == 1 + RowBytes(cols, d.colnum - 1))
  {
    hide Layout, WellFormed, FormOf, Nelem, ReadTdim, RowBytes, InitSum;
    LayoutCounts(cols, d.colnum - 1);
  }

  function Stored(d: Desc, bytes: seq<Byte>): (r: seq<Byte>)
    ensures |r| == |bytes|
  {
    if d.kind == KBools then MapBytes(LogicalOut, bytes) else bytes
  }

  function Loaded(d: Desc, bytes: seq<Byte>): (r: seq<Byte>)
    ensures |r| == |bytes|
  {
    if d.kind == KBools then MapBytes(LogicalIn, bytes) else bytes
  }

  /** In any row of such a table a bound column reads its own cell and writes that cell alone. */
  lemma OwnCell(d: Desc, cols: seq<Header>, row: RowCells, bytes: seq<Byte>)
    requires Owns(d, cols) && RowOk(cols, row) && |bytes| == d.natomic
    ensures Fetch(d, row) == Success(Loaded(d, row[d.colnum - 1]))
    ensures Put(d, row, bytes) == Success(row[d.colnum - 1 := Stored(d, bytes)])
  {
    hide BoundTo, Reaches, CellBytes, Flatten, Unflatten;
    BoundExtent(d, cols);
    var k := d.colnum - 1;
    FlattenLength(cols, row, k);
    RangeIsCell(row, k, bytes);
    assert row[k][..d.natomic] == row[k];
    assert Stored(d, bytes) + row[k][d.natomic..] == Stored(d, bytes);
  }

  lemma ZeroFlatten(row: RowCells)
    requires forall k | 0 <= k < |row| :: forall i | 0 <= i < |row[k]| :: row[k][i] == 0
    ensures forall i | 0 <= i < |Flatten(row)| :: Flatten(row)[i] == 0
  {
  }

  /** A row whose only bytes other than zero are those of one cell. */
  function Marked(cols: seq<Header>, k: nat): (row: RowCells)
    requires AllWellFormed(cols) && k < |cols|
    ensures RowOk(cols, row)
  {
    ZeroRow(cols)[k := Filled(CellBytes(cols[k]), 1)]
  }

  lemma MarkedBefore(cols: seq<Header>, k: nat, i: nat)
    requires AllWellFormed(cols) && k < |cols| && i < RowBytes(cols, k)
    ensures i < |Flatten(Marked(cols, k))| && Flatten(Marked(cols, k))[i] == 0
  {
    hide CellBytes, WellFormed;
    var row := Marked(cols, k);
    FlattenSplit(row, k);
    FlattenLength(cols, row, k);
    ZeroFlatten(row[..k]);
  }

  /** Elsewhere it does not: a bound column reads its own cell in every row if and only if the table has what
      the column needs. */
  lemma OwnCellExactly(d: Desc, cols: seq<Header>)
    requires BoundTo(d, cols)
    ensures Reaches(d, cols) <==>
              forall row | RowOk(cols, row) :: Fetch(d, row) == Success(Loaded(d, row[d.colnum - 1]))
  {
    hide BoundTo, Reaches, CellBytes, WellFormed, Flatten;
    BoundExtent(d, cols);
    var k := d.colnum - 1;
    if Reaches(d, cols) {
      forall row | RowOk(cols, row)
        ensures Fetch(d, row) == Success(Loaded(d, row[k]))
      {
        OwnCell(d, cols, row, Filled(d.natomic, 0));
      }
    } else {
      var row := Marked(cols, k);
      assert RowOk(cols, row) && |row[k]| == CellBytes(cols[k]) && row[k][0] == 1;
      if d.natomic == CellBytes(cols[k]) {
        MarkedBefore(cols, k, d.offset - 1);
      }
      assert Fetch(d, row) != Success(Loaded(d, row[k]));
    }
  }

  // ------------------------------------------------------------------------------------------
  // One object written and read back

  /** Objects of exactly the size of their column, as binding leaves them. */
  predicate Exact(d: Desc, v: Value) {
    && Writable(d, v)
    && (v.VRaw? ==> |v.bytes| == d.natomic)
    && (v.VBools? ==> |v.bs| == d.natomic)
  }

  /** The normal form of each codec. */
  function Normal(d: Desc, v: Value): Value {
    match v
    case VString(s) => VString(StringNormal(s, d.natomic))
    case VStrings(ss) => VStrings(seq(|ss|, i requires 0 <= i < |ss| => CutNul(Truncate(ss[i], d.width))))
    case _ => v
  }

  /** Objects that differ at most in their contents. */
  predicate SameShape(v: Value, w: Value) {
    match v
    case VBits(_) => w.VBits?
    case VString(_) => w.VString?
    case VStrings(ss) => w.VStrings? && |w.ss| == |ss|
    case VRaw(b) => w.VRaw? && |w.bytes| == |b|
    case VBools(b) => w.VBools? && |w.bs| == |b|
  }

  /** Reading what was written gives the normal form, whatever the object held in between. */
  lemma ValueRoundTrip(d: Desc, v: Value, w: Value)
    requires Built(d) && Exact(d, v) && Readable(d, w) && SameShape(v, w)
    ensures Decode(d, Loaded(d, Stored(d, Encode(d, v))), w) == Normal(d, v)
  {
    hide Reversed, Unpacked, Slots, Unslotted, Padded, Booleans, FromBooleans, MapBytes, LogicalIn, LogicalOut;
    match v
    case VBits(b) => BitRoundTrip(b);
    case VString(_) =>
    case VStrings(ss) => SlotsRoundTrip(ss, d.width, d.natomic);
    case VRaw(b) => WholeRaw(b, w.bytes, d.natomic);
    case VBools(bs) => WholeBools(bs, w.bs);
  }

  lemma WholeRaw(b: seq<Byte>, w: seq<Byte>, n: nat)
    requires |b| == |w| == n
    ensures b[..n] == b && b + w[n..] == b
  {
  }

  /** Letters on the way out, bytes on the way in. */
  lemma WholeBools(bs: seq<bool>, w: seq<bool>)
    requires |w| == |bs|
    ensures bs[..|bs|] == bs
    ensures Booleans(MapBytes(LogicalIn, MapBytes(LogicalOut, FromBooleans(bs)))) + w[|bs|..] == bs
  {
    var bytes := MapBytes(LogicalIn, MapBytes(LogicalOut, FromBooleans(bs)));
    assert Booleans(bytes) == bs;
  }

  // ------------------------------------------------------------------------------------------
  // A Row written and read back

  /** One entry per column, none shared. */
  ghost predicate Apart(ds: seq<Desc>, cols: seq<Header>) {
    && (forall i | 0 <= i < |ds| :: Owns(ds[i], cols))
    && (forall i, j | 0 <= i < j < |ds| :: ds[i].colnum != ds[j].colnum && ds[i].addr != ds[j].addr)
  }

  ghost predicate AllExact(ds: seq<Desc>, mem: Heap) {
    forall i | 0 <= i < |ds| :: Built(ds[i]) && ds[i].addr in mem && Exact(ds[i], mem[ds[i].addr])
  }

  /** What column i and on write into a row. */
  function Written(ds: seq<Desc>, i: nat, row: RowCells, mem: Heap): (r: RowCells)
    requires i <= |ds| && ReadyToWrite(ds, mem)
    requires forall j | i <= j < |ds| :: 1 <= ds[j].colnum <= |row| && |row[ds[j].colnum - 1]| == ds[j].natomic
    ensures |r| == |row| && forall k | 0 <= k < |row| :: |r[k]| == |row[k]|
    decreases |ds| - i
  {
    if i == |ds| then row
    else Written(ds, i + 1, row[ds[i].colnum - 1 := Stored(ds[i], Encode(ds[i], mem[ds[i].addr]))], mem)
  }

  lemma {:induction false} WrittenKeeps(ds: seq<Desc>, i: nat, row: RowCells, mem: Heap, k: nat)
    requires i <= |ds| && ReadyToWrite(ds, mem) && k < |row|
    requires forall j | i <= j < |ds| :: 1 <= ds[j].colnum <= |row| && |row[ds[j].colnum - 1]| == ds[j].natomic
    requires forall j | i <= j < |ds| :: ds[j].colnum - 1 != k
    ensures Written(ds, i, row, mem)[k] == row[k]
    decreases |ds| - i
  {
    if i < |ds| {
      WrittenKeeps(ds, i + 1, row[ds[i].colnum - 1 := Stored(ds[i], Encode(ds[i], mem[ds[i].addr]))], mem, k);
    }
  }

  /** Each entry's bytes are in its own cell. */
  lemma {:induction false} WrittenCell(ds: seq<Desc>, i: nat, row: RowCells, mem: Heap, j: nat)
    requires i <= j < |ds| && ReadyToWrite(ds, mem)
    requires forall m | i <= m < |ds| :: 1 <= ds[m].colnum <= |row| && |row[ds[m].colnum - 1]| == ds[m].natomic
    requires forall m, n | i <= m < n < |ds| :: ds[m].colnum != ds[n].colnum
    ensures Written(ds, i, row, mem)[ds[j].colnum - 1] == Stored(ds[j], Encode(ds[j], mem[ds[j].addr]))
    decreases |ds| - i
  {
    var row' := row[ds[i].colnum - 1 := Stored(ds[i], Encode(ds[i], mem[ds[i].addr]))];
    if i < j {
      WrittenCell(ds, i + 1, row', mem, j);
    } else {
      WrittenKeeps(ds, i + 1, row', mem, ds[i].colnum - 1);
    }
  }

  lemma ExactReady(ds: seq<Desc>, mem: Heap)
    requires AllExact(ds, mem)
    ensures ReadyToRead(ds, mem) && ReadyToWrite(ds, mem)
  {
  }

  lemma CellLengths(ds: seq<Desc>, cols: seq<Header>, row: RowCells)
    requires Apart(ds, cols) && AllWellFormed(cols) && RowOk(cols, row)
    ensures forall j | 0 <= j < |ds| :: 1 <= ds[j].colnum <= |row| && |row[ds[j].colnum - 1]| == ds[j].natomic
  {
    hide BoundTo, Reaches, CellBytes, WellFormed, Built;
    forall j | 0 <= j < |ds|
      ensures 1 <= ds[j].colnum <= |row| && |row[ds[j].colnum - 1]| == ds[j].natomic
    {
      BoundExtent(ds[j], cols);
    }
  }

  /** Writing all columns to a row changes that row only, growing the table first if it is not there yet. */
  lemma {:induction false} WriteFromRow(ds: seq<Desc>, i: nat, t: TableData, idx: int, mem: Heap)
    requires Sound(t) && Apart(ds, t.cols) && ReadyToWrite(ds, mem) && i < |ds| && idx >= 1
    ensures var t1 := Grown(t, idx);
            && RowOk(t1.cols, t1.rows[idx - 1])
            && (forall j | i <= j < |ds| ::
                  1 <= ds[j].colnum <= |t1.rows[idx - 1]| && |t1.rows[idx - 1][ds[j].colnum - 1]| == ds[j].natomic)
            && WriteFrom(ds, i, t, idx, mem)
               == (t1.(rows := t1.rows[idx - 1 := Written(ds, i, t1.rows[idx - 1], mem)]), Success(()))
    decreases |ds| - i
  {
    hide Owns, Put, Encode, Writable, Built, CellBytes, WellFormed;
    var t1, d := Grown(t, idx), ds[i];
    var row := t1.rows[idx - 1];
    assert RowOk(t1.cols, row);
    CellLengths(ds, t.cols, row);
    OwnCell(d, t.cols, row, Encode(d, mem[d.addr]));
    var row' := row[d.colnum - 1 := Stored(d, Encode(d, mem[d.addr]))];
    var t2 := PutRow(t1, idx, row');
    assert WriteOne(d, t, idx, mem[d.addr]) == Success(t2);
    assert Grown(t2, idx) == t2;
    assert t2.rows[idx - 1] == row' && t2.cols == t1.cols;
    if i + 1 < |ds| {
      WriteFromRow(ds, i + 1, t2, idx, mem);
      var last := Written(ds, i + 1, row', mem);
      assert t2.rows[idx - 1 := last] == t1.rows[idx - 1 := last];
    } else {
      assert Written(ds, i + 1, row', mem) == row';
    }
  }

  /** Reading all columns of a row gives each object its own cell's contents and touches no other object. */
  lemma {:induction false} ReadFromRow(ds: seq<Desc>, i: nat, cols: seq<Header>, row: RowCells, mem: Heap)
    requires Apart(ds, cols) && AllWellFormed(cols) && RowOk(cols, row) && ReadyToRead(ds, mem) && i <= |ds|
    ensures var (mem', st) := ReadFrom(ds, i, row, mem);
            && st == Success(()) && mem'.Keys == mem.Keys && ReadyToRead(ds, mem')
            && (forall j | i <= j < |ds| ::
                  1 <= ds[j].colnum <= |row| && |row[ds[j].colnum - 1]| == ds[j].natomic
                  && mem'[ds[j].addr] == Decode(ds[j], Loaded(ds[j], row[ds[j].colnum - 1]), mem[ds[j].addr]))
            && (forall a | a in mem && (forall j | i <= j < |ds| :: ds[j].addr != a) :: mem'[a] == mem[a])
    decreases |ds| - i
  {
    hide Owns, Fetch, Decode, Readable, Built, CellBytes, Loaded, WellFormed;
    if i < |ds| {
      var d := ds[i];
      CellLengths(ds, cols, row);
      var bytes := Loaded(d, row[d.colnum - 1]);
      OwnCell(d, cols, row, bytes);
      StaysReadable(ds, mem, i, bytes);
      ReadFromRow(ds, i + 1, cols, row, mem[d.addr := Decode(d, bytes, mem[d.addr])]);
    }
  }

  // ------------------------------------------------------------------------------------------
  // Whole runs

  /** Write one record after the other through one Row. */
  function WriteRun(r: RowState, t: TableData, recs: seq<Heap>): (RowState, TableData, Status)
    requires Sound(t) && forall k | 0 <= k < |recs| :: ReadyToWrite(r.ds, recs[k])
    decreases |recs|
  {
    if recs == [] then (r, t, Success(()))
    else
      var (r1, t1, st) := WriteRow(r, t, recs[0]);
      if st.Failure? then (r1, t1, st) else WriteRun(r1, t1, recs[1..])
  }

  /** The objects after reading `row` on top of `before`. */
  ghost predicate SeenRow(ds: seq<Desc>, row: RowCells, before: Heap, after: Heap) {
    && ReadyToRead(ds, before) && after.Keys == before.Keys
    && forall j | 0 <= j < |ds| ::
         && 1 <= ds[j].colnum <= |row| && |row[ds[j].colnum - 1]| == ds[j].natomic
         && after[ds[j].addr] == Decode(ds[j], Loaded(ds[j], row[ds[j].colnum - 1]), before[ds[j].addr])
  }

  lemma ReadRowStep(r: RowState, t: TableData, mem: Heap)
    requires Sound(t) && Apart(r.ds, t.cols) && ReadyToRead(r.ds, mem) && r.auto && r.ds != []
    requires 1 <= r.idx <= |t.rows|
    ensures var (r', mem', done) := ReadRow(r, t, mem);
            && r' == r.(idx := r.idx + 1) && done == Success(true)
            && ReadyToRead(r.ds, mem') && SeenRow(r.ds, t.rows[r.idx - 1], mem, mem')
  {
    hide Apart, ReadFrom, Decode, Loaded, Built, Readable, CellBytes, WellFormed;
    assert RowOk(t.cols, t.rows[r.idx - 1]);
    ReadFromRow(r.ds, 0, t.cols, t.rows[r.idx - 1], mem);
  }

  /** Call read() while it says that it has read a row, at most `calls` times: the cursor at the end, the memory
      after each row, and what the last call said, if it was not yet another row. */
  function ReadWhile(r: RowState, t: TableData, mem: Heap, calls: nat): (RowState, seq<Heap>, Option<Result<bool>>)
    requires ReadyToRead(r.ds, mem)
    decreases calls
  {
    hide ReadRow, Built, Readable;
    if calls == 0 then (r, [], None)
    else
      ReadRowReady(r, t, mem);
      var (r1, mem1, said) := ReadRow(r, t, mem);
      if said != Success(true) then (r1, [], Some(said))
      else
        var (r2, rest, last) := ReadWhile(r1, t, mem1, calls - 1);
        (r2, [mem1] + rest, last)
  }

  lemma ReadRowReady(r: RowState, t: TableData, mem: Heap)
    requires ReadyToRead(r.ds, mem)
    ensures ReadyToRead(ReadRow(r, t, mem).0.ds, ReadRow(r, t, mem).1)
  {
    assert Agree(r.ds, mem, mem);
    ReadRowFrame(r, t, mem, mem, []);
  }

  /** The row a record becomes in a table that does not have it yet. */
  function NewRow(ds: seq<Desc>, cols: seq<Header>, rec: Heap): (row: RowCells)
    requires AllWellFormed(cols) && Apart(ds, cols) && AllExact(ds, rec)
    ensures RowOk(cols, row)
  {
    CellLengths(ds, cols, ZeroRow(cols));
    ExactReady(ds, rec);
    Written(ds, 0, ZeroRow(cols), rec)
  }

  ghost predicate Records(ds: seq<Desc>, recs: seq<Heap>) {
    forall k | 0 <= k < |recs| :: AllExact(ds, recs[k])
  }

  lemma RecordsReady(ds: seq<Desc>, recs: seq<Heap>)
    requires Records(ds, recs)
    ensures forall k | 0 <= k < |recs| :: ReadyToWrite(ds, recs[k]) && ReadyToRead(ds, recs[k])
  {
    forall k | 0 <= k < |recs|
      ensures ReadyToWrite(ds, recs[k]) && ReadyToRead(ds, recs[k])
    {
      ExactReady(ds, recs[k]);
    }
  }

  lemma AppendOne(r: RowState, t: TableData, rec: Heap)
    requires Sound(t) && Apart(r.ds, t.cols) && AllExact(r.ds, rec) && r.ds != []
    requires r.auto && r.idx == |t.rows| + 1
    ensures ReadyToWrite(r.ds, rec)
    ensures WriteRow(r, t, rec) == (r.(idx := r.idx + 1), t.(rows := t.rows + [NewRow(r.ds, t.cols, rec)]), Success(()))
  {
    hide Apart, WriteFrom, Written;
    ExactReady(r.ds, rec);
    WriteFromRow(r.ds, 0, t, r.idx, rec);
    var t1 := Grown(t, r.idx);
    assert t1.rows == t.rows + [ZeroRow(t.cols)];
    var row := NewRow(r.ds, t.cols, rec);
    assert t1.rows[r.idx - 1 := row] == t.rows + [row];
  }

  /** Consecutive writes append one row for each record, in order. */
  lemma {:induction false} WriteRunAppends(r: RowState, t: TableData, recs: seq<Heap>)
    requires Sound(t) && Apart(r.ds, t.cols) && Records(r.ds, recs) && r.ds != []
    requires r.auto && r.idx == |t.rows| + 1
    ensures forall k | 0 <= k < |recs| :: ReadyToWrite(r.ds, recs[k])
    ensures WriteRun(r, t, recs)
         == (r.(idx := r.idx + |recs|), t.(rows := t.rows + NewRows(r.ds, t.cols, recs)), Success(()))
    decreases |recs|
  {
    hide Apart, WriteRow, NewRow, NewRows, RowOk, WellFormed, AllExact, ReadyToWrite;
    RecordsReady(r.ds, recs);
    if recs != [] {
      AppendOne(r, t, recs[0]);
      var row := NewRow(r.ds, t.cols, recs[0]);
      var (r1, t1, st) := WriteRow(r, t, recs[0]);
      AppendSound(t, row);
      WriteRunAppends(r1, t1, recs[1..]);
      NewRowsStep(r.ds, t.cols, recs, t.rows);
    } else {
      assert t.rows + [] == t.rows;
    }
  }

  lemma NewRowsStep(ds: seq<Desc>, cols: seq<Header>, recs: seq<Heap>, rows: seq<RowCells>)
    requires AllWellFormed(cols) && Apart(ds, cols) && Records(ds, recs) && recs != []
    ensures rows + [NewRow(ds, cols, recs[0])] + NewRows(ds, cols, recs[1..]) == rows + NewRows(ds, cols, recs)
  {
    hide Apart, NewRow, WellFormed, AllExact;
    var one, rest := [NewRow(ds, cols, recs[0])], NewRows(ds, cols, recs[1..]);
    assert NewRows(ds, cols, recs) == one + rest;
    assert rows + one + rest == rows + (one + rest);
  }

  function NewRows(ds: seq<Desc>, cols: seq<Header>, recs: seq<Heap>): (rows: seq<RowCells>)
    requires AllWellFormed(cols) && Apart(ds, cols) && Records(ds, recs)
    ensures |rows| == |recs|
    ensures forall k | 0 <= k < |recs| :: rows[k] == NewRow(ds, cols, recs[k])
  {
    if recs == [] then [] else [NewRow(ds, cols, recs[0])] + NewRows(ds, cols, recs[1..])
  }

  lemma AppendSound(t: TableData, row: RowCells)
    requires Sound(t) && RowOk(t.cols, row)
    ensures Sound(t.(rows := t.rows + [row]))
  {
  }

  /** The memory before the k-th read. */
  function Before(mem: Heap, seen: seq<Heap>, k: nat): Heap
    requires k <= |seen|
  {
    if k == 0 then mem else seen[k - 1]
  }

  /** Calling read() while it says so goes through the remaining rows, one call that reads a row for each, until
      a call says that there is none, with the cursor behind the last row. */
  lemma {:induction false} ReadWhileAll(r: RowState, t: TableData, mem: Heap, calls: nat)
    requires Sound(t) && Apart(r.ds, t.cols) && ReadyToRead(r.ds, mem)
    requires r.auto && r.ds != [] && 1 <= r.idx <= |t.rows| + 1 && calls >= |t.rows| + 2 - r.idx
    ensures var (r', seen, last) := ReadWhile(r, t, mem, calls);
            && last == Some(Success(false)) && r' == r.(idx := |t.rows| + 1) && |seen| == |t.rows| + 1 - r.idx
            && forall k | 0 <= k < |seen| :: SeenRow(r.ds, t.rows[r.idx - 1 + k], Before(mem, seen, k), seen[k])
    decreases calls
  {
    hide Apart, SeenRow, RowOk, WellFormed, ReadyToRead, ReadFrom;
    if r.idx <= |t.rows| {
      ReadRowStep(r, t, mem);
      var (r1, mem1, _) := ReadRow(r, t, mem);
      ReadWhileAll(r1, t, mem1, calls - 1);
      var (_, rest, _) := ReadWhile(r1, t, mem1, calls - 1);
      var seen := [mem1] + rest;
      forall k | 0 <= k < |seen|
        ensures SeenRow(r.ds, t.rows[r.idx - 1 + k], Before(mem, seen, k), seen[k])
      {
        if k > 0 {
          var i := k - 1;
          assert SeenRow(r1.ds, t.rows[r1.idx - 1 + i], Before(mem1, rest, i), rest[i]);
        }
      }
    }
  }

  /** Memory whose bound objects have the shapes of a record's. */
  ghost predicate Alike(ds: seq<Desc>, rec: Heap, mem: Heap) {
    forall j | 0 <= j < |ds| ::
      ds[j].addr in rec && ds[j].addr in mem && SameShape(rec[ds[j].addr], mem[ds[j].addr])
  }

  lemma {:induction false} SeenNormal(ds: seq<Desc>, cols: seq<Header>, rec: Heap, before: Heap, after: Heap, j: nat)
    requires AllWellFormed(cols) && Apart(ds, cols) && AllExact(ds, rec) && j < |ds|
    requires SeenRow(ds, NewRow(ds, cols, rec), before, after) && Alike(ds, rec, before)
    ensures ds[j].addr in after && after[ds[j].addr] == Normal(ds[j], rec[ds[j].addr])
  {
    CellLengths(ds, cols, ZeroRow(cols));
    ExactReady(ds, rec);
    WrittenCell(ds, 0, ZeroRow(cols), rec, j);
    ValueRoundTrip(ds[j], rec[ds[j].addr], before[ds[j].addr]);
  }

  lemma ShapeChain(d: Desc, a: Value, b: Value, m: Value)
    requires SameShape(a, m) && SameShape(b, m)
    ensures SameShape(a, Normal(d, b))
  {
  }

  /** The objects of a record, each in its normal form. */
  ghost predicate IsNormal(ds: seq<Desc>, rec: Heap, mem: Heap) {
    forall j | 0 <= j < |ds| ::
      ds[j].addr in rec && ds[j].addr in mem && mem[ds[j].addr] == Normal(ds[j], rec[ds[j].addr])
  }

  lemma {:induction false} SeenAllNormal(ds: seq<Desc>, cols: seq<Header>, recs: seq<Heap>, mem: Heap,
                                         seen: seq<Heap>, k: nat)
    requires AllWellFormed(cols) && Apart(ds, cols) && Records(ds, recs) && k < |seen| == |recs|
    requires forall i | 0 <= i < |recs| :: Alike(ds, recs[i], mem)
    requires forall i | 0 <= i < |seen| :: SeenRow(ds, NewRow(ds, cols, recs[i]), Before(mem, seen, i), seen[i])
    ensures IsNormal(ds, recs[k], seen[k])
  {
    hide Apart, SeenRow, NewRow, Exact, SameShape, Normal;
    var before := Before(mem, seen, k);
    assert Alike(ds, recs[k], before) by {
      if k > 0 {
        SeenAllNormal(ds, cols, recs, mem, seen, k - 1);
        forall j | 0 <= j < |ds|
          ensures ds[j].addr in recs[k] && ds[j].addr in before && SameShape(recs[k][ds[j].addr], before[ds[j].addr])
        {
          assert Alike(ds, recs[k], mem) && Alike(ds, recs[k - 1], mem);
          ShapeChain(ds[j], recs[k][ds[j].addr], recs[k - 1][ds[j].addr], mem[ds[j].addr]);
        }
      }
    }
    forall j | 0 <= j < |ds|
      ensures ds[j].addr in recs[k] && ds[j].addr in seen[k]
      ensures seen[k][ds[j].addr] == Normal(ds[j], recs[k][ds[j].addr])
    {
      assert AllExact(ds, recs[k]);
      SeenNormal(ds, cols, recs[k], before, seen[k], j);
    }
  }

  lemma NoMoreRows(r: RowState, t: TableData)
    requires r.ds != [] && r.idx > |t.rows|
    ensures forall m: Heap | ReadyToRead(r.ds, m) :: ReadRow(r, t, m) == (r, m, Success(false))
  {
  }

  /** The reading half, on the rows that the records have become. */
  lemma ReadBack(ds: seq<Desc>, cols: seq<Header>, recs: seq<Heap>, mem: Heap, calls: nat)
    requires AllWellFormed(cols) && Apart(ds, cols) && ds != [] && Records(ds, recs) && ReadyToRead(ds, mem)
    requires (forall k | 0 <= k < |recs| :: Alike(ds, recs[k], mem)) && calls > |recs|
    ensures var start, t := RowState(1, true, ds), TableData(cols, NewRows(ds, cols, recs));
            var (r, seen, last) := ReadWhile(start, t, mem, calls);
            && last == Some(Success(false)) && r == start.(idx := |recs| + 1) && |seen| == |recs|
            && forall k | 0 <= k < |recs| :: IsNormal(ds, recs[k], seen[k])
  {
    hide Apart, AllExact, ReadyToRead, ReadWhile, NewRow, NewRows, SeenRow, IsNormal, Alike, WellFormed, RowOk;
    var start, rows := RowState(1, true, ds), NewRows(ds, cols, recs);
    var t := TableData(cols, rows);
    ReadWhileAll(start, t, mem, calls);
    var (r, seen, last) := ReadWhile(start, t, mem, calls);
    forall i | 0 <= i < |seen|
      ensures SeenRow(ds, NewRow(ds, cols, recs[i]), Before(mem, seen, i), seen[i])
    {
      assert SeenRow(ds, t.rows[start.idx - 1 + i], Before(mem, seen, i), seen[i]);
    }
    forall k | 0 <= k < |recs|
      ensures IsNormal(ds, recs[k], seen[k])
    {
      SeenAllNormal(ds, cols, recs, mem, seen, k);
    }
  }

  /** A whole run: n records written to an empty table through one Row, and read back through a fresh one by
      calling read() while it says that it has read a row. The writes append n rows. Exactly n calls read a row,
      and give the records in order, each object in its codec's normal form; the next call says no, with the
      cursor behind the last row; and so does any further call, which changes nothing. */
  lemma WriteThenRead(ds: seq<Desc>, cols: seq<Header>, recs: seq<Heap>, mem: Heap, calls: nat)
    requires AllWellFormed(cols) && Apart(ds, cols) && ds != [] && Records(ds, recs) && ReadyToRead(ds, mem)
    requires (forall k | 0 <= k < |recs| :: Alike(ds, recs[k], mem)) && calls > |recs|
    ensures forall k | 0 <= k < |recs| :: ReadyToWrite(ds, recs[k])
    ensures var start := RowState(1, true, ds);
            var (w, t, written) := WriteRun(start, TableData(cols, []), recs);
            && written == Success(()) && w.idx == |recs| + 1 && |t.rows| == |recs|
            && t.cols == cols && Sound(t)
            && var (r, seen, last) := ReadWhile(start, t, mem, calls);
            && last == Some(Success(false)) && r == start.(idx := |recs| + 1) && |seen| == |recs|
            && (forall k | 0 <= k < |recs| :: IsNormal(ds, recs[k], seen[k]))
            && (forall m: Heap | ReadyToRead(ds, m) :: ReadRow(r, t, m) == (r, m, Success(false)))
  {
    hide Apart, AllExact, ReadyToWrite, ReadyToRead, WriteRow, WriteRun, ReadRow, ReadWhile, NewRows, IsNormal, Alike,
         WellFormed, RowOk;
    var start, t0 := RowState(1, true, ds), TableData(cols, []);
    WriteRunAppends(start, t0, recs);
    var rows := NewRows(ds, cols, recs);
    assert [] + rows == rows;
    ReadBack(ds, cols, recs, mem, calls);
    NoMoreRows(start.(idx := |recs| + 1), TableData(cols, rows));
  }

  // ------------------------------------------------------------------------------------------
  // Several cursors on one table

  ghost predicate Agree(ds: seq<Desc>, a: Heap, b: Heap) {
    forall i | 0 <= i < |ds| :: ds[i].addr in a && ds[i].addr in b && a[ds[i].addr] == b[ds[i].addr]
  }

  ghost predicate Disjoint(ds: seq<Desc>, es: seq<Desc>) {
    forall i, j | 0 <= i < |ds| && 0 <= j < |es| :: ds[i].addr != es[j].addr
  }

  /** Reading depends on no object but the Row's own, and changes no other. */
  lemma {:induction false} ReadFromFrame(ds: seq<Desc>, i: nat, row: RowCells, a: Heap, b: Heap, es: seq<Desc>)
    requires i <= |ds| && ReadyToRead(ds, a) && Agree(ds, a, b)
    ensures ReadyToRead(ds, b) && ReadyToRead(ds, ReadFrom(ds, i, row, a).0)
    ensures ReadFrom(ds, i, row, a).1 == ReadFrom(ds, i, row, b).1
    ensures Agree(ds, ReadFrom(ds, i, row, a).0, ReadFrom(ds, i, row, b).0)
    ensures Disjoint(ds, es) && Agree(es, a, a) ==> Agree(es, a, ReadFrom(ds, i, row, a).0)
    decreases |ds| - i
  {
    hide Fetch, Decode, Readable, Built;
    if i < |ds| && Fetch(ds[i], row).Success? {
      var d, bytes := ds[i], Fetch(ds[i], row).value;
      StaysReadable(ds, a, i, bytes);
      StaysReadable(ds, b, i, bytes);
      var a1, b1 := a[d.addr := Decode(d, bytes, a[d.addr])], b[d.addr := Decode(d, bytes, b[d.addr])];
      ReadFromFrame(ds, i + 1, row, a1, b1, es);
    }
  }

  lemma ReadRowFrame(r: RowState, t: TableData, a: Heap, b: Heap, es: seq<Desc>)
    requires ReadyToRead(r.ds, a) && Agree(r.ds, a, b)
    ensures ReadyToRead(r.ds, b) && ReadyToRead(r.ds, ReadRow(r, t, a).1) && ReadRow(r, t, a).0.ds == r.ds
    ensures ReadRow(r, t, a).0 == ReadRow(r, t, b).0 && ReadRow(r, t, a).2 == ReadRow(r, t, b).2
    ensures Agree(r.ds, ReadRow(r, t, a).1, ReadRow(r, t, b).1)
    ensures Disjoint(r.ds, es) && Agree(es, a, a) ==> Agree(es, a, ReadRow(r, t, a).1)
  {
    hide ReadFrom, Built, Readable;
    if r.ds != [] && 1 <= r.idx <= |t.rows| {
      ReadFromFrame(r.ds, 0, t.rows[r.idx - 1], a, b, es);
    }
  }

  /** n reads by one cursor alone: its state, the memory, and the outcomes. */
  function ReadAlone(r: RowState, t: TableData, mem: Heap, n: nat): (RowState, Heap, seq<Result<bool>>)
    requires ReadyToRead(r.ds, mem)
    decreases n
  {
    if n == 0 then (r, mem, [])
    else
      assert Agree(r.ds, mem, mem);
      ReadRowFrame(r, t, mem, mem, []);
      var (r1, mem1, out) := ReadRow(r, t, mem);
      var (r2, mem2, outs) := ReadAlone(r1, t, mem1, n - 1);
      (r2, mem2, [out] + outs)
  }

  lemma {:induction false} ReadAloneFrame(r: RowState, t: TableData, a: Heap, b: Heap, n: nat)
    requires ReadyToRead(r.ds, a) && ReadyToRead(r.ds, b) && Agree(r.ds, a, b)
    ensures ReadAlone(r, t, a, n).0 == ReadAlone(r, t, b, n).0 && ReadAlone(r, t, a, n).2 == ReadAlone(r, t, b, n).2
    ensures Agree(r.ds, ReadAlone(r, t, a, n).1, ReadAlone(r, t, b, n).1)
    decreases n
  {
    hide ReadRow, Built, Readable;
    if n > 0 {
      ReadRowFrame(r, t, a, b, []);
      ReadAloneFrame(ReadRow(r, t, a).0, t, ReadRow(r, t, a).1, ReadRow(r, t, b).1, n - 1);
    }
  }

  ghost predicate Independent(rs: seq<RowState>, mem: Heap) {
    && (forall i | 0 <= i < |rs| :: ReadyToRead(rs[i].ds, mem))
    && (forall i, j | 0 <= i < |rs| && 0 <= j < |rs| && i != j :: Disjoint(rs[i].ds, rs[j].ds))
  }

  lemma StaysIndependent(rs: seq<RowState>, t: TableData, mem: Heap, j: nat)
    requires Independent(rs, mem) && j < |rs|
    ensures Independent(rs[j := ReadRow(rs[j], t, mem).0], ReadRow(rs[j], t, mem).1)
    ensures forall i | 0 <= i < |rs| && i != j :: Agree(rs[i].ds, mem, ReadRow(rs[j], t, mem).1)
  {
    hide ReadRow, Built, Readable;
    var mem1 := ReadRow(rs[j], t, mem).1;
    assert Agree(rs[j].ds, mem, mem);
    ReadRowFrame(rs[j], t, mem, mem, []);
    forall i | 0 <= i < |rs| && i != j
      ensures Agree(rs[i].ds, mem, mem1) && ReadyToRead(rs[i].ds, mem1)
    {
      assert Agree(rs[i].ds, mem, mem);
      ReadRowFrame(rs[j], t, mem, mem, rs[i].ds);
    }
  }

  /** Reads by several cursors in the order of a schedule, each with the cursor that made it. */
  function ReadMixed(rs: seq<RowState>, t: TableData, mem: Heap, sched: seq<nat>)
    : (seq<RowState>, Heap, seq<(nat, Result<bool>)>)
    requires Independent(rs, mem) && forall k | 0 <= k < |sched| :: sched[k] < |rs|
    decreases |sched|
  {
    if sched == [] then (rs, mem, [])
    else
      var j := sched[0];
      StaysIndependent(rs, t, mem, j);
      var (r1, mem1, out) := ReadRow(rs[j], t, mem);
      var (rs2, mem2, outs) := ReadMixed(rs[j := r1], t, mem1, sched[1..]);
      (rs2, mem2, [(j, out)] + outs)
  }

  function Turns(sched: seq<nat>, i: nat): nat {
    if sched == [] then 0 else (if sched[0] == i then 1 else 0) + Turns(sched[1..], i)
  }

  function OutcomesOf(outs: seq<(nat, Result<bool>)>, i: nat): seq<Result<bool>> {
    if outs == [] then []
    else if outs[0].0 == i then [outs[0].1] + OutcomesOf(outs[1..], i)
    else OutcomesOf(outs[1..], i)
  }

  /** Under every interleaving each cursor ends where it would have ended alone, with the same outcomes and
      the same objects. */
  lemma {:induction false} CursorsIsolated(rs: seq<RowState>, t: TableData, mem: Heap, sched: seq<nat>, i: nat)
    requires Independent(rs, mem) && (forall k | 0 <= k < |sched| :: sched[k] < |rs|) && i < |rs|
    ensures ReadyToRead(rs[i].ds, mem)
    ensures var (rs', mem', outs) := ReadMixed(rs, t, mem, sched);
            var (r', alone, outcomes) := ReadAlone(rs[i], t, mem, Turns(sched, i));
            |rs'| == |rs| && rs'[i] == r' && OutcomesOf(outs, i) == outcomes && Agree(rs[i].ds, mem', alone)
    decreases |sched|
  {
    hide ReadRow, Readable, Built;
    if sched != [] {
      var j := sched[0];
      StaysIndependent(rs, t, mem, j);
      var (r1, mem1, out) := ReadRow(rs[j], t, mem);
      assert Agree(rs[j].ds, mem, mem);
      ReadRowFrame(rs[j], t, mem, mem, []);
      CursorsIsolated(rs[j := r1], t, mem1, sched[1..], i);
      var outs := ReadMixed(rs[j := r1], t, mem1, sched[1..]).2;
      assert ([(j, out)] + outs)[1..] == outs;
      if i != j {
        ReadAloneFrame(rs[i], t, mem, mem1, Turns(sched[1..], i));
      }
    }
  }

  // ------------------------------------------------------------------------------------------
  // Rows bound before a column is appended

  lemma {:induction false} FlattenAppend(row: RowCells, more: RowCells)
    ensures Flatten(row + more) == Flatten(row) + Flatten(more)
  {
    if row == [] {
      assert row + more == more;
    } else {
      FlattenAppend(row[1..], more);
      assert (row + more)[1..] == row[1..] + more;
    }
  }

  /** Whatever a column could read from a row it reads the same from the row with cells appended. */
  lemma FetchAppend(d: Desc, row: RowCells, more: RowCells)
    requires Fetch(d, row).Success?
    ensures Fetch(d, row + more) == Fetch(d, row)
  {
    FlattenAppend(row, more);
    if ByOffset(d.kind) {
      var lo, hi := d.offset - 1, d.offset - 1 + d.natomic;
      assert (Flatten(row) + Flatten(more))[lo..hi] == Flatten(row)[lo..hi];
    }
  }

  /** So does a whole Row. */
  lemma {:induction false} ReadAppend(ds: seq<Desc>, i: nat, row: RowCells, more: RowCells, mem: Heap)
    requires i <= |ds| && ReadyToRead(ds, mem) && ReadFrom(ds, i, row, mem).1.Success?
    ensures ReadFrom(ds, i, row + more, mem) == ReadFrom(ds, i, row, mem)
    decreases |ds| - i
  {
    hide Fetch, Decode, Readable, Built;
    if i < |ds| {
      var bytes := Fetch(ds[i], row).value;
      FetchAppend(ds[i], row, more);
      StaysReadable(ds, mem, i, bytes);
      ReadAppend(ds, i + 1, row, more, mem[ds[i].addr := Decode(ds[i], bytes, mem[ds[i].addr])]);
    }
  }

  /** Columns bound to a table stay bound to their cells when a column is appended. */
  lemma AppendKeepsBinding(ds: seq<Desc>, cols: seq<Header>, ci: ColumnInfo)
    requires Apart(ds, cols) && AllWellFormed(cols) && Describable(cols) && Usable(ci.extent)
    ensures Apart(ds, cols + [InsertedHeader(ci)])
  {
    hide WellFormed, ReadTdim, Even, Bind, Described, Direct, Layout;
    var h := InsertedHeader(ci);
    InsertedReads(ci);
    var cols' := cols + [h];
    assert AllWellFormed(cols') && Describable(cols');
    LayoutAppend(cols, [h]);
    LayoutSize(cols');
    forall i | 0 <= i < |ds|
      ensures Owns(ds[i], cols')
    {
      assert Owns(ds[i], cols);
      assert Layout(cols')[ds[i].colnum - 1] == Layout(cols)[ds[i].colnum - 1];
      assert forall j | 0 <= j < ds[i].colnum :: cols'[j] == cols[j];
    }
  }

  lemma InsertedReads(ci: ColumnInfo)
    requires Usable(ci.extent)
    ensures WellFormed(InsertedHeader(ci)) && ReadTdim(InsertedHeader(ci)).Success?
  {
    hide WellFormed;
    DescriptionRoundTrip(ci, 0, 0);
  }
}
