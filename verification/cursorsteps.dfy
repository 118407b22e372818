/** What one call of a Row does to its cursor, and calls in which the cursor stays: misfits/row.cc. */
module CursorSteps {
  import opened Results
  import opened Bytes
  import opened BitSets
  import opened TextCodec
  import opened Columns
  import opened Stores
  import opened RowSpecs
  import opened RowContracts

  /** read() moves the cursor to the next row exactly if it advances by itself and the call has read a row. Without
      columns the call throws; behind the last row it says no; in neither case is an object touched. */
  lemma ReadMoves(r: RowState, t: TableData, mem: Heap)
    requires ReadyToRead(r.ds, mem)
    ensures var (r', mem', said) := ReadRow(r, t, mem);
            && r'.auto == r.auto && r'.ds == r.ds
            && r'.idx == (if r.auto && said == Success(true) then r.idx + 1 else r.idx)
            && (said == Failure(NoEntries) <==> r.ds == [])
            && (said == Success(false) <==> r.ds != [] && r.idx > |t.rows|)
            && (r.ds == [] || !(1 <= r.idx <= |t.rows|) ==> mem' == mem)
            && (r.ds != [] && r.idx < 1 ==> said == Failure(BadRowNumber))
  {
    hide Built, Readable;
    if r.ds != [] && 1 <= r.idx <= |t.rows| {
      FetchErrors(r.ds, 0, t.rows[r.idx - 1], mem);
    }
  }

  lemma {:induction false} FetchErrors(ds: seq<Desc>, i: nat, row: RowCells, mem: Heap)
    requires i <= |ds| && ReadyToRead(ds, mem)
    ensures ReadFrom(ds, i, row, mem).1 != Failure(NoEntries)
    decreases |ds| - i
  {
    hide Decode, Built, Readable;
    if i < |ds| && Fetch(ds[i], row).Success? {
      var bytes := Fetch(ds[i], row).value;
      StaysReadable(ds, mem, i, bytes);
      FetchErrors(ds, i + 1, row, mem[ds[i].addr := Decode(ds[i], bytes, mem[ds[i].addr])]);
    }
  }

  /** write() moves the cursor to the next row exactly if it advances by itself and the call has written its row.
      Without columns, or for a row number below one, it throws and the table is as before. */
  lemma WriteMoves(r: RowState, t: TableData, mem: Heap)
    requires ReadyToWrite(r.ds, mem) && Sound(t)
    ensures var (r', t', st) := WriteRow(r, t, mem);
            && r'.auto == r.auto && r'.ds == r.ds
            && r'.idx == (if r.auto && st == Success(()) then r.idx + 1 else r.idx)
            && (r.ds == [] ==> st == Failure(NoEntries) && t' == t)
            && (r.ds != [] && r.idx < 1 ==> st == Failure(BadRowNumber) && t' == t)
  {
    hide Built, Writable, Encode, Put;
  }

  /** At the first column that cannot be read the call stops: the columns in front of it have been read, as they would
      have been on their own, and no others. */
  lemma {:induction false} ReadStops(ds: seq<Desc>, i: nat, m: nat, row: RowCells, mem: Heap)
    requires i <= m < |ds| && ReadyToRead(ds, mem) && Fetch(ds[m], row).Failure?
    requires forall j | i <= j < m :: Fetch(ds[j], row).Success?
    ensures ReadyToRead(ds[..m], mem)
    ensures ReadFrom(ds, i, row, mem).1 == Failure(Fetch(ds[m], row).error)
    ensures ReadFrom(ds[..m], i, row, mem) == (ReadFrom(ds, i, row, mem).0, Success(()))
    decreases m - i
  {
    hide Fetch, Decode, Built, Readable;
    if i < m {
      var bytes := Fetch(ds[i], row).value;
      StaysReadable(ds, mem, i, bytes);
      assert ds[..m][i] == ds[i];
      ReadStops(ds, i + 1, m, row, mem[ds[i].addr := Decode(ds[i], bytes, mem[ds[i].addr])]);
    }
  }

  /** And so does writing. */
  lemma {:induction false} WriteStops(ds: seq<Desc>, i: nat, m: nat, t: TableData, idx: int, mem: Heap)
    requires i <= m < |ds| && ReadyToWrite(ds, mem) && Sound(t)
    requires ReadyToWrite(ds[..m], mem) && WriteFrom(ds[..m], i, t, idx, mem).1.Success?
    requires WriteOne(ds[m], WriteFrom(ds[..m], i, t, idx, mem).0, idx, mem[ds[m].addr]).Failure?
    ensures var front := WriteFrom(ds[..m], i, t, idx, mem).0;
            WriteFrom(ds, i, t, idx, mem) == (front, Failure(WriteOne(ds[m], front, idx, mem[ds[m].addr]).error))
    decreases m - i
  {
    hide WriteOne, Built, Writable;
    if i < m {
      assert ds[..m][i] == ds[i];
      WriteStops(ds, i + 1, m, WriteOne(ds[i], t, idx, mem[ds[i].addr]).value, idx, mem);
    }
  }

  /** A table that is written behind its last row gets rows of zeros in front of that row, and no more rows. */
  lemma GrownRows(t: TableData, idx: int)
    requires Sound(t)
    ensures var t' := Grown(t, idx);
            && t'.cols == t.cols && |t'.rows| == (if idx > |t.rows| then idx else |t.rows|) && t.rows <= t'.rows
            && forall r, k | |t.rows| <= r < |t'.rows| && 0 <= k < |t.cols| ::
                 && |t'.rows[r]| == |t.cols| && |t'.rows[r][k]| == CellBytes(t.cols[k])
                 && forall i | 0 <= i < |t'.rows[r][k]| :: t'.rows[r][k][i] == 0
  {
    hide CellBytes, WellFormed;
  }

  // ------------------------------------------------------------------------------------------
  // Reading without advancing

  /** Reading the same bytes once more changes nothing. */
  lemma DecodeTwice(d: Desc, bytes: seq<Byte>, v: Value)
    requires Built(d) && Readable(d, v) && |bytes| == d.natomic
    ensures Readable(d, Decode(d, bytes, v))
    ensures Decode(d, bytes, Decode(d, bytes, v)) == Decode(d, bytes, v)
  {
    hide Unpacked, Unslotted, Booleans;
    DecodeReadable(d, bytes, v);
  }

  lemma ReadFromTwice(ds: seq<Desc>, cols: seq<Header>, row: RowCells, mem: Heap)
    requires AllWellFormed(cols) && Apart(ds, cols) && RowOk(cols, row) && ReadyToRead(ds, mem)
    ensures var mem' := ReadFrom(ds, 0, row, mem).0;
            && ReadyToRead(ds, mem') && SeenRow(ds, row, mem, mem')
            && ReadFrom(ds, 0, row, mem) == ReadFrom(ds, 0, row, mem') == (mem', Success(()))
  {
    hide Apart, ReadFrom, Decode, Loaded, Built, Readable, RowOk, WellFormed;
    var mem' := ReadFrom(ds, 0, row, mem).0;
    ReadFromRow(ds, 0, cols, row, mem);
    ReadFromRow(ds, 0, cols, row, mem');
    var again := ReadFrom(ds, 0, row, mem').0;
    forall a | a in mem
      ensures again[a] == mem'[a]
    {
      if j :| 0 <= j < |ds| && ds[j].addr == a {
        DecodeTwice(ds[j], Loaded(ds[j], row[ds[j].colnum - 1]), mem[a]);
      }
    }
    assert again == mem';
  }

  lemma ReadTwice(r: RowState, t: TableData, mem: Heap)
    requires Sound(t) && Apart(r.ds, t.cols) && ReadyToRead(r.ds, mem) && !r.auto && r.ds != []
    requires 1 <= r.idx <= |t.rows|
    ensures var (r', mem', said) := ReadRow(r, t, mem);
            && r' == r && said == Success(true) && ReadyToRead(r.ds, mem')
            && SeenRow(r.ds, t.rows[r.idx - 1], mem, mem')
            && ReadRow(r, t, mem') == (r, mem', Success(true))
  {
    hide Apart, ReadFrom, SeenRow, Built, Readable, RowOk, WellFormed;
    assert RowOk(t.cols, t.rows[r.idx - 1]);
    ReadFromTwice(r.ds, t.cols, t.rows[r.idx - 1], mem);
  }

  /** A Row that does not advance by itself reads the same row each time, however often: every call reads it, the
      cursor stays, and the objects are as after the first call. */
  lemma {:induction false} ReadStays(r: RowState, t: TableData, mem: Heap, n: nat)
    requires Sound(t) && Apart(r.ds, t.cols) && ReadyToRead(r.ds, mem) && !r.auto && r.ds != []
    requires 1 <= r.idx <= |t.rows| && n >= 1
    ensures var mem' := ReadRow(r, t, mem).1;
            && SeenRow(r.ds, t.rows[r.idx - 1], mem, mem')
            && ReadAlone(r, t, mem, n) == (r, mem', seq(n, _ => Success(true)))
    decreases n
  {
    hide Apart, ReadRow, Built, Readable, SeenRow;
    ReadTwice(r, t, mem);
    var mem' := ReadRow(r, t, mem).1;
    if n > 1 {
      ReadStays(r, t, mem', n - 1);
      assert [Success(true)] + seq(n - 1, _ => Success(true)) == seq(n, _ => Success(true));
    } else {
      assert ReadAlone(r, t, mem', 0) == (r, mem', []);
      assert [Success(true)] + [] == seq(1, _ => Success(true));
    }
  }

  // ------------------------------------------------------------------------------------------
  // Writing without advancing

  /** A row of the table with the bound cells written. */
  function Rewritten(ds: seq<Desc>, cols: seq<Header>, row: RowCells, mem: Heap): (r: RowCells)
    requires AllWellFormed(cols) && Apart(ds, cols) && RowOk(cols, row) && ReadyToWrite(ds, mem)
    ensures RowOk(cols, r)
  {
    hide Apart, Stored, Encode, Built, Writable, CellBytes, WellFormed;
    CellLengths(ds, cols, row);
    Written(ds, 0, row, mem)
  }

  /** Each object's bytes are in its own cell. */
  lemma RewrittenCell(ds: seq<Desc>, cols: seq<Header>, row: RowCells, mem: Heap, j: nat)
    requires AllWellFormed(cols) && Apart(ds, cols) && RowOk(cols, row) && ReadyToWrite(ds, mem) && j < |ds|
    ensures 1 <= ds[j].colnum <= |cols|
    ensures Rewritten(ds, cols, row, mem)[ds[j].colnum - 1] == Stored(ds[j], Encode(ds[j], mem[ds[j].addr]))
  {
    hide Owns, Stored, Encode, Built, Writable, CellBytes, WellFormed, Written;
    CellLengths(ds, cols, row);
    WrittenCell(ds, 0, row, mem, j);
  }

  /** And every other cell is as it was. */
  lemma RewrittenKeeps(ds: seq<Desc>, cols: seq<Header>, row: RowCells, mem: Heap, k: nat)
    requires AllWellFormed(cols) && Apart(ds, cols) && RowOk(cols, row) && ReadyToWrite(ds, mem) && k < |cols|
    requires forall j | 0 <= j < |ds| :: ds[j].colnum - 1 != k
    ensures Rewritten(ds, cols, row, mem)[k] == row[k]
  {
    hide Apart, Stored, Encode, Built, Writable, CellBytes, WellFormed, Written;
    CellLengths(ds, cols, row);
    WrittenKeeps(ds, 0, row, mem, k);
  }

  /** Of two records written to the same row only the second is left. */
  lemma RewrittenTwice(ds: seq<Desc>, cols: seq<Header>, row: RowCells, first: Heap, second: Heap)
    requires AllWellFormed(cols) && Apart(ds, cols) && RowOk(cols, row)
    requires ReadyToWrite(ds, first) && ReadyToWrite(ds, second)
    ensures Rewritten(ds, cols, Rewritten(ds, cols, row, first), second) == Rewritten(ds, cols, row, second)
  {
    hide Apart, Stored, Encode, ReadyToWrite, Rewritten, CellBytes, WellFormed;
    var mid := Rewritten(ds, cols, row, first);
    forall k | 0 <= k < |row|
      ensures Rewritten(ds, cols, mid, second)[k] == Rewritten(ds, cols, row, second)[k]
    {
      if j :| 0 <= j < |ds| && ds[j].colnum - 1 == k {
        RewrittenCell(ds, cols, mid, second, j);
        RewrittenCell(ds, cols, row, second, j);
      } else {
        RewrittenKeeps(ds, cols, mid, second, k);
        RewrittenKeeps(ds, cols, row, second, k);
        RewrittenKeeps(ds, cols, row, first, k);
      }
    }
  }

  /** One write: the table is grown to the row, and the row is changed. */
  lemma WriteOnce(r: RowState, t: TableData, mem: Heap)
    requires Sound(t) && Apart(r.ds, t.cols) && ReadyToWrite(r.ds, mem) && r.ds != [] && r.idx >= 1
    ensures var (r', t', st) := WriteRow(r, t, mem);
            var t1 := Grown(t, r.idx);
            && st == Success(()) && (!r.auto ==> r' == r)
            && RowOk(t1.cols, t1.rows[r.idx - 1])
            && t' == t1.(rows := t1.rows[r.idx - 1 := Rewritten(r.ds, t.cols, t1.rows[r.idx - 1], mem)])
            && Sound(t')
  {
    hide Apart, WriteFrom, Written, Built, Writable, Grown, CellBytes, WellFormed;
    WriteFromRow(r.ds, 0, t, r.idx, mem);
    var t1 := Grown(t, r.idx);
    assert forall i | 0 <= i < |t1.rows| :: RowOk(t1.cols, t1.rows[i]);
  }

  /** A Row that does not advance by itself writes the same row each time, however often: the cursor stays, and the
      table is as if only the last record had been written; in particular it has not grown by more than that. */
  lemma {:induction false} WriteStays(r: RowState, t: TableData, recs: seq<Heap>)
    requires Sound(t) && Apart(r.ds, t.cols) && !r.auto && r.ds != [] && r.idx >= 1 && recs != []
    requires forall k | 0 <= k < |recs| :: ReadyToWrite(r.ds, recs[k])
    ensures WriteRun(r, t, recs) == WriteRow(r, t, recs[|recs| - 1])
    ensures WriteRun(r, t, recs).0 == r && WriteRun(r, t, recs).2 == Success(())
    ensures |WriteRun(r, t, recs).1.rows| == if r.idx > |t.rows| then r.idx else |t.rows|
    decreases |recs|
  {
    hide Apart, WriteRow, ReadyToWrite, Sound, Rewritten;
    WriteOnce(r, t, recs[0]);
    var t' := WriteRow(r, t, recs[0]).1;
    GrownSize(t, r.idx);
    if |recs| == 1 {
      assert WriteRun(r, t', recs[1..]) == (r, t', Success(()));
    } else {
      WriteStays(r, t', recs[1..]);
      WriteOver(r, t, recs[0], recs[|recs| - 1]);
    }
  }

  lemma GrownSize(t: TableData, idx: int)
    requires Sound(t)
    ensures |Grown(t, idx).rows| == if idx > |t.rows| then idx else |t.rows|
    ensures idx <= |t.rows| ==> Grown(t, idx) == t
  {
  }

  lemma WriteOver(r: RowState, t: TableData, first: Heap, second: Heap)
    requires Sound(t) && Apart(r.ds, t.cols) && !r.auto && r.ds != [] && r.idx >= 1
    requires ReadyToWrite(r.ds, first) && ReadyToWrite(r.ds, second)
    ensures Sound(WriteRow(r, t, first).1) && WriteRow(r, t, first).1.cols == t.cols
    ensures WriteRow(r, WriteRow(r, t, first).1, second) == WriteRow(r, t, second)
  {
    hide Apart, WriteRow, ReadyToWrite, RowOk, Rewritten, Grown;
    WriteOnce(r, t, first);
    WriteOnce(r, t, second);
    var t1, i := Grown(t, r.idx), r.idx - 1;
    var t' := WriteRow(r, t, first).1;
    RewrittenTwice(r.ds, t.cols, t1.rows[i], first, second);
    WriteOnce(r, t', second);
    GrownSize(t', r.idx);
    var last := Rewritten(r.ds, t.cols, t1.rows[i], second);
    assert t1.rows[i := t'.rows[i]][i := last] == t1.rows[i := last];
  }
}
