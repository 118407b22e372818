/** Several Rows on one table that read, write and change their objects in turns. */
module Cursors {
  import opened Results
  import opened Columns
  import opened Stores
  import opened RowSpecs
  import opened RowContracts

  /** A turn: cursor `who` reads, writes, or its user changes one of its objects. */
  datatype Turn = Reads(who: nat) | Writes(who: nat) | Sets(who: nat, entry: nat, v: Value)

  datatype Answer = SaidRead(more: Result<bool>) | SaidWritten(st: Status) | SaidNothing

  /** All cursors, the table, and the user's memory. */
  datatype World = World(rs: seq<RowState>, t: TableData, mem: Heap)

  /** Each cursor owns its cells' contents in any row, and no two cursors share an object. */
  ghost predicate Ready(w: World) {
    && Sound(w.t)
    && (forall i | 0 <= i < |w.rs| :: Apart(w.rs[i].ds, w.t.cols) && ReadyToWrite(w.rs[i].ds, w.mem))
    && (forall i, j | 0 <= i < |w.rs| && 0 <= j < |w.rs| && i != j :: Disjoint(w.rs[i].ds, w.rs[j].ds))
  }

  predicate LegalTurn(rs: seq<RowState>, turn: Turn) {
    && turn.who < |rs|
    && (turn.Sets? ==>
          turn.entry < |rs[turn.who].ds| && Writable(rs[turn.who].ds[turn.entry], turn.v))
  }

  function Take(w: World, turn: Turn): (World, Answer)
    requires Ready(w) && LegalTurn(w.rs, turn)
  {
    hide ReadRow, WriteRow;
    var i := turn.who;
    match turn
    case Reads(_) =>
      WritableReadable(w.rs[i].ds, w.mem);
      var (r, mem, said) := ReadRow(w.rs[i], w.t, w.mem);
      (World(w.rs[i := r], w.t, mem), SaidRead(said))
    case Writes(_) =>
      var (r, t, said) := WriteRow(w.rs[i], w.t, w.mem);
      (World(w.rs[i := r], t, w.mem), SaidWritten(said))
    case Sets(_, entry, v) =>
      (w.(mem := w.mem[w.rs[i].ds[entry].addr := v]), SaidNothing)
  }

  lemma WritableReadable(ds: seq<Desc>, mem: Heap)
    requires ReadyToWrite(ds, mem)
    ensures ReadyToRead(ds, mem)
  {
  }

  // ------------------------------------------------------------------------------------------
  // One turn

  /** The cursor after its turn, on a table with so many rows. */
  function Moved(r: RowState, rows: nat, turn: Turn): RowState {
    if turn.Sets? || r.ds == [] || r.idx < 1 || (turn.Reads? && r.idx > rows) then r else Advanced(r)
  }

  lemma ReadTurn(r: RowState, t: TableData, mem: Heap)
    requires Sound(t) && Apart(r.ds, t.cols) && ReadyToRead(r.ds, mem) && ReadyToWrite(r.ds, mem)
    ensures var (r', mem', _) := ReadRow(r, t, mem);
            && r' == Moved(r, |t.rows|, Reads(0)) && r'.ds == r.ds && ReadyToWrite(r.ds, mem')
            && mem'.Keys == mem.Keys
            && forall a | a in mem && (forall j | 0 <= j < |r.ds| :: r.ds[j].addr != a) :: mem'[a] == mem[a]
  {
    hide Apart, ReadFrom, Decode, Loaded, Built, CellBytes, WellFormed;
    if r.ds != [] && 1 <= r.idx <= |t.rows| {
      var row := t.rows[r.idx - 1];
      assert RowOk(t.cols, row);
      ReadFromRow(r.ds, 0, t.cols, row, mem);
      var mem' := ReadRow(r, t, mem).1;
      forall j | 0 <= j < |r.ds|
        ensures Writable(r.ds[j], mem'[r.ds[j].addr])
      {
        DecodeReadable(r.ds[j], Loaded(r.ds[j], row[r.ds[j].colnum - 1]), mem[r.ds[j].addr]);
      }
    }
  }

  /** The number of rows after a turn. */
  function RowsAfter(r: RowState, rows: nat, turn: Turn): nat {
    if turn.Writes? && r.ds != [] && r.idx > rows then r.idx else rows
  }

  /** A cell of a table; behind the last row all cells are zero. */
  function CellAt(t: TableData, q: nat, k: nat): Cell
    requires Sound(t) && k < |t.cols|
  {
    RowAt(t, q)[k]
  }

  function RowAt(t: TableData, q: nat): (row: RowCells)
    requires Sound(t)
    ensures RowOk(t.cols, row)
  {
    if q < |t.rows| then t.rows[q] else ZeroRow(t.cols)
  }

  /** The cells of a row have the lengths of the columns. */
  predicate Fits(ds: seq<Desc>, row: RowCells) {
    forall j | 0 <= j < |ds| :: 1 <= ds[j].colnum <= |row| && |row[ds[j].colnum - 1]| == ds[j].natomic
  }

  /** Table t' is table t with row `idx` written. */
  ghost predicate Wrote(ds: seq<Desc>, t: TableData, idx: int, mem: Heap, t': TableData)
    requires Sound(t) && Sound(t') && ReadyToWrite(ds, mem)
  {
    && idx >= 1 && Fits(ds, RowAt(t, idx - 1))
    && forall q: nat :: RowAt(t', q) == if q == idx - 1 then Written(ds, 0, RowAt(t, idx - 1), mem) else RowAt(t, q)
  }

  /** A write changes its own row, as Written says, and no other; the table grows by rows of zeros if it must. */
  lemma WriteTurn(r: RowState, t: TableData, mem: Heap)
    requires Sound(t) && Apart(r.ds, t.cols) && ReadyToWrite(r.ds, mem)
    ensures var (r', t', _) := WriteRow(r, t, mem);
            && r' == Moved(r, |t.rows|, Writes(0)) && r'.ds == r.ds && Sound(t') && t'.cols == t.cols
            && |t'.rows| == RowsAfter(r, |t.rows|, Writes(0))
    ensures !(r.ds != [] && r.idx >= 1) ==> WriteRow(r, t, mem).1 == t
    ensures r.ds != [] && r.idx >= 1 ==>
              WriteRow(r, t, mem).2 == Success(()) && Wrote(r.ds, t, r.idx, mem, WriteRow(r, t, mem).1)
  {
    hide Apart, Written, Put, Encode, Built, CellBytes, WellFormed;
    if r.ds != [] && r.idx >= 1 {
      WriteFromRow(r.ds, 0, t, r.idx, mem);
      assert Grown(t, r.idx).rows[r.idx - 1] == RowAt(t, r.idx - 1);
    }
  }

  /** Turns keep the world ready. */
  lemma TakeReady(w: World, turn: Turn)
    requires Ready(w) && LegalTurn(w.rs, turn)
    ensures var w' := Take(w, turn).0;
            && Ready(w') && |w'.rs| == |w.rs| && w'.t.cols == w.t.cols
            && w'.rs == w.rs[turn.who := Moved(w.rs[turn.who], |w.t.rows|, turn)]
            && (forall i | 0 <= i < |w.rs| :: w'.rs[i].ds == w.rs[i].ds)
            && (forall i | 0 <= i < |w.rs| && i != turn.who :: Agree(w.rs[i].ds, w.mem, w'.mem))
  {
    hide Apart, ReadRow, WriteRow, Writable, Built, Sound;
    var i := turn.who;
    var w' := Take(w, turn).0;
    match turn {
      case Reads(_) =>
        WritableReadable(w.rs[i].ds, w.mem);
        ReadTurn(w.rs[i], w.t, w.mem);
      case Writes(_) => WriteTurn(w.rs[i], w.t, w.mem);
      case Sets(_, entry, v) =>
        SetReady(w.rs[i].ds, w.t.cols, w.mem, entry, v);
    }
    forall k | 0 <= k < |w.rs| && k != i
      ensures Agree(w.rs[k].ds, w.mem, w'.mem) && ReadyToWrite(w.rs[k].ds, w'.mem)
    {
      assert Disjoint(w.rs[i].ds, w.rs[k].ds);
    }
  }

  lemma SetReady(ds: seq<Desc>, cols: seq<Header>, mem: Heap, entry: nat, v: Value)
    requires Apart(ds, cols) && ReadyToWrite(ds, mem) && entry < |ds| && Writable(ds[entry], v)
    ensures ReadyToWrite(ds, mem[ds[entry].addr := v])
  {
    hide Owns, Writable, Built;
  }

  // ------------------------------------------------------------------------------------------
  // Zones

  /** The cells a cursor comes to, by row and column number. */
  type Zone = iset<(int, int)>

  /** Tables of the same columns with the same cells in a zone; the second may lack rows of zeros. */
  ghost predicate SameZone(t: TableData, u: TableData, zone: Zone)
    requires Sound(t) && Sound(u)
  {
    && t.cols == u.cols && |u.rows| <= |t.rows|
    && forall q: nat, k: nat | k < |t.cols| && (q + 1, k + 1) in zone :: CellAt(t, q, k) == CellAt(u, q, k)
  }

  /** A turn that stays in its cursor's zone. A write stays outside all other zones; it may make the table grow.
      A read comes to no row that is there only because another cursor has written behind it: `own` is the
      number of rows the table would have if the cursor were alone. */
  ghost predicate StaysInZone(rs: seq<RowState>, rows: nat, own: seq<nat>, turn: Turn, zones: seq<Zone>)
    requires |zones| == |rs| == |own| && turn.who < |rs|
  {
    var r := rs[turn.who];
    !turn.Sets? ==>
      && (1 <= r.idx && (turn.Writes? || r.idx <= rows) ==>
            forall c | 0 <= c < |r.ds| :: (r.idx, r.ds[c].colnum as int) in zones[turn.who])
      && (turn.Reads? && r.idx <= rows ==> r.idx <= own[turn.who])
      && (turn.Writes? ==>
            forall i, c | 0 <= i < |rs| && i != turn.who && 0 <= c < |r.ds| ::
              (r.idx, r.ds[c].colnum as int) !in zones[i])
  }

  function OwnAfter(rs: seq<RowState>, own: seq<nat>, turn: Turn): (r: seq<nat>)
    requires |rs| == |own| && turn.who < |rs|
    ensures |r| == |own|
  {
    own[turn.who := RowsAfter(rs[turn.who], own[turn.who], turn)]
  }

  function MovedAll(rs: seq<RowState>, rows: nat, turn: Turn): (r: seq<RowState>)
    requires turn.who < |rs|
    ensures |r| == |rs|
  {
    rs[turn.who := Moved(rs[turn.who], rows, turn)]
  }

  /** The same for all turns of a schedule. This depends on the cursors' positions and columns only. */
  ghost predicate Zoned(rs: seq<RowState>, rows: nat, own: seq<nat>, sched: seq<Turn>, zones: seq<Zone>)
    requires |zones| == |rs| == |own|
    decreases |sched|
  {
    sched != [] ==>
      && LegalTurn(rs, sched[0]) && StaysInZone(rs, rows, own, sched[0], zones)
      && Zoned(MovedAll(rs, rows, sched[0]), RowsAfter(rs[sched[0].who], rows, sched[0]), OwnAfter(rs, own, sched[0]),
               sched[1..], zones)
  }

  ghost predicate AllLegal(rs: seq<RowState>, sched: seq<Turn>) {
    forall k | 0 <= k < |sched| :: LegalTurn(rs, sched[k])
  }

  /** All turns of a schedule. */
  function Play(w: World, sched: seq<Turn>): (r: (World, seq<Answer>))
    requires Ready(w) && AllLegal(w.rs, sched)
    ensures |r.0.rs| == |w.rs| && |r.1| == |sched|
    decreases |sched|
  {
    hide Take, Ready, Writable;
    if sched == [] then (w, [])
    else
      TakeReady(w, sched[0]);
      var (w1, a) := Take(w, sched[0]);
      var (w2, rest) := Play(w1, sched[1..]);
      (w2, [a] + rest)
  }

  /** The turns of one cursor alone. */
  function TurnsOf(sched: seq<Turn>, i: nat): seq<Turn> {
    if sched == [] then []
    else (if sched[0].who == i then [sched[0]] else []) + TurnsOf(sched[1..], i)
  }

  function AnswersOf(sched: seq<Turn>, answers: seq<Answer>, i: nat): seq<Answer>
    requires |answers| == |sched|
  {
    if sched == [] then []
    else (if sched[0].who == i then [answers[0]] else []) + AnswersOf(sched[1..], answers[1..], i)
  }

  lemma TurnsLegal(rs: seq<RowState>, sched: seq<Turn>, i: nat)
    requires AllLegal(rs, sched)
    ensures AllLegal(rs, TurnsOf(sched, i))
  {
    hide Writable;
    if sched != [] {
      assert forall k | 0 <= k < |sched[1..]| :: sched[1..][k] == sched[k + 1];
      TurnsLegal(rs, sched[1..], i);
    }
  }

  /** Two worlds in which cursor i finds the same things. */
  ghost predicate Alike(w: World, v: World, i: nat, zone: Zone)
    requires Sound(w.t) && Sound(v.t)
  {
    && i < |w.rs| == |v.rs| && w.rs[i] == v.rs[i]
    && SameZone(w.t, v.t, zone) && Agree(w.rs[i].ds, w.mem, v.mem)
  }

  lemma WrittenSame(ds: seq<Desc>, row: RowCells, other: RowCells, a: Heap, b: Heap, k: nat)
    requires ReadyToWrite(ds, a) && ReadyToWrite(ds, b) && Agree(ds, a, b) && |row| == |other| && k < |row|
    requires forall m, n | 0 <= m < n < |ds| :: ds[m].colnum != ds[n].colnum
    requires forall j | 0 <= j < |ds| :: 1 <= ds[j].colnum <= |row| && |row[ds[j].colnum - 1]| == ds[j].natomic
    requires forall j | 0 <= j < |ds| :: |other[ds[j].colnum - 1]| == ds[j].natomic
    requires row[k] == other[k] || exists j :: 0 <= j < |ds| && ds[j].colnum - 1 == k
    ensures Written(ds, 0, row, a)[k] == Written(ds, 0, other, b)[k]
  {
    hide Encode, Writable, Built;
    if j :| 0 <= j < |ds| && ds[j].colnum - 1 == k {
      WrittenCell(ds, 0, row, a, j);
      WrittenCell(ds, 0, other, b, j);
    } else {
      WrittenKeeps(ds, 0, row, a, k);
      WrittenKeeps(ds, 0, other, b, k);
    }
  }

  lemma RowsSame(ds: seq<Desc>, cols: seq<Header>, idx: int, row: RowCells, other: RowCells, a: Heap, b: Heap,
                 zone: Zone)
    requires Apart(ds, cols) && AllWellFormed(cols) && RowOk(cols, row) && RowOk(cols, other)
    requires ReadyToWrite(ds, a) && ReadyToWrite(ds, b) && Agree(ds, a, b)
    requires forall k | 0 <= k < |cols| && (idx, k + 1) in zone :: row[k] == other[k]
    ensures forall j | 0 <= j < |ds| ::
              && 1 <= ds[j].colnum <= |row| == |other|
              && |row[ds[j].colnum - 1]| == |other[ds[j].colnum - 1]| == ds[j].natomic
    ensures forall k | 0 <= k < |cols| && (idx, k + 1) in zone ::
              Written(ds, 0, row, a)[k] == Written(ds, 0, other, b)[k]
  {
    hide Written, Encode, Writable, Built, CellBytes, WellFormed, Owns;
    CellLengths(ds, cols, row);
    CellLengths(ds, cols, other);
    forall k | 0 <= k < |cols| && (idx, k + 1) in zone
      ensures Written(ds, 0, row, a)[k] == Written(ds, 0, other, b)[k]
    {
      WrittenSame(ds, row, other, a, b, k);
    }
  }

  lemma WriteSame(r: RowState, t: TableData, u: TableData, a: Heap, b: Heap, zone: Zone)
    requires Sound(t) && Sound(u) && SameZone(t, u, zone) && Apart(r.ds, t.cols)
    requires ReadyToWrite(r.ds, a) && ReadyToWrite(r.ds, b) && Agree(r.ds, a, b)
    ensures WriteRow(r, t, a).0 == WriteRow(r, u, b).0 && WriteRow(r, t, a).2 == WriteRow(r, u, b).2
    ensures Sound(WriteRow(r, t, a).1) && Sound(WriteRow(r, u, b).1)
    ensures SameZone(WriteRow(r, t, a).1, WriteRow(r, u, b).1, zone)
  {
    hide Written, Encode, Writable, Built, CellBytes, WellFormed, Owns, WriteRow, Agree, Sound, RowAt;
    WriteTurn(r, t, a);
    WriteTurn(r, u, b);
    if r.ds != [] && r.idx >= 1 {
      var p := r.idx - 1;
      var row, other := RowAt(t, p), RowAt(u, p);
      forall k | 0 <= k < |t.cols| && (r.idx, k + 1) in zone
        ensures row[k] == other[k]
      {
        assert (p + 1, k + 1) in zone && CellAt(t, p, k) == CellAt(u, p, k);
      }
      SoundHeaders(t);
      RowsSame(r.ds, t.cols, r.idx, row, other, a, b, zone);
      var t', u' := WriteRow(r, t, a).1, WriteRow(r, u, b).1;
      forall q: nat, k: nat | k < |t'.cols| && (q + 1, k + 1) in zone
        ensures CellAt(t', q, k) == CellAt(u', q, k)
      {
        assert CellAt(t, q, k) == CellAt(u, q, k);
      }
    } else {
      WriteFails(r, t, a);
      WriteFails(r, u, b);
    }
  }

  lemma SoundHeaders(t: TableData)
    requires Sound(t)
    ensures AllWellFormed(t.cols)
  {
  }

  lemma WriteFails(r: RowState, t: TableData, mem: Heap)
    requires Sound(t) && ReadyToWrite(r.ds, mem) && (r.ds == [] || r.idx < 1)
    ensures WriteRow(r, t, mem) == (r, t, Failure(if r.ds == [] then NoEntries else BadRowNumber))
  {
  }

  lemma ReadFromSame(ds: seq<Desc>, cols: seq<Header>, row: RowCells, other: RowCells, a: Heap, b: Heap)
    requires Apart(ds, cols) && AllWellFormed(cols) && RowOk(cols, row) && RowOk(cols, other)
    requires ReadyToRead(ds, a) && ReadyToRead(ds, b) && Agree(ds, a, b)
    requires forall j | 0 <= j < |ds| && 1 <= ds[j].colnum <= |row| :: row[ds[j].colnum - 1] == other[ds[j].colnum - 1]
    ensures ReadFrom(ds, 0, row, a).1 == ReadFrom(ds, 0, other, b).1
    ensures Agree(ds, ReadFrom(ds, 0, row, a).0, ReadFrom(ds, 0, other, b).0)
  {
    hide ReadFrom, Decode, Loaded, Readable, Built, CellBytes, WellFormed, Apart;
    ReadFromRow(ds, 0, cols, row, a);
    ReadFromRow(ds, 0, cols, other, b);
  }

  lemma ReadSame(r: RowState, t: TableData, u: TableData, a: Heap, b: Heap, zone: Zone)
    requires Sound(t) && Sound(u) && SameZone(t, u, zone) && Apart(r.ds, t.cols)
    requires ReadyToRead(r.ds, a) && ReadyToRead(r.ds, b) && Agree(r.ds, a, b)
    requires r.idx <= |t.rows| ==> r.idx <= |u.rows|
    requires 1 <= r.idx <= |t.rows| ==> forall c | 0 <= c < |r.ds| :: (r.idx, r.ds[c].colnum as int) in zone
    ensures ReadRow(r, t, a).0 == ReadRow(r, u, b).0 && ReadRow(r, t, a).2 == ReadRow(r, u, b).2
    ensures Agree(r.ds, ReadRow(r, t, a).1, ReadRow(r, u, b).1)
  {
    hide ReadFrom, Readable, Built, CellBytes, WellFormed, Apart;
    if r.ds != [] && 1 <= r.idx <= |t.rows| {
      var q := r.idx - 1;
      var row, other := t.rows[q], u.rows[q];
      assert RowOk(t.cols, row) && RowOk(u.cols, other);
      forall j | 0 <= j < |r.ds| && 1 <= r.ds[j].colnum <= |row|
        ensures row[r.ds[j].colnum - 1] == other[r.ds[j].colnum - 1]
      {
        var k := r.ds[j].colnum - 1;
        assert (q + 1, k + 1) in zone && CellAt(t, q, k) == CellAt(u, q, k);
      }
      ReadFromSame(r.ds, t.cols, row, other, a, b);
    }
  }

  /** A cursor's own turn goes the same way in two worlds that are alike for it. */
  lemma OwnTurn(w: World, v: World, turn: Turn, own: seq<nat>, zones: seq<Zone>)
    requires Ready(w) && Ready(v) && |zones| == |w.rs| == |own| && LegalTurn(w.rs, turn)
    requires Alike(w, v, turn.who, zones[turn.who]) && StaysInZone(w.rs, |w.t.rows|, own, turn, zones)
    requires own[turn.who] == |v.t.rows|
    ensures LegalTurn(v.rs, turn) && Take(w, turn).1 == Take(v, turn).1
    ensures Ready(Take(w, turn).0) && Ready(Take(v, turn).0)
    ensures Alike(Take(w, turn).0, Take(v, turn).0, turn.who, zones[turn.who])
    ensures |Take(w, turn).0.t.rows| == RowsAfter(w.rs[turn.who], |w.t.rows|, turn)
    ensures |Take(v, turn).0.t.rows| == RowsAfter(w.rs[turn.who], |v.t.rows|, turn)
  {
    hide ReadRow, WriteRow, Writable, Built, Apart, Sound;
    var i := turn.who;
    var r, zone := w.rs[i], zones[i];
    TakeReady(w, turn);
    TakeReady(v, turn);
    match turn {
      case Reads(_) =>
        WritableReadable(r.ds, w.mem);
        WritableReadable(r.ds, v.mem);
        ReadSame(r, w.t, v.t, w.mem, v.mem, zone);
      case Writes(_) =>
        WriteSame(r, w.t, v.t, w.mem, v.mem, zone);
        WriteTurn(r, w.t, w.mem);
        WriteTurn(r, v.t, v.mem);
      case Sets(_, entry, x) =>
    }
  }

  /** Another cursor's turn leaves a world alike. */
  lemma OtherTurn(w: World, v: World, turn: Turn, own: seq<nat>, zones: seq<Zone>, i: nat)
    requires Ready(w) && Ready(v) && |zones| == |w.rs| == |own| && LegalTurn(w.rs, turn)
    requires i < |w.rs| && Alike(w, v, i, zones[i])
    requires StaysInZone(w.rs, |w.t.rows|, own, turn, zones) && turn.who != i
    ensures Ready(Take(w, turn).0) && Alike(Take(w, turn).0, v, i, zones[i])
    ensures |Take(w, turn).0.t.rows| == RowsAfter(w.rs[turn.who], |w.t.rows|, turn)
  {
    hide ReadRow, WriteRow, Writable, Built, Apart, Sound, CellAt;
    TakeReady(w, turn);
    if turn.Writes? {
      WriteTurn(w.rs[turn.who], w.t, w.mem);
      OtherWrite(w.rs[turn.who], w.t, w.mem, zones[i]);
    }
  }

  lemma OtherWrite(r: RowState, t: TableData, mem: Heap, zone: Zone)
    requires Sound(t) && Apart(r.ds, t.cols) && ReadyToWrite(r.ds, mem)
    requires forall c | 0 <= c < |r.ds| :: (r.idx, r.ds[c].colnum as int) !in zone
    ensures Sound(WriteRow(r, t, mem).1) && WriteRow(r, t, mem).1.cols == t.cols
    ensures forall q: nat, k: nat | k < |t.cols| && (q + 1, k + 1) in zone ::
              CellAt(WriteRow(r, t, mem).1, q, k) == CellAt(t, q, k)
  {
    hide Written, Encode, Writable, Built, CellBytes, WellFormed, Apart, RowAt, WriteRow, Sound;
    WriteTurn(r, t, mem);
    if r.ds != [] && r.idx >= 1 {
      var p := r.idx - 1;
      var row := RowAt(t, p);
      forall k: nat | k < |row| && (p + 1, k + 1) in zone
        ensures Written(r.ds, 0, row, mem)[k] == row[k]
      {
        WrittenKeeps(r.ds, 0, row, mem, k);
      }
    }
  }

  lemma {:induction false} PlayedAlone(w: World, v: World, sched: seq<Turn>, own: seq<nat>, zones: seq<Zone>, i: nat)
    requires Ready(w) && Ready(v) && |zones| == |w.rs| == |own|
    requires AllLegal(w.rs, sched) && AllLegal(v.rs, TurnsOf(sched, i))
    requires i < |w.rs| && Alike(w, v, i, zones[i]) && Zoned(w.rs, |w.t.rows|, own, sched, zones)
    requires own[i] == |v.t.rows|
    ensures var (w', answers) := Play(w, sched);
            var (v', alone) := Play(v, TurnsOf(sched, i));
            && |answers| == |sched| && AnswersOf(sched, answers, i) == alone
            && Ready(w') && Ready(v') && Alike(w', v', i, zones[i])
    decreases |sched|
  {
    hide Take, Writable, StaysInZone, SameZone, Moved, RowsAfter, Apart, ReadyToWrite, Sound, Disjoint, Agree;
    if sched != [] {
      var turn, rest := sched[0], sched[1..];
      TakeReady(w, turn);
      var (w1, a) := Take(w, turn);
      var later := Play(w1, rest).1;
      assert ([a] + later)[1..] == later;
      if turn.who == i {
        OwnTurn(w, v, turn, own, zones);
        TakeReady(v, turn);
        assert TurnsOf(sched, i)[1..] == TurnsOf(rest, i);
        PlayedAlone(w1, Take(v, turn).0, rest, OwnAfter(w.rs, own, turn), zones, i);
      } else {
        OtherTurn(w, v, turn, own, zones, i);
        assert TurnsOf(sched, i) == TurnsOf(rest, i);
        PlayedAlone(w1, v, rest, OwnAfter(w.rs, own, turn), zones, i);
      }
    }
  }

  /** Before anyone has written, every cursor has the table's rows. */
  function Shared(w: World): (own: seq<nat>)
    ensures |own| == |w.rs| && forall i | 0 <= i < |own| :: own[i] == |w.t.rows|
  {
    seq(|w.rs|, _ => |w.t.rows|)
  }

  /** Any interleaving of reads, writes and changes of objects by several cursors on one table, which the writes
      may make grow, in which no write goes to a cell that another cursor comes to, and no read to a row that
      only others have made: each cursor gets the answers it would have got alone, and ends with the same
      position, the same objects and the same cells. */
  lemma WritersIsolated(w: World, sched: seq<Turn>, zones: seq<Zone>, i: nat)
    requires Ready(w) && |zones| == |w.rs| && AllLegal(w.rs, sched) && i < |w.rs|
    requires Zoned(w.rs, |w.t.rows|, Shared(w), sched, zones)
    ensures AllLegal(w.rs, TurnsOf(sched, i))
    ensures var (w', answers) := Play(w, sched);
            var (alone, own) := Play(w, TurnsOf(sched, i));
            && |answers| == |sched| && AnswersOf(sched, answers, i) == own
            && |w'.rs| == |alone.rs| == |w.rs| && w'.rs[i] == alone.rs[i]
            && Agree(w'.rs[i].ds, w'.mem, alone.mem)
            && Sound(w'.t) && Sound(alone.t) && SameZone(w'.t, alone.t, zones[i])
  {
    hide Play, Zoned, Writable, Built, Owns, Sound;
    TurnsLegal(w.rs, sched, i);
    assert Agree(w.rs[i].ds, w.mem, w.mem);
    assert SameZone(w.t, w.t, zones[i]);
    PlayedAlone(w, w, sched, Shared(w), zones, i);
  }

  // ------------------------------------------------------------------------------------------
  // Different columns

  /** All cells of the columns of a Row. */
  ghost function ColumnsZone(ds: seq<Desc>): Zone {
    iset p: (int, int) | exists c :: 0 <= c < |ds| && ds[c].colnum == p.1
  }

  ghost function ColumnZones(rs: seq<RowState>): (zones: seq<Zone>)
    ensures |zones| == |rs| && forall i | 0 <= i < |rs| :: zones[i] == ColumnsZone(rs[i].ds)
  {
    seq(|rs|, i requires 0 <= i < |rs| => ColumnsZone(rs[i].ds))
  }

  ghost predicate DifferentColumns(rs: seq<RowState>) {
    forall i, j | 0 <= i < |rs| && 0 <= j < |rs| && i != j ::
      forall c, e | 0 <= c < |rs[i].ds| && 0 <= e < |rs[j].ds| :: rs[i].ds[c].colnum != rs[j].ds[e].colnum
  }

  /** No read of a row that only others have made. */
  predicate ReadsOwn(rs: seq<RowState>, rows: nat, own: seq<nat>, sched: seq<Turn>)
    requires |own| == |rs|
    decreases |sched|
  {
    sched != [] ==>
      && LegalTurn(rs, sched[0])
      && (sched[0].Reads? && rs[sched[0].who].idx <= rows ==> rs[sched[0].who].idx <= own[sched[0].who])
      && ReadsOwn(MovedAll(rs, rows, sched[0]), RowsAfter(rs[sched[0].who], rows, sched[0]),
                  OwnAfter(rs, own, sched[0]), sched[1..])
  }

  /** Cursors on different columns that read no row that only others have made keep to zones. */
  lemma {:induction false} DifferentColumnsZoned(rs: seq<RowState>, rows: nat, own: seq<nat>, sched: seq<Turn>)
    requires |own| == |rs| && DifferentColumns(rs) && ReadsOwn(rs, rows, own, sched)
    ensures Zoned(rs, rows, own, sched, ColumnZones(rs))
    decreases |sched|
  {
    hide Writable;
    if sched != [] {
      var turn := sched[0];
      var r := rs[turn.who];
      var rs' := MovedAll(rs, rows, turn);
      assert forall i | 0 <= i < |rs| :: rs'[i].ds == rs[i].ds;
      forall c | 0 <= c < |r.ds|
        ensures (r.idx, r.ds[c].colnum as int) in ColumnsZone(r.ds)
      {
      }
      forall i, c | 0 <= i < |rs| && i != turn.who && 0 <= c < |r.ds|
        ensures (r.idx, r.ds[c].colnum as int) !in ColumnsZone(rs[i].ds)
      {
      }
      assert StaysInZone(rs, rows, own, turn, ColumnZones(rs));
      assert DifferentColumns(rs');
      assert ColumnZones(rs') == ColumnZones(rs);
      DifferentColumnsZoned(rs', RowsAfter(r, rows, turn), OwnAfter(rs, own, turn), sched[1..]);
    }
    assert Zoned(rs, rows, own, sched, ColumnZones(rs));
  }
}
