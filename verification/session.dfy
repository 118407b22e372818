/** Any number of Table and Row objects on any number of Files, used in any order, while anyone moves the files'
    current HDUs about: misfits/hdu.cc, misfits/fits.cc, misfits/row.cc, misfits/table.cc. */
module Sessions {
  import opened Results
  import opened Extents
  import opened Columns
  import opened Stores
  import opened TableSpecs
  import opened CopySpecs
  import opened Tables
  import opened RowSpecs
  import opened MemBlocks
  import opened Rows

  datatype Op =
    | MoveFile(file: nat, hduNum: int)                   // File::move_to, by anyone
    | AddOp(table: nat, ci: ColumnInfo)
    | AddColumnOp(table: nat, ttype: string, id: TypeId, extent: Extent, column: nat)
    | ResizeOp(table: nat, colnum: int, extent: Extent)
    | ResizeNamedOp(table: nat, name: string, extent: Extent)
    | DeleteOp(table: nat, colnum: int)
    | DeleteNamedOp(table: nat, name: string)
    | CopyOp(table: nat, source: nat, names: seq<string>, how: bv8)
    | CopyAllOp(table: nat, source: nat, how: bv8)
    | KeyOp(table: nat, key: string, value: string)
    | GetKeyOp(table: nat, key: string, value: string)   // with a default value
    | ColumnsOp(table: nat)
    | RowsOp(table: nat)
    | HasOp(table: nat, name: string)
    | InfoOp(table: nat, name: string)
    | BindOp(row: nat, name: string, kind: Kind, addr: int)
    | BlockOp(row: nat, base: int, items: seq<Item>)
    | ReadOp(row: nat)
    | WriteOp(row: nat)
    | SetIdx(row: nat, idx: int)
    | SetAuto(row: nat, auto: bool)
    | Assign(addr: int, v: Value)                        // the user changes an object

  datatype Outcome =
    | Did(st: Status)
    | Said(more: Result<bool>)
    | Counted(n: nat)
    | Found(b: bool)
    | Told(info: Result<ColumnInfo>)
    | Keyed(keyword: (string, bool))
    | Refused

  /** The handles: the file and the HDU of each Table, and the Table of each Row; and what CFITSIO does to width
      suffixes in each file, and between column types. */
  datatype Handles =
    Handles(fileOf: seq<nat>, hduOf: seq<int>, tableOf: seq<nat>, rules: seq<SuffixRule>, conv: Conversion)

  /** Everything but the current HDUs: each handle sees its own HDU, wherever its file stands. */
  datatype Sys = Sys(files: seq<seq<Hdu>>, caches: seq<seq<ColumnInfo>>, rows: seq<RowState>, mem: Heap)

  ghost predicate SysOk(h: Handles, s: Sys) {
    && Legal(h.conv) && |s.caches| == |h.hduOf| == |h.fileOf| && |s.rows| == |h.tableOf| && |s.files| == |h.rules|
    && (forall f | 0 <= f < |s.files| :: HdusSound(s.files[f]))
    && (forall i | 0 <= i < |h.hduOf| :: h.fileOf[i] < |s.files| && IsTable(s.files[h.fileOf[i]], h.hduOf[i]))
    && (forall j | 0 <= j < |h.tableOf| :: h.tableOf[j] < |h.hduOf|)
  }

  function StateOf(h: Handles, s: Sys, i: nat): (r: State)
    requires SysOk(h, s) && i < |h.hduOf|
    ensures Sound(r.data)
  {
    State(s.files[h.fileOf[i]][h.hduOf[i] - 1].table.value, s.caches[i])
  }

  function WithState(h: Handles, s: Sys, i: nat, st: State): (r: Sys)
    requires SysOk(h, s) && i < |h.hduOf| && Sound(st.data)
    ensures SysOk(h, r)
  {
    s.(files := s.files[h.fileOf[i] := WithTable(s.files[h.fileOf[i]], h.hduOf[i], st.data)],
       caches := s.caches[i := st.cache])
  }

  // ------------------------------------------------------------------------------------------
  // Calls that change a table

  predicate IsChange(op: Op) {
    op.AddOp? || op.AddColumnOp? || op.ResizeOp? || op.ResizeNamedOp? || op.DeleteOp? || op.DeleteNamedOp?
  }

  predicate UsableIn(op: Op) {
    match op
    case AddOp(_, ci) => Usable(ci.extent)
    case AddColumnOp(_, _, _, e, _) => Usable(e)
    case ResizeOp(_, _, e) => Usable(e)
    case ResizeNamedOp(_, _, e) => Usable(e)
    case _ => true
  }

  lemma AddSound(s: State, ci: ColumnInfo)
    requires Sound(s.data) && Usable(ci.extent)
    ensures Sound(Add(s, ci).0.data)
  {
    hide Inserted, Layout, LayoutStatus;
  }

  lemma ResizeSound(s: State, colnum: int, e: Extent, rule: SuffixRule)
    requires Sound(s.data) && Usable(e)
    ensures Sound(Resize(s, colnum, e, rule).0.data)
  {
    hide Layout, LayoutStatus, ModifyLength, PutTdim, Same;
    UsableCount(e);
  }

  lemma ResizeNamedSound(s: State, name: string, e: Extent, rule: SuffixRule)
    requires Sound(s.data) && Usable(e)
    ensures Sound(ResizeNamed(s, name, e, rule).0.data)
  {
    hide Resize, FindCol;
    match Colinfo(s, name)
    case Failure(_) =>
    case Success(ci) => ResizeSound(s, ci.colnum, e, rule);
  }

  lemma DeleteSound(s: State, colnum: int)
    requires Sound(s.data)
    ensures Sound(Delete(s, colnum).0.data)
  {
    hide Layout, LayoutStatus, DeleteCol;
  }

  /** What a mutator leaves, and how it ends. */
  function Changed(st: State, op: Op, rule: SuffixRule): (r: (State, Status))
    requires Sound(st.data) && IsChange(op) && UsableIn(op)
    ensures Sound(r.0.data)
  {
    match op
    case AddOp(_, ci) =>
      AddSound(st, ci);
      Add(st, ci)
    case AddColumnOp(_, ttype, id, e, colnum) =>
      AddSound(st, UserInfo(ttype, id, e, colnum));
      Add(st, UserInfo(ttype, id, e, colnum))
    case ResizeOp(_, colnum, e) =>
      ResizeSound(st, colnum, e, rule);
      Resize(st, colnum, e, rule)
    case ResizeNamedOp(_, name, e) =>
      ResizeNamedSound(st, name, e, rule);
      ResizeNamed(st, name, e, rule)
    case DeleteOp(_, colnum) =>
      DeleteSound(st, colnum);
      Delete(st, colnum)
    case DeleteNamedOp(_, name) => DeleteNamed(st, name)
  }

  function ChangeAt(h: Handles, s: Sys, op: Op): (r: (Sys, Outcome))
    requires SysOk(h, s) && IsChange(op) && UsableIn(op) && op.table < |h.hduOf|
    ensures SysOk(h, r.0)
  {
    var (st, o) := Changed(StateOf(h, s, op.table), op, h.rules[h.fileOf[op.table]]);
    (WithState(h, s, op.table, st), Did(o))
  }

  // ------------------------------------------------------------------------------------------
  // Copies

  predicate IsCopy(op: Op) {
    op.CopyOp? || op.CopyAllOp?
  }

  /** The names that are copied. */
  function NamesOf(src: State, op: Op): Result<seq<string>>
    requires IsCopy(op)
  {
    if op.CopyOp? then Success(op.names) else AllNames(src)
  }

  /** What a copy leaves of the destination, and how it ends. */
  function Copied(src: State, st: State, op: Op, conv: Conversion): (r: (State, Status))
    requires Legible(src) && Sound(st.data) && Legal(conv) && IsCopy(op)
    ensures Sound(r.0.data)
  {
    match NamesOf(src, op)
    case Failure(e) => (st, Failure(e))
    case Success(names) => CopyFlagged(src, st, names, op.how, conv)
  }

  /** Source and destination are in different files, and the source can be described, as any table that has been
      opened can. */
  predicate CopyAllowed(h: Handles, s: Sys, op: Op)
    requires SysOk(h, s) && IsCopy(op)
  {
    && op.table < |h.hduOf| && op.source < |h.hduOf| && h.fileOf[op.table] != h.fileOf[op.source]
    && LayoutStatus(StateOf(h, s, op.source).data.cols).Success?
  }

  function CopyAt(h: Handles, s: Sys, op: Op): (r: (Sys, Outcome))
    requires SysOk(h, s) && IsCopy(op) && CopyAllowed(h, s, op)
    ensures SysOk(h, r.0)
  {
    var (st, o) := Copied(StateOf(h, s, op.source), StateOf(h, s, op.table), op, h.conv);
    (WithState(h, s, op.table, st), Did(o))
  }

  // ------------------------------------------------------------------------------------------
  // Questions

  predicate IsQuery(op: Op) {
    op.GetKeyOp? || op.ColumnsOp? || op.RowsOp? || op.HasOp? || op.InfoOp?
  }

  /** The answers, which change nothing. */
  function Answer(h: Handles, s: Sys, op: Op): Outcome
    requires SysOk(h, s) && IsQuery(op) && op.table < |h.hduOf|
  {
    var st := StateOf(h, s, op.table);
    match op
    case GetKeyOp(i, key, value) => Keyed(Keyword(s.files[h.fileOf[i]][h.hduOf[i] - 1].keys, key, value))
    case ColumnsOp(_) => Counted(|st.data.cols|)
    case RowsOp(_) => Counted(|st.data.rows|)
    case HasOp(_, name) => Found(Has(st.data.cols, name))
    case InfoOp(_, name) => Told(Colinfo(st, name))
  }

  // ------------------------------------------------------------------------------------------
  // Rows and other calls

  lemma WriteSound(r: RowState, t: TableData, mem: Heap)
    requires ReadyToWrite(r.ds, mem) && Sound(t)
    ensures Sound(WriteRow(r, t, mem).1)
  {
    hide WriteFrom;
  }

  function KeyAt(h: Handles, s: Sys, i: nat, key: string, value: string): (r: Sys)
    requires SysOk(h, s) && i < |h.hduOf|
    ensures SysOk(h, r)
  {
    s.(files := s.files[h.fileOf[i] := WithKey(s.files[h.fileOf[i]], h.hduOf[i], key, value)])
  }

  function ReadAt(h: Handles, s: Sys, j: nat): (r: (Sys, Outcome))
    requires SysOk(h, s) && j < |s.rows| && ReadyToRead(s.rows[j].ds, s.mem)
    ensures SysOk(h, r.0)
  {
    var (r, mem, o) := ReadRow(s.rows[j], StateOf(h, s, h.tableOf[j]).data, s.mem);
    (s.(rows := s.rows[j := r], mem := mem), Said(o))
  }

  function WriteAt(h: Handles, s: Sys, j: nat): (r: (Sys, Outcome))
    requires SysOk(h, s) && j < |s.rows| && ReadyToWrite(s.rows[j].ds, s.mem)
    ensures SysOk(h, r.0)
  {
    var st := StateOf(h, s, h.tableOf[j]);
    WriteSound(s.rows[j], st.data, s.mem);
    var (r, t, o) := WriteRow(s.rows[j], st.data, s.mem);
    (WithState(h, s, h.tableOf[j], st.(data := t)).(rows := s.rows[j := r]), Did(o))
  }

  /** Binding: what Row::add finds is a matter of the table's cache. */
  function BindAt(h: Handles, s: Sys, j: nat, f: Field): (r: (Sys, Outcome))
    requires SysOk(h, s) && j < |s.rows| && BindAllowed(h, s, j, f)
    ensures SysOk(h, r.0)
  {
    var (ds, mem, o) := BindOne(StateOf(h, s, h.tableOf[j]), f, 0, s.rows[j].ds, s.mem);
    (s.(rows := s.rows[j := s.rows[j].(ds := ds)], mem := mem), Did(o))
  }

  predicate BindAllowed(h: Handles, s: Sys, j: nat, f: Field)
    requires SysOk(h, s) && j < |s.rows|
  {
    f.offset in s.mem && Typed(f.kind, s.mem[f.offset]) && BindableField(StateOf(h, s, h.tableOf[j]), f)
  }

  function BlockAt(h: Handles, s: Sys, j: nat, base: int, items: seq<Item>): (r: (Sys, Outcome))
    requires SysOk(h, s) && j < |s.rows| && CanBind(StateOf(h, s, h.tableOf[j]), Flat(items), base, s.mem)
    ensures SysOk(h, r.0)
  {
    var (ds, mem, o) := BindFrom(StateOf(h, s, h.tableOf[j]), Flat(items), 0, base, s.rows[j].ds, s.mem);
    (s.(rows := s.rows[j := s.rows[j].(ds := ds)], mem := mem), Did(o))
  }

  predicate RowAllowed(h: Handles, s: Sys, op: Op)
    requires SysOk(h, s) && IsRow(op)
  {
    op.row < |s.rows| &&
    match op
    case BindOp(j, name, kind, addr) => BindAllowed(h, s, j, Field(name, kind, addr))
    case BlockOp(j, base, items) => CanBind(StateOf(h, s, h.tableOf[j]), Flat(items), base, s.mem)
    case ReadOp(j) => ReadyToRead(s.rows[j].ds, s.mem)
    case WriteOp(j) => ReadyToWrite(s.rows[j].ds, s.mem)
    case _ => true
  }

  predicate IsRow(op: Op) {
    op.BindOp? || op.BlockOp? || op.ReadOp? || op.WriteOp? || op.SetIdx? || op.SetAuto?
  }

  function RowAt(h: Handles, s: Sys, op: Op): (r: (Sys, Outcome))
    requires SysOk(h, s) && IsRow(op) && RowAllowed(h, s, op)
    ensures SysOk(h, r.0)
  {
    match op
    case BindOp(j, name, kind, addr) => BindAt(h, s, j, Field(name, kind, addr))
    case BlockOp(j, base, items) => BlockAt(h, s, j, base, items)
    case ReadOp(j) => ReadAt(h, s, j)
    case WriteOp(j) => WriteAt(h, s, j)
    case SetIdx(j, idx) => (s.(rows := s.rows[j := s.rows[j].(idx := idx)]), Did(Success(())))
    case SetAuto(j, auto) => (s.(rows := s.rows[j := s.rows[j].(auto := auto)]), Did(Success(())))
  }

  // ------------------------------------------------------------------------------------------

  predicate Allowed(h: Handles, s: Sys, op: Op)
    requires SysOk(h, s)
  {
    if IsChange(op) then op.table < |h.hduOf| && UsableIn(op)
    else if IsCopy(op) then CopyAllowed(h, s, op)
    else if IsQuery(op) || op.KeyOp? then op.table < |h.hduOf|
    else if IsRow(op) then RowAllowed(h, s, op)
    else op.MoveFile? ==> op.file < |s.files|
  }

  /** One operation on handles that are independent of any current HDU. */
  function Apply(h: Handles, s: Sys, op: Op): (r: (Sys, Outcome))
    requires SysOk(h, s)
    ensures SysOk(h, r.0)
  {
    if !Allowed(h, s, op) then (s, Refused)
    else if IsChange(op) then ChangeAt(h, s, op)
    else if IsCopy(op) then CopyAt(h, s, op)
    else if IsQuery(op) then (s, Answer(h, s, op))
    else if IsRow(op) then RowAt(h, s, op)
    else match op
         case KeyOp(i, key, value) => (KeyAt(h, s, i, key, value), Did(Success(())))
         case MoveFile(f, n) => (s, Did(if 1 <= n <= |s.files[f]| then Success(()) else Failure(BadHdu)))
         case Assign(addr, v) => (s.(mem := s.mem[addr := v]), Did(Success(())))
  }

  function Run(h: Handles, s: Sys, ops: seq<Op>): (Sys, seq<Outcome>)
    requires SysOk(h, s)
    decreases |ops|
  {
    if ops == [] then (s, [])
    else
      var (s1, o) := Apply(h, s, ops[0]);
      var (s2, os) := Run(h, s1, ops[1..]);
      (s2, [o] + os)
  }

  // ------------------------------------------------------------------------------------------

  function FilesOf(files: seq<File>): (fs: seq<seq<Hdu>>)
    reads files
    ensures |fs| == |files| && forall f | 0 <= f < |files| :: fs[f] == files[f].hdus
  {
    if files == [] then [] else [files[0].hdus] + FilesOf(files[1..])
  }

  function RulesOf(files: seq<File>): (rules: seq<SuffixRule>)
    ensures |rules| == |files| && forall f | 0 <= f < |files| :: rules[f] == files[f].suffixRule
  {
    seq(|files|, f requires 0 <= f < |files| => files[f].suffixRule)
  }

  function CachesOf(tables: seq<Table>): (cs: seq<seq<ColumnInfo>>)
    reads tables
    ensures |cs| == |tables| && forall i | 0 <= i < |tables| :: cs[i] == tables[i].columns
  {
    if tables == [] then [] else [tables[0].columns] + CachesOf(tables[1..])
  }

  ghost function StatesOf(rows: seq<Row>): (rs: seq<RowState>)
    reads rows
    ensures |rs| == |rows| && forall j | 0 <= j < |rows| :: rs[j] == rows[j].State()
  {
    if rows == [] then [] else [rows[0].State()] + StatesOf(rows[1..])
  }

  function HdusOf(tables: seq<Table>): (ns: seq<int>)
    ensures |ns| == |tables| && forall i | 0 <= i < |tables| :: ns[i] == tables[i].hduNum
  {
    seq(|tables|, i requires 0 <= i < |tables| => tables[i].hduNum)
  }

  /** HDUs that are still there, tables as tables. */
  predicate Shaped(a: seq<Hdu>, b: seq<Hdu>) {
    |a| == |b| && forall n | 0 <= n < |a| :: a[n].table.Some? ==> b[n].table.Some?
  }

  class Session {
    const files: seq<File>
    const mem: Memory
    const tables: seq<Table>
    const fileOf: seq<nat>
    const rows: seq<Row>
    const tableOf: seq<nat>
    const conv: Conversion

    constructor (files: seq<File>, mem: Memory, tables: seq<Table>, fileOf: seq<nat>, rows: seq<Row>,
                 tableOf: seq<nat>, conv: Conversion)
      ensures this.files == files && this.mem == mem && this.tables == tables && this.fileOf == fileOf
      ensures this.rows == rows && this.tableOf == tableOf && this.conv == conv
    {
      this.files, this.mem, this.tables, this.fileOf := files, mem, tables, fileOf;
      this.rows, this.tableOf, this.conv := rows, tableOf, conv;
    }

    ghost function Buffers(): set<object>
      reads rows
    {
      set j, i | 0 <= j < |rows| && 0 <= i < |rows[j].entries| :: rows[j].entries[i].buffer as object
    }

    ghost predicate Wired()
      reads files, rows
    {
      && Legal(conv) && FilesWired() && TablesWired() && RowsWired()
    }

    ghost predicate FilesWired()
      reads files
    {
      && (forall f | 0 <= f < |files| :: files[f].Valid())
      && (forall f, g | 0 <= f < g < |files| :: files[f] != files[g])
    }

    ghost predicate TablesWired()
      reads files
    {
      && |fileOf| == |tables|
      && (forall i | 0 <= i < |tables| ::
            fileOf[i] < |files| && tables[i].file == files[fileOf[i]] && IsTable(tables[i].file.hdus, tables[i].hduNum))
      && (forall i, k | 0 <= i < k < |tables| :: tables[i] != tables[k])
    }

    ghost predicate RowsWired()
      reads rows
    {
      && |tableOf| == |rows|
      && (forall j | 0 <= j < |rows| ::
            tableOf[j] < |tables| && rows[j].table == tables[tableOf[j]] && rows[j].mem == mem && rows[j].Valid())
      && (forall j, k | 0 <= j < k < |rows| :: rows[j] != rows[k])
    }

    function Wiring(): Handles {
      Handles(fileOf, HdusOf(tables), tableOf, RulesOf(files), conv)
    }

    lemma NowOk()
      requires Wired()
      ensures SysOk(Wiring(), Sys(FilesOf(files), CachesOf(tables), StatesOf(rows), mem.cells))
    {
      hide Legal, HdusSound, IsTable, FilesOf, CachesOf, StatesOf;
    }

    ghost function Now(): (s: Sys)
      requires Wired()
      reads files, rows, tables, mem
      ensures SysOk(Wiring(), s)
    {
      NowOk();
      Sys(FilesOf(files), CachesOf(tables), StatesOf(rows), mem.cells)
    }

    // --------------------------------------------------------------------------------------
    // What has changed

    twostate lemma FilesChanged(f: nat)
      requires f < |files| && forall g | 0 <= g < |files| && g != f :: files[g].hdus == old(files[g].hdus)
      ensures FilesOf(files) == old(FilesOf(files))[f := files[f].hdus]
    {
    }

    twostate lemma FilesKept()
      requires forall f | 0 <= f < |files| :: files[f].hdus == old(files[f].hdus)
      ensures FilesOf(files) == old(FilesOf(files))
    {
    }

    twostate lemma StatesKept()
      requires forall k | 0 <= k < |rows| :: unchanged(rows[k])
      ensures StatesOf(rows) == old(StatesOf(rows))
    {
      forall k | 0 <= k < |rows|
        ensures rows[k].State() == old(rows[k].State())
      {
        assert unchanged(rows[k]);
      }
    }

    twostate lemma CachesKept()
      requires forall k | 0 <= k < |tables| :: tables[k].columns == old(tables[k].columns)
      ensures CachesOf(tables) == old(CachesOf(tables))
    {
    }

    /** The files are as they may be, and the tables still there. */
    twostate predicate FilesSound(f: nat)
      requires f < |files|
      reads files
    {
      && (forall g | 0 <= g < |files| :: files[g].Valid())
      && (forall g | 0 <= g < |files| && g != f :: files[g].hdus == old(files[g].hdus))
      && Shaped(old(files[f].hdus), files[f].hdus)
    }

    twostate lemma TablesStay(f: nat)
      requires f < |files| && old(FilesWired()) && old(TablesWired()) && FilesSound(f)
      ensures FilesWired() && TablesWired()
    {
      hide HdusSound;
    }

    /** After an operation of table i on its own HDU the session has changed there only. */
    twostate lemma Settled(i: nat)
      requires old(Wired()) && i < |tables| && FilesSound(fileOf[i]) && tables[i].Ready()
      requires tables[i].file.hdus == WithTable(old(tables[i].file.hdus), tables[i].hduNum, tables[i].Now().data)
      requires old(mem.cells) == mem.cells
      requires forall k | 0 <= k < |tables| && k != i :: tables[k].columns == old(tables[k].columns)
      requires forall j | 0 <= j < |rows| :: unchanged(rows[j])
      ensures Wired() && Bound() && Now() == WithState(Wiring(), old(Now()), i, tables[i].Now())
    {
      hide Sound, HdusSound, StatesOf, FilesOf, Legal, FilesSound;
      TablesStay(fileOf[i]);
      OtherFiles(fileOf[i]);
      FilesChanged(fileOf[i]);
      assert CachesOf(tables) == old(CachesOf(tables))[i := tables[i].columns];
      StatesKept();
      RowsStay();
    }

    twostate lemma OtherFiles(f: nat)
      requires f < |files| && FilesSound(f)
      ensures forall g | 0 <= g < |files| && g != f :: files[g].hdus == old(files[g].hdus)
    {
    }

    twostate lemma RowsStay()
      requires old(RowsWired()) && forall j | 0 <= j < |rows| :: unchanged(rows[j])
      ensures RowsWired() && Bound()
    {
      forall j | 0 <= j < |rows|
        ensures rows[j].entries == old(rows[j].entries) && rows[j].Valid()
      {
        assert unchanged(rows[j]);
      }
    }

    /** After an operation of row j its cursor has changed, and what its file and memory say. */
    twostate lemma RowSettled(j: nat)
      requires old(Wired()) && j < |rows| && FilesSound(fileOf[tableOf[j]])
      requires forall i | 0 <= i < |tables| :: tables[i].columns == old(tables[i].columns)
      requires forall k | 0 <= k < |rows| && k != j :: unchanged(rows[k])
      requires rows[j].Valid()
      ensures Wired()
      ensures Now() ==
                old(Now()).(files := old(Now()).files[fileOf[tableOf[j]] := rows[j].table.file.hdus],
                            rows := old(Now()).rows[j := rows[j].State()], mem := mem.cells)
      ensures rows[j].table.file.hdus == old(rows[j].table.file.hdus) ==>
                Now() == old(Now()).(rows := old(Now()).rows[j := rows[j].State()], mem := mem.cells)
    {
      hide Sound, HdusSound, CachesOf, FilesOf, StatesOf, Legal, FilesSound, FilesWired, IsTable;
      TablesStay(fileOf[tableOf[j]]);
      OtherFiles(fileOf[tableOf[j]]);
      FilesChanged(fileOf[tableOf[j]]);
      CachesKept();
      OneStateChanged(j);
      RowStays(j);
      assert old(Now()).files[fileOf[tableOf[j]] := old(files[fileOf[tableOf[j]]].hdus)] == old(Now()).files;
    }

    twostate lemma RowStays(j: nat)
      requires j < |rows| && old(RowsWired()) && rows[j].Valid()
      requires forall k | 0 <= k < |rows| && k != j :: unchanged(rows[k])
      ensures RowsWired()
    {
      forall k | 0 <= k < |rows|
        ensures rows[k].Valid()
      {
        assert k != j ==> unchanged(rows[k]);
      }
    }

    twostate lemma OneStateChanged(j: nat)
      requires j < |rows|
      requires forall k | 0 <= k < |rows| && k != j :: unchanged(rows[k])
      ensures StatesOf(rows) == old(StatesOf(rows))[j := rows[j].State()]
    {
      forall k | 0 <= k < |rows| && k != j
        ensures rows[k].State() == old(rows[k].State())
      {
        assert unchanged(rows[k]);
      }
    }

    /** After an operation on file f, or on memory. */
    twostate lemma FileSettled(f: nat)
      requires old(Wired()) && f < |files| && FilesSound(f)
      requires forall i | 0 <= i < |tables| :: tables[i].columns == old(tables[i].columns)
      requires forall k | 0 <= k < |rows| :: unchanged(rows[k])
      ensures Wired() && Bound()
      ensures Now() == old(Now()).(files := old(Now()).files[f := files[f].hdus], mem := mem.cells)
      ensures files[f].hdus == old(files[f].hdus) ==> Now() == old(Now()).(mem := mem.cells)
    {
      hide Sound, HdusSound, CachesOf, StatesOf, FilesOf, Legal, FilesSound;
      TablesStay(f);
      OtherFiles(f);
      FilesChanged(f);
      CachesKept();
      StatesKept();
      assert old(Now()).files[f := old(files[f].hdus)] == old(Now()).files;
      RowsStay();
    }

    /** No columns are bound. */
    twostate predicate Bound()
      reads rows
    {
      forall j | 0 <= j < |rows| :: rows[j].entries == old(rows[j].entries)
    }

    twostate lemma BoundBuffers()
      requires Bound()
      ensures Buffers() == old(Buffers())
    {
    }

    /** Buffers that were not there before are new. */
    twostate predicate OnlyNewBuffers()
      reads rows
    {
      fresh(Buffers() - old(Buffers()))
    }

    twostate lemma RowOnlyNew(j: nat)
      requires j < |rows| && fresh(rows[j].Buffers() - old(rows[j].Buffers()))
      requires forall k | 0 <= k < |rows| && k != j :: rows[k].entries == old(rows[k].entries)
      ensures OnlyNewBuffers()
    {
      forall b | b in Buffers() && b !in old(Buffers())
        ensures fresh(b)
      {
        var k, i :| 0 <= k < |rows| && 0 <= i < |rows[k].entries| && b == rows[k].entries[i].buffer;
        assert k == j ==> b in rows[j].Buffers() && b !in old(rows[j].Buffers());
      }
    }

    lemma RowBuffers(j: nat)
      requires j < |rows|
      ensures rows[j].Buffers() <= Buffers()
    {
    }

    /** Table i of the system is table i of the session. */
    lemma OwnState(i: nat)
      requires Wired() && i < |tables|
      ensures tables[i].Ready() && tables[i].file in files && StateOf(Wiring(), Now(), i) == tables[i].Now()
      ensures Wiring().rules[Wiring().fileOf[i]] == tables[i].file.suffixRule
    {
      hide HdusSound, Sound, Legal, StatesOf, CachesOf, FilesOf, RowsWired;
    }

    /** Row j of the system is row j of the session. */
    lemma OwnRow(j: nat)
      requires Wired() && j < |rows|
      ensures Now().rows[j] == rows[j].State() && Now().mem == rows[j].mem.cells && rows[j].mem == mem
      ensures tableOf[j] < |tables| && rows[j].table == tables[tableOf[j]] && rows[j].Valid()
      ensures |Now().rows| == |rows| && Wiring().tableOf[j] == tableOf[j]
    {
    }

    lemma Sizes()
      requires Wired()
      ensures |Now().rows| == |rows| && |Wiring().hduOf| == |tables| && |Now().files| == |files|
      ensures Wiring().fileOf == fileOf && |fileOf| == |tables| && |tableOf| == |rows|
    {
    }

    // --------------------------------------------------------------------------------------
    // Changes of tables

    /** The mutator a change stands for. */
    method Change(table: Table, op: Op) returns (st: Status)
      requires table.Ready() && IsChange(op) && UsableIn(op)
      modifies table.file, table`columns
      ensures table.Ready()
      ensures (table.Now(), st) == Changed(old(table.Now()), op, table.file.suffixRule)
      ensures table.file.hdus == WithTable(old(table.file.hdus), table.hduNum, table.Now().data)
    {
      hide Add, Resize, ResizeNamed, Delete, DeleteNamed, Usable, Sound, HdusSound;
      match op
      case AddOp(_, ci) => st := table.AddInfo(ci);
      case AddColumnOp(_, ttype, id, e, colnum) => st := table.AddColumn(ttype, id, e, colnum);
      case ResizeOp(_, colnum, e) => st := table.ResizeColumn(colnum, e);
      case ResizeNamedOp(_, name, e) => st := table.ResizeColumnNamed(name, e);
      case DeleteOp(_, colnum) => st := table.DeleteColumn(colnum);
      case DeleteNamedOp(_, name) => st := table.DeleteColumnNamed(name);
    }

    /** The other files and tables are not those of table i. */
    lemma Others(i: nat)
      requires Wired() && i < |tables|
      ensures fileOf[i] < |files| && tables[i].file == files[fileOf[i]]
      ensures forall g | 0 <= g < |files| && g != fileOf[i] :: files[g] != tables[i].file
      ensures forall k | 0 <= k < |tables| && k != i :: tables[k] != tables[i]
      ensures forall g | 0 <= g < |files| :: files[g].Valid()
    {
      hide HdusSound;
    }

    method StepTable(op: Op) returns (o: Outcome)
      requires Wired() && IsChange(op) && UsableIn(op) && op.table < |tables|
      modifies files, tables
      ensures Wired() && Bound() && (Now(), o) == ChangeAt(Wiring(), old(Now()), op)
    {
      hide Wired, Now, Changed, UsableIn, Sound, HdusSound;
      OwnState(op.table);
      Others(op.table);
      Sizes();
      var st := Change(tables[op.table], op);
      Settled(op.table);
      return Did(st);
    }

    // --------------------------------------------------------------------------------------
    // Copies

    method StepCopy(op: Op) returns (o: Outcome)
      requires Wired() && IsCopy(op) && CopyAllowed(Wiring(), Now(), op)
      modifies files, tables
      ensures Wired() && Bound() && (Now(), o) == CopyAt(Wiring(), old(Now()), op)
    {
      hide Wired, Now, CopyColumns, LayoutStatus, Layout, Sound, HdusSound, Describable, AllNames, PolicyOf,
           ExtensionOf, Legal;
      Sizes();
      OwnState(op.source);
      OwnState(op.table);
      Others(op.source);
      Others(op.table);
      WiredLegal();
      var src, dest := tables[op.source], tables[op.table];
      var st;
      match op {
        case CopyOp(_, _, names, how) => st := src.Copy(dest, names, how, conv);
        case CopyAllOp(_, _, how) => st := src.CopyAll(dest, how, conv);
      }
      Settled(op.table);
      return Did(st);
    }

    lemma WiredLegal()
      requires Wired()
      ensures Legal(conv) && Wiring().conv == conv
    {
    }

    // --------------------------------------------------------------------------------------
    // Questions

    /** The question a query stands for. */
    method Ask(table: Table, op: Op) returns (o: Outcome)
      requires table.Ready() && IsQuery(op)
      modifies table.file`chdu
      ensures table.Ready()
      ensures o == match op
                   case GetKeyOp(_, key, value) => Keyed(Keyword(table.file.hdus[table.hduNum - 1].keys, key, value))
                   case ColumnsOp(_) => Counted(|table.Now().data.cols|)
                   case RowsOp(_) => Counted(|table.Now().data.rows|)
                   case HasOp(_, name) => Found(Has(table.Now().data.cols, name))
                   case InfoOp(_, name) => Told(Colinfo(table.Now(), name))
    {
      hide Colinfo, FindCol, HdusSound, Sound;
      match op {
        case GetKeyOp(_, key, value) =>
          var v, defined := table.GetKeyword(key, value);
          o := Keyed((v, defined));
        case ColumnsOp(_) =>
          var n := table.NumColumns();
          o := Counted(n);
        case RowsOp(_) =>
          var n := table.NumRows();
          o := Counted(n);
        case HasOp(_, name) =>
          var b := table.HasColumn(name);
          o := Found(b);
        case InfoOp(_, name) =>
          var r := table.ColinfoNamed(name);
          o := Told(r);
      }
    }

    method StepQuery(op: Op) returns (o: Outcome)
      requires Wired() && IsQuery(op) && op.table < |tables|
      modifies files
      ensures Wired() && Bound() && (Now(), o) == (old(Now()), Answer(Wiring(), old(Now()), op))
    {
      hide Wired, Colinfo, FindCol, Sound, HdusSound, StatesOf, CachesOf;
      OwnState(op.table);
      Others(op.table);
      Sizes();
      o := Ask(tables[op.table], op);
      FileSettled(fileOf[op.table]);
    }

    // --------------------------------------------------------------------------------------
    // Rows

    method ReadStep(j: nat) returns (o: Outcome)
      requires Wired() && j < |rows| && ReadyToRead(Now().rows[j].ds, Now().mem)
      modifies files, mem, rows, Buffers()
      ensures Wired() && Bound() && (Now(), o) == ReadAt(Wiring(), old(Now()), j)
    {
      hide ReadRow, Sound, HdusSound, ReadyToRead, CachesOf, StatesOf, FilesOf, Legal;
      RowBuffers(j);
      OwnRow(j);
      OwnState(tableOf[j]);
      Others(tableOf[j]);
      var r := rows[j].Read();
      RowSettled(j);
      return Said(r);
    }

    method WriteStep(j: nat) returns (o: Outcome)
      requires Wired() && j < |rows| && ReadyToWrite(Now().rows[j].ds, Now().mem)
      modifies files, rows, Buffers()
      ensures Wired() && Bound() && (Now(), o) == WriteAt(Wiring(), old(Now()), j)
    {
      hide WriteRow, Sound, HdusSound, ReadyToWrite, StatesOf, CachesOf, FilesOf, Legal;
      RowBuffers(j);
      OwnRow(j);
      OwnState(tableOf[j]);
      Others(tableOf[j]);
      var st := rows[j].Write();
      RowSettled(j);
      assert old(Now()).caches[tableOf[j] := old(Now()).caches[tableOf[j]]] == old(Now()).caches;
      return Did(st);
    }

    method BindStep(j: nat, f: Field) returns (o: Outcome)
      requires Wired() && j < |rows| && BindAllowed(Wiring(), Now(), j, f)
      modifies files, mem, rows
      ensures Wired() && OnlyNewBuffers() && (Now(), o) == BindAt(Wiring(), old(Now()), j, f)
    {
      hide Sound, HdusSound, CachesOf, StatesOf, FilesOf, Legal, BindOne, BindableField, Buffers, OnlyNewBuffers;
      OwnRow(j);
      OwnState(tableOf[j]);
      Others(tableOf[j]);
      var st := rows[j].Add(f.name, f.kind, f.offset);
      RowSettled(j);
      RowOnlyNew(j);
      return Did(st);
    }

    method BlockStep(j: nat, base: int, items: seq<Item>) returns (o: Outcome)
      requires Wired() && j < |rows| && CanBind(StateOf(Wiring(), Now(), tableOf[j]), Flat(items), base, Now().mem)
      modifies files, mem, rows
      ensures Wired() && OnlyNewBuffers() && (Now(), o) == BlockAt(Wiring(), old(Now()), j, base, items)
    {
      hide Sound, HdusSound, CachesOf, StatesOf, FilesOf, Legal, BindFrom, CanBind, Flat, Buffers, OnlyNewBuffers;
      OwnRow(j);
      OwnState(tableOf[j]);
      Others(tableOf[j]);
      var block := Build(items, 0);
      var st := rows[j].AddBlock(base, block);
      RowSettled(j);
      RowOnlyNew(j);
      return Did(st);
    }

    method CursorStep(j: nat, idx: int, auto: bool)
      requires Wired() && j < |rows|
      modifies rows
      ensures Wired() && Bound()
      ensures Now() == old(Now()).(rows := old(Now()).rows[j := old(Now()).rows[j].(idx := idx, auto := auto)])
    {
      hide Sound, HdusSound, CachesOf, StatesOf, FilesOf, Legal;
      OwnRow(j);
      rows[j].idx := idx;
      rows[j].autoAdvance := auto;
      RowSettled(j);
    }

    /** A call on one of the rows. */
    method StepRow(op: Op) returns (o: Outcome)
      requires Wired() && IsRow(op) && RowAllowed(Wiring(), Now(), op)
      modifies files, mem, rows, Buffers()
      ensures Wired() && OnlyNewBuffers() && (Now(), o) == RowAt(Wiring(), old(Now()), op)
    {
      hide Wired, Now, ReadyToRead, ReadyToWrite, CanBind, BindAllowed, ReadAt, WriteAt, BindAt, BlockAt, Flat;
      Sizes();
      o := Did(Success(()));
      match op
      case BindOp(j, name, kind, addr) =>
        o := BindStep(j, Field(name, kind, addr));
      case BlockOp(j, base, items) =>
        o := BlockStep(j, base, items);
      case ReadOp(j) =>
        o := ReadStep(j);
        BoundBuffers();
      case WriteOp(j) =>
        o := WriteStep(j);
        BoundBuffers();
      case SetIdx(j, idx) =>
        OwnRow(j);
        CursorStep(j, idx, rows[j].autoAdvance);
        BoundBuffers();
      case SetAuto(j, auto) =>
        OwnRow(j);
        CursorStep(j, rows[j].idx, auto);
        BoundBuffers();
    }

    // --------------------------------------------------------------------------------------
    // Other calls

    method KeyStep(i: nat, key: string, value: string)
      requires Wired() && i < |tables|
      modifies files
      ensures Wired() && Bound() && Now() == KeyAt(Wiring(), old(Now()), i, key, value)
    {
      hide Sound, HdusSound, StatesOf, CachesOf, Legal;
      OwnState(i);
      Others(i);
      tables[i].SetKeyword(key, value);
      FileSettled(fileOf[i]);
    }

    method MoveStep(f: nat, n: int) returns (o: Outcome)
      requires Wired() && f < |files|
      modifies files
      ensures Wired() && Bound() && Now() == old(Now()) && f < |Now().files|
      ensures o == Did(if 1 <= n <= |Now().files[f]| then Success(()) else Failure(BadHdu))
    {
      hide Sound, HdusSound, CachesOf, StatesOf, Legal;
      assert FilesWired();
      var st := files[f].MoveTo(n);
      FileSettled(f);
      o := Did(st);
    }

    method AssignStep(addr: int, v: Value)
      requires Wired()
      modifies mem
      ensures Wired() && Bound() && Now() == old(Now()).(mem := old(Now()).mem[addr := v])
    {
      hide Sound, HdusSound, CachesOf, StatesOf, FilesOf, Legal;
      mem.cells := mem.cells[addr := v];
      FilesKept();
      CachesKept();
      StatesKept();
    }

    /** A keyword, a move of a file, or a change of the user's memory. */
    method StepElse(op: Op) returns (o: Outcome)
      requires Wired() && Allowed(Wiring(), Now(), op) && (op.KeyOp? || op.MoveFile? || op.Assign?)
      modifies files, mem
      ensures Wired() && Bound() && (Now(), o) == Apply(Wiring(), old(Now()), op)
    {
      hide Wired, Now, KeyAt, UsableIn, CopyAllowed, RowAllowed, ChangeAt, CopyAt, RowAt, Answer;
      Sizes();
      o := Did(Success(()));
      match op
      case KeyOp(i, key, value) => KeyStep(i, key, value);
      case MoveFile(f, n) => o := MoveStep(f, n);
      case Assign(addr, v) => AssignStep(addr, v);
    }

    // --------------------------------------------------------------------------------------
    // Runs

    method TableState(i: nat) returns (st: State)
      requires Wired() && i < |tables|
      ensures st == StateOf(Wiring(), Now(), i)
    {
      OwnState(i);
      st := State(tables[i].file.hdus[tables[i].hduNum - 1].table.value, tables[i].columns);
    }

    method CheckCopy(op: Op) returns (ok: bool)
      requires Wired() && IsCopy(op)
      ensures ok == CopyAllowed(Wiring(), Now(), op)
    {
      hide Wired, Now, LayoutStatus;
      Sizes();
      if op.table >= |tables| || op.source >= |tables| || fileOf[op.table] == fileOf[op.source] {
        return false;
      }
      var st := TableState(op.source);
      ok := LayoutStatus(st.data.cols).Success?;
    }

    method CheckRow(op: Op) returns (ok: bool)
      requires Wired() && IsRow(op)
      ensures ok == RowAllowed(Wiring(), Now(), op)
    {
      hide Wired, Now, StateOf, SysOk, Typed, BindableField, CanBind, ReadyToRead, ReadyToWrite, Flat;
      Sizes();
      if op.row >= |rows| {
        return false;
      }
      OwnRow(op.row);
      var st := TableState(tableOf[op.row]);
      match op {
        case BindOp(_, name, kind, addr) =>
          ok := addr in mem.cells && Typed(kind, mem.cells[addr]) && BindableField(st, Field(name, kind, addr));
        case BlockOp(_, base, items) => ok := CanBind(st, Flat(items), base, mem.cells);
        case ReadOp(j) => ok := ReadyToRead(Descs(rows[j].entries), mem.cells);
        case WriteOp(j) => ok := ReadyToWrite(Descs(rows[j].entries), mem.cells);
        case _ => ok := true;
      }
    }

    /** Whether the driver makes the call at all. */
    method Check(op: Op) returns (ok: bool)
      requires Wired()
      ensures ok == Allowed(Wiring(), Now(), op)
    {
      hide Wired, Now, UsableIn, CopyAllowed, RowAllowed;
      Sizes();
      if IsChange(op) {
        ok := op.table < |tables| && UsableIn(op);
      } else if IsCopy(op) {
        ok := CheckCopy(op);
      } else if IsQuery(op) || op.KeyOp? {
        ok := op.table < |tables|;
      } else if IsRow(op) {
        ok := CheckRow(op);
      } else {
        ok := op.MoveFile? ==> op.file < |files|;
      }
    }

    /** One call on one of the objects. */
    method Step(op: Op) returns (o: Outcome)
      requires Wired()
      modifies files, mem, tables, rows, Buffers()
      ensures Wired() && OnlyNewBuffers() && (Now(), o) == Apply(Wiring(), old(Now()), op)
    {
      hide Wired, Now, Apply, Allowed, RowAt;
      ApplyForm(Wiring(), Now(), op);
      ghost var before := Buffers();
      Sizes();
      var ok := Check(op);
      label Checked:
      if !ok {
        return Refused;
      }
      if IsRow(op) {
        o := StepRow(op);
        assert forall b | b in Buffers() - before :: fresh@Checked(b) && fresh(b);
      } else {
        o := StepFixed(op);
        BoundBuffers();
      }
    }

    /** A call that binds nothing. */
    method StepFixed(op: Op) returns (o: Outcome)
      requires Wired() && Allowed(Wiring(), Now(), op) && !IsRow(op)
      modifies files, mem, tables
      ensures Wired() && Bound() && (Now(), o) == Apply(Wiring(), old(Now()), op)
    {
      hide Wired, Now, UsableIn, CopyAllowed, RowAllowed, ChangeAt, CopyAt, RowAt, KeyAt, Answer;
      Sizes();
      if IsChange(op) {
        o := StepTable(op);
      } else if IsCopy(op) {
        o := StepCopy(op);
      } else if IsQuery(op) {
        o := StepQuery(op);
      } else {
        o := StepElse(op);
      }
    }

    /** For every interleaving of calls on any number of Table and Row objects, with the files moved in between,
        the outcomes and the final state are those of handles that are independent of the current HDUs. */
    method Replay(ops: seq<Op>) returns (os: seq<Outcome>)
      requires Wired()
      modifies files, mem, tables, rows, Buffers()
      ensures Wired() && (Now(), os) == Run(Wiring(), old(Now()), ops)
    {
      hide Apply, Wired, Now, Run;
      os := [];
      var k := 0;
      ghost var all := Run(Wiring(), Now(), ops);
      assert ops[0..] == ops && os + all.1 == all.1;
      while k < |ops|
        invariant 0 <= k <= |ops| && Wired() && OnlyNewBuffers()
        invariant all.0 == Run(Wiring(), Now(), ops[k..]).0 && all.1 == os + Run(Wiring(), Now(), ops[k..]).1
      {
        ghost var s, before := Now(), Buffers();
        label Before:
        var o := Step(ops[k]);
        assert forall b | b in Buffers() - before :: fresh@Before(b) && fresh(b);
        RunStep(Wiring(), s, ops, k, os);
        os := os + [o];
        k := k + 1;
      }
      assert ops[k..] == [];
      RunNothing(Wiring(), Now());
      assert os + [] == os;
    }
  }

  lemma RunNothing(h: Handles, s: Sys)
    requires SysOk(h, s)
    ensures Run(h, s, []) == (s, [])
  {
  }

  /** Calls that are not allowed are refused, and calls on rows are just that. */
  lemma ApplyForm(h: Handles, s: Sys, op: Op)
    requires SysOk(h, s)
    ensures !Allowed(h, s, op) ==> Apply(h, s, op) == (s, Refused)
    ensures Allowed(h, s, op) && IsRow(op) ==> RowAllowed(h, s, op) && Apply(h, s, op) == RowAt(h, s, op)
  {
    hide RowAllowed, RowAt, UsableIn, CopyAllowed, ChangeAt, CopyAt, Answer;
  }

  lemma RunStep(h: Handles, s: Sys, ops: seq<Op>, k: nat, os: seq<Outcome>)
    requires SysOk(h, s) && k < |ops|
    ensures var (s1, o) := Apply(h, s, ops[k]);
            && Run(h, s, ops[k..]).0 == Run(h, s1, ops[k + 1..]).0
            && os + Run(h, s, ops[k..]).1 == os + [o] + Run(h, s1, ops[k + 1..]).1
  {
    hide Apply;
    assert ops[k..][0] == ops[k] && ops[k..][1..] == ops[k + 1..];
    var (s1, o) := Apply(h, s, ops[k]);
    var rest := Run(h, s1, ops[k + 1..]).1;
    assert os + ([o] + rest) == os + [o] + rest;
  }
}
