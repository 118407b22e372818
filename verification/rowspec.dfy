/** What reading and writing a Row does to the user's memory and to the table: misfits/row.cc and the
    columns of misfits/row_entry.hpp and misfits/row_entry.cc. The current HDU does not occur here. */
module RowSpecs {
  import opened Results
  import opened Bytes
  import opened BitSets
  import opened TextCodec
  import opened Extents
  import opened Columns
  import opened Stores

  // ------------------------------------------------------------------------------------------
  // User memory

  /** The objects that can be bound to a column: a BitSet, a string, a vector of strings, a vector of the
      column's own element type (as its bytes), a vector of bool. */
  datatype Kind = KBits | KString | KStrings | KRaw | KBools

  datatype Value =
    | VBits(b: BitSet)
    | VString(s: Text)
    | VStrings(ss: seq<Text>)
    | VRaw(bytes: seq<Byte>)
    | VBools(bs: seq<bool>)

  predicate Typed(kind: Kind, v: Value) {
    match kind
    case KBits => v.VBits?
    case KString => v.VString?
    case KStrings => v.VStrings?
    case KRaw => v.VRaw?
    case KBools => v.VBools?
  }

  type Heap = map<int, Value>

  // ------------------------------------------------------------------------------------------
  // Columns bound to memory

  /** A ColumnBase: what it remembers of the description, and the address it is bound to. */
  datatype Desc = Desc(kind: Kind, colnum: nat, nelem: nat, natomic: nat, offset: int, width: nat, addr: int)

  /** Descriptions as refresh makes them. */
  predicate Described(ci: ColumnInfo) {
    && Nelem(ci.extent) >= 0 && ci.nbytes >= 0 && ci.extent != [] && ci.extent[0] >= 1
    && (ci.id == TString ==> ci.nbytes == Nelem(ci.extent))
  }

  /** Column types whose values CFITSIO moves without conversion for the kind. */
  predicate Direct(kind: Kind, id: TypeId) {
    match kind
    case KBits => id != TLogical
    case KRaw => id != TString && id != TLogical
    case KBools => id == TLogical
    case _ => true
  }

  /** The constructors of the Column classes. */
  function Bind(kind: Kind, ci: ColumnInfo, addr: int): Result<Desc>
    requires Described(ci) && Direct(kind, ci.id)
  {
    var nelem := Nelem(ci.extent);
    match kind
    case KBits =>
      if ci.id != TBit then Failure(WrongType)
      else Success(Desc(kind, ci.colnum, nelem, (nelem + 7) / 8, ci.offset, 0, addr))
    case KString =>
      if ci.id != TString then Failure(WrongType)
      else Success(Desc(kind, ci.colnum, nelem, ci.nbytes, ci.offset, 0, addr))
    case KStrings =>
      if ci.id != TString then Failure(WrongType)
      else Success(Desc(kind, ci.colnum, nelem, ci.nbytes, ci.offset, ci.extent[0], addr))
    case KRaw =>
      var natomic := if ci.id == TBit then BitBytes(nelem) else nelem * UnitBytes(ci.id);
      Success(Desc(kind, ci.colnum, nelem, natomic, ci.offset, 0, addr))
    case KBools =>
      Success(Desc(kind, ci.colnum, nelem, nelem, ci.offset, 0, addr))
  }

  /** What the constructors guarantee of a Desc. */
  predicate Built(d: Desc) {
    && (d.kind == KBits ==> d.natomic == (d.nelem + 7) / 8)
    && (d.kind == KStrings ==> d.width >= 1 && d.natomic == d.nelem)
    && (d.kind == KBools ==> d.natomic == d.nelem)
  }

  function Sized<T>(s: seq<T>, n: nat, x: T): (r: seq<T>)
    ensures |r| == n
  {
    if |s| >= n then s[..n] else s + seq(n - |s|, _ => x)
  }

  /** The resizing of the bound object by the constructors. */
  function Prepare(d: Desc, v: Value): (r: Value)
    requires Typed(d.kind, v)
    ensures Typed(d.kind, r)
  {
    match v
    case VBits(b) => VBits(b.Resize(d.nelem))
    case VString(s) => VString(Sized(s, d.natomic, NUL))
    case VStrings(ss) => VStrings(Sized(ss, if d.width == 0 then 0 else d.nelem / d.width, []))
    case VRaw(bytes) => VRaw(Sized(bytes, d.natomic, 0))
    case VBools(bs) => VBools(Sized(bs, d.natomic, false))
  }

  /** The object when the constructor has thrown for the column's type: a BitSet is resized before its column is
      looked at, a string or a vector of strings after. */
  function Rejected(kind: Kind, ci: ColumnInfo, v: Value): (r: Value)
    requires Described(ci) && Typed(kind, v)
    ensures Typed(kind, r)
  {
    match v
    case VBits(b) => VBits(b.Resize(Nelem(ci.extent)))
    case _ => v
  }

  /** Objects that a read leaves within their own storage. */
  predicate Readable(d: Desc, v: Value) {
    && Typed(d.kind, v)
    && match v
       case VBits(b) => b.Valid()
       case VString(_) => true
       case VStrings(ss) => Room(|ss|, d.width, d.natomic)
       case VRaw(bytes) => |bytes| >= d.natomic
       case VBools(bs) => |bs| >= d.natomic
  }

  /** Objects that a write can take its bytes from: a BitSet must have kept the size of its column. */
  predicate Writable(d: Desc, v: Value) {
    Readable(d, v) && (v.VBits? ==> v.b.size == d.nelem)
  }

  /** Binding makes an object fit. */
  lemma PreparedFits(d: Desc, v: Value)
    requires Built(d) && Typed(d.kind, v) && (v.VBits? ==> v.b.Valid())
    ensures Writable(d, Prepare(d, v))
  {
    match v
    case VBits(b) => ResizeBits(b, d.nelem);
    case VStrings(_) => assert (d.nelem / d.width) * d.width <= d.nelem;
    case _ =>
  }

  // ------------------------------------------------------------------------------------------
  // Logical columns hold the letters T and F

  const LETTER_T: Byte := 84
  const LETTER_F: Byte := 70

  function LogicalIn(b: Byte): Byte {
    if b == LETTER_T then 1 else 0
  }

  function LogicalOut(b: Byte): Byte {
    if b != 0 then LETTER_T else LETTER_F
  }

  function MapBytes(f: Byte -> Byte, s: seq<Byte>): (r: seq<Byte>)
    ensures |r| == |s|
  {
    seq(|s|, i requires 0 <= i < |s| => f(s[i]))
  }

  /** The loop of the bool columns over the buffer, in both directions. */
  function Booleans(bytes: seq<Byte>): (r: seq<bool>)
    ensures |r| == |bytes|
  {
    seq(|bytes|, i requires 0 <= i < |bytes| => bytes[i] != 0)
  }

  function FromBooleans(bs: seq<bool>): (r: seq<Byte>)
    ensures |r| == |bs|
  {
    seq(|bs|, i requires 0 <= i < |bs| => if bs[i] then 1 else 0)
  }

  // ------------------------------------------------------------------------------------------
  // One column, one row

  predicate ByOffset(kind: Kind) {
    kind == KString || kind == KStrings
  }

  /** The bytes a column reads into its buffer: text by its offset in the row, other types by column. */
  function Fetch(d: Desc, row: RowCells): (r: Result<seq<Byte>>)
    ensures r.Success? ==> |r.value| == d.natomic
  {
    if ByOffset(d.kind) then ReadRange(row, d.offset, d.natomic)
    else match ReadCell(row, d.colnum, d.natomic)
         case Failure(e) => Failure(e)
         case Success(bytes) => Success(if d.kind == KBools then MapBytes(LogicalIn, bytes) else bytes)
  }

  /** Where a column's buffer goes in the row. */
  function Put(d: Desc, row: RowCells, bytes: seq<Byte>): (r: Result<RowCells>)
    requires |bytes| == d.natomic
    ensures r.Success? ==> |r.value| == |row| && forall k | 0 <= k < |row| :: |r.value[k]| == |row[k]|
  {
    if ByOffset(d.kind) then WriteRange(row, d.offset, bytes)
    else WriteCell(row, d.colnum, if d.kind == KBools then MapBytes(LogicalOut, bytes) else bytes)
  }

  /** The object after its column has been read. */
  function Decode(d: Desc, bytes: seq<Byte>, v: Value): (r: Value)
    requires Built(d) && Readable(d, v) && |bytes| == d.natomic
  {
    match v
    case VBits(_) => VBits(Unpacked(bytes, d.nelem))
    case VString(_) => VString(CutNul(bytes))
    case VStrings(ss) => VStrings(Unslotted(bytes, d.width, |ss|))
    case VRaw(old_) => VRaw(bytes + old_[d.natomic..])
    case VBools(bs) => VBools(Booleans(bytes) + bs[d.natomic..])
  }

  /** The buffer of a column about to be written. */
  function Encode(d: Desc, v: Value): (bytes: seq<Byte>)
    requires Built(d) && Writable(d, v)
    ensures |bytes| == d.natomic
  {
    match v
    case VBits(b) => Reversed(b.blocks)
    case VString(s) => Padded(s, d.natomic)
    case VStrings(ss) => Slots(ss, d.width, d.natomic)
    case VRaw(bytes) => bytes[..d.natomic]
    case VBools(bs) => FromBooleans(bs[..d.natomic])
  }

  lemma DecodeReadable(d: Desc, bytes: seq<Byte>, v: Value)
    requires Built(d) && Readable(d, v) && |bytes| == d.natomic
    ensures Readable(d, Decode(d, bytes, v))
    ensures v.VBits? ==> Writable(d, Decode(d, bytes, v))
  {
    if v.VBits? {
      ReadBits(bytes, d.nelem);
    }
  }

  // ------------------------------------------------------------------------------------------
  // All columns of a Row

  predicate ReadyToRead(ds: seq<Desc>, mem: Heap) {
    forall i | 0 <= i < |ds| :: Built(ds[i]) && ds[i].addr in mem && Readable(ds[i], mem[ds[i].addr])
  }

  predicate ReadyToWrite(ds: seq<Desc>, mem: Heap) {
    forall i | 0 <= i < |ds| :: Built(ds[i]) && ds[i].addr in mem && Writable(ds[i], mem[ds[i].addr])
  }

  /** Another column's read does not spoil an object, even a shared one. */
  lemma StaysReadable(ds: seq<Desc>, mem: Heap, i: nat, bytes: seq<Byte>)
    requires ReadyToRead(ds, mem) && i < |ds| && |bytes| == ds[i].natomic
    ensures ReadyToRead(ds, mem[ds[i].addr := Decode(ds[i], bytes, mem[ds[i].addr])])
  {
    DecodeReadable(ds[i], bytes, mem[ds[i].addr]);
  }

  /** Read columns i and on, in order, up to the first failure. */
  function ReadFrom(ds: seq<Desc>, i: nat, row: RowCells, mem: Heap): (Heap, Status)
    requires i <= |ds| && ReadyToRead(ds, mem)
    decreases |ds| - i
  {
    if i == |ds| then (mem, Success(()))
    else match Fetch(ds[i], row)
         case Failure(e) => (mem, Failure(e))
         case Success(bytes) =>
           StaysReadable(ds, mem, i, bytes);
           ReadFrom(ds, i + 1, row, mem[ds[i].addr := Decode(ds[i], bytes, mem[ds[i].addr])])
  }

  /** A table grown with zero rows so that it has row `idx`. */
  function Grown(t: TableData, idx: int): (r: TableData)
    requires Sound(t)
    ensures Sound(r) && r.cols == t.cols && |r.rows| >= idx && |r.rows| >= |t.rows|
  {
    if idx <= |t.rows| then t else AppendRows(t, idx - |t.rows|)
  }

  function PutRow(t: TableData, idx: int, row: RowCells): (r: TableData)
    requires Sound(t) && 1 <= idx <= |t.rows| && RowOk(t.cols, row)
    ensures Sound(r)
  {
    t.(rows := t.rows[idx - 1 := row])
  }

  /** Write one column of row `idx`. */
  function WriteOne(d: Desc, t: TableData, idx: int, v: Value): (r: Result<TableData>)
    requires Sound(t) && Built(d) && Writable(d, v)
    ensures r.Success? ==> Sound(r.value)
  {
    if idx < 1 then Failure(BadRowNumber)
    else
      var t1 := Grown(t, idx);
      assert RowOk(t1.cols, t1.rows[idx - 1]);
      match Put(d, t1.rows[idx - 1], Encode(d, v))
      case Failure(e) => Failure(e)
      case Success(row) => Success(PutRow(t1, idx, row))
  }

  /** Write columns i and on, in order, up to the first failure. */
  function WriteFrom(ds: seq<Desc>, i: nat, t: TableData, idx: int, mem: Heap): (r: (TableData, Status))
    requires i <= |ds| && ReadyToWrite(ds, mem) && Sound(t)
    ensures Sound(r.0)
    decreases |ds| - i
  {
    if i == |ds| then (t, Success(()))
    else match WriteOne(ds[i], t, idx, mem[ds[i].addr])
         case Failure(e) => (t, Failure(e))
         case Success(t1) => WriteFrom(ds, i + 1, t1, idx, mem)
  }

  // ------------------------------------------------------------------------------------------

  /** The cursor of a Row and its columns. */
  datatype RowState = RowState(idx: int, auto: bool, ds: seq<Desc>)

  function Advanced(r: RowState): RowState {
    if r.auto then r.(idx := r.idx + 1) else r
  }

  /** Row::read. */
  function ReadRow(r: RowState, t: TableData, mem: Heap): (RowState, Heap, Result<bool>)
    requires ReadyToRead(r.ds, mem)
  {
    if r.ds == [] then (r, mem, Failure(NoEntries))
    else if r.idx > |t.rows| then (r, mem, Success(false))
    else if r.idx < 1 then (r, mem, Failure(BadRowNumber))
    else
      var (mem', st) := ReadFrom(r.ds, 0, t.rows[r.idx - 1], mem);
      if st.Failure? then (r, mem', Failure(st.error)) else (Advanced(r), mem', Success(true))
  }

  /** Row::write. */
  function WriteRow(r: RowState, t: TableData, mem: Heap): (RowState, TableData, Status)
    requires ReadyToWrite(r.ds, mem) && Sound(t)
  {
    if r.ds == [] then (r, t, Failure(NoEntries))
    else
      var (t', st) := WriteFrom(r.ds, 0, t, r.idx, mem);
      if st.Failure? then (r, t', st) else (Advanced(r), t', Success(()))
  }
}
