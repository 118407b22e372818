/** What binding makes of an object, and what the bytes of a cell mean for it, both from the column's header alone:
    misfits/row_entry.hpp and misfits/row_entry.cc. */
module RowBytes {
  import opened Results
  import opened Bytes
  import opened BitSets
  import opened TextCodec
  import opened Extents
  import opened Columns
  import opened Stores
  import opened TableSpecs
  import opened RowSpecs
  import opened RowContracts
  import opened CursorSteps
  import opened MemBlocks

  // ------------------------------------------------------------------------------------------
  // Strings in a cell

  /** The width of one string: the first axis of TDIM, else the width in TFORM if it is not beyond the cell, else the
      whole cell. */
  function SlotWidth(h: Header): nat
    requires WellFormed(h) && ReadTdim(h).Success?
  {
    var f := FormOf(h);
    if h.tdim.Some? then ReadTdim(h).value[0]
    else if f.suffix.Some? && f.suffix.value <= f.repeat then f.suffix.value
    else f.repeat
  }

  /** How many strings there are: the product of the other axes of TDIM, else as many as fit. */
  function SlotCount(h: Header): nat
    requires WellFormed(h) && ReadTdim(h).Success?
  {
    if h.tdim.Some? then Product(ReadTdim(h).value[1..])
    else if SlotWidth(h) == 0 then 0
    else FormOf(h).repeat / SlotWidth(h)
  }

  lemma SlotShape(h: Header)
    requires WellFormed(h) && ReadTdim(h).Success? && FormOf(h).id == TString
    ensures var e := InitExtent(h);
            && e != [] && e[0] == SlotWidth(h) >= 1
            && Nelem(e) == SlotWidth(h) * SlotCount(h) == InitBytes(h) <= CellBytes(h)
            && (InitBytes(h) == CellBytes(h) <==> Even(h))
            && SlotCount(h) >= 1
  {
    hide WellFormed, ParseTform, ParseTdim;
    var f, dims := FormOf(h), ReadTdim(h).value;
    InitCount(h);
    InitBytesExact(h);
    ReadProduct(h);
    ProductPositive(dims[1..]);
    Multiple(f.repeat, ReportedWidth(h));
    if |dims| == 1 {
      LineProduct(dims);
      assert dims[1..] == [];
      TwoAxes(ReportedWidth(h), f.repeat / ReportedWidth(h));
    }
  }

  // ------------------------------------------------------------------------------------------
  // Binding

  /** The column types that an object can be bound to. */
  predicate Accepts(kind: Kind, id: TypeId) {
    match kind
    case KBits => id == TBit
    case KString => id == TString
    case KStrings => id == TString
    case KRaw => true
    case KBools => true
  }

  /** Binding succeeds exactly for the column types that the object accepts. The bound column has the number, the
      offset and the kind it was asked for. Where it throws, only a BitSet is changed, which then has as many bits as
      the column has elements. */
  lemma BindExactly(s: State, f: Field, base: int, ds: seq<Desc>, mem: Heap)
    requires base + f.offset in mem && Typed(f.kind, mem[base + f.offset]) && BindableField(s, f)
    ensures var (ds', mem', st) := BindOne(s, f, base, ds, mem);
            var ci, a := Colinfo(s, f.name), base + f.offset;
            && (st.Success? <==> ci.Success? && Accepts(f.kind, ci.value.id))
            && (st.Success? ==>
                  && |ds'| == |ds| + 1 && ds'[..|ds|] == ds
                  && var d := ds'[|ds|];
                     && d.kind == f.kind && d.addr == a
                     && d.colnum == ci.value.colnum && d.offset == ci.value.offset && d.nelem == Nelem(ci.value.extent))
            && (st.Failure? ==>
                  && ds' == ds && st == Failure(if ci.Failure? then ci.error else WrongType)
                  && (ci.Failure? || f.kind != KBits ==> mem' == mem)
                  && (ci.Success? && f.kind == KBits ==>
                        mem'[a].VBits? && mem'[a].b == mem[a].b.Resize(Nelem(ci.value.extent))))
  {
    hide Colinfo;
    var a := base + f.offset;
    assert mem[a := mem[a]] == mem;
  }

  /** What resizing leaves of a list: as much of it as there is room for, and then new elements. */
  predicate Refilled<T(==)>(was: seq<T>, now: seq<T>, n: nat, x: T) {
    |now| == n && forall i | 0 <= i < n :: now[i] == if i < |was| then was[i] else x
  }

  /** The object after binding, by the header of its column: a BitSet has as many bits as the column has, a vector of
      strings as many strings as the cell, a string the bytes of all of them; vectors of other types have the cell's
      elements. What was in it is kept as far as it fits. */
  predicate SizedFor(h: Header, was: Value, now: Value)
    requires WellFormed(h) && ReadTdim(h).Success?
  {
    hide WellFormed, FormOf, ReadTdim, SlotWidth, SlotCount, CellBytes;
    match now
    case VBits(b) => was.VBits? && b == was.b.Resize(FormOf(h).repeat)
    case VString(s) => was.VString? && Refilled(was.s, s, SlotWidth(h) * SlotCount(h), 0)
    case VStrings(ss) => was.VStrings? && Refilled(was.ss, ss, SlotCount(h), [])
    case VRaw(bytes) => was.VRaw? && Refilled(was.bytes, bytes, CellBytes(h), 0)
    case VBools(bs) => was.VBools? && FormOf(h).id == TLogical && Refilled(was.bs, bs, FormOf(h).repeat, false)
  }

  lemma BoundSizes(d: Desc, cols: seq<Header>, v: Value)
    requires BoundTo(d, cols) && Typed(d.kind, v)
    ensures 1 <= d.colnum <= |cols| && AllWellFormed(cols) && Describable(cols)
    ensures var h := cols[d.colnum - 1];
            && Accepts(d.kind, FormOf(h).id) && SizedFor(h, v, Prepare(d, v))
            && (d.kind == KStrings ==> d.width == SlotWidth(h))
  {
    hide WellFormed, FormOf, ReadTdim, Nelem, SlotWidth, SlotCount, ReportedWidth, InitExtent, InitBytes, Layout;
    var k := d.colnum - 1;
    LayoutAt(cols, k);
    LayoutCounts(cols, k);
    var ci, h := Layout(cols)[k], cols[k];
    assert ci.extent == InitExtent(h) && ci.nbytes == InitBytes(h);
    if FormOf(h).id == TString {
      SlotShape(h);
      if d.kind == KStrings {
        Quotient(SlotWidth(h), SlotCount(h));
      }
    } else {
      assert Even(h);
    }
  }

  /** On a coherent table any object that its column accepts is bound to the column of the name, and sized for it; no
      other object is touched. */
  lemma BindSizes(s: State, f: Field, base: int, ds: seq<Desc>, mem: Heap)
    requires Coherent(s) && base + f.offset in mem && Typed(f.kind, mem[base + f.offset]) && BindableField(s, f)
    ensures var (ds', mem', st) := BindOne(s, f, base, ds, mem);
            var a := base + f.offset;
            && (st.Success? <==>
                  && Has(s.data.cols, f.name)
                  && Accepts(f.kind, FormOf(s.data.cols[FindCol(s.data.cols, f.name).value]).id))
            && (st.Success? ==>
                  && |ds'| == |ds| + 1 && ds'[..|ds|] == ds
                  && var d, k := ds'[|ds|], FindCol(s.data.cols, f.name).value;
                     && d.kind == f.kind && d.addr == a && d.colnum == k + 1 && BoundTo(d, s.data.cols)
                     && SizedFor(s.data.cols[k], mem[a], mem'[a])
                     && (f.kind == KStrings ==> d.width == SlotWidth(s.data.cols[k]))
                     && ((mem[a].VBits? ==> mem[a].b.Valid()) ==> Exact(d, mem'[a])))
            && forall b | b in mem && b != a :: b in mem' && mem'[b] == mem[b]
  {
    hide WellFormed, FormOf, ReadTdim, FindCol, Nelem, SlotWidth, SlotCount, Bind, Prepare, SizedFor, Layout, Exact;
    BindExactly(s, f, base, ds, mem);
    LayoutSize(s.data.cols);
    if Has(s.data.cols, f.name) {
      var k, a := FindCol(s.data.cols, f.name).value, base + f.offset;
      LayoutCounts(s.data.cols, k);
      var (ds', mem', st) := BindOne(s, f, base, ds, mem);
      if st.Success? {
        var d := ds'[|ds|];
        assert Bind(f.kind, s.cache[k], a) == Success(d) && mem'[a] == Prepare(d, mem[a]);
        BoundSizes(d, s.data.cols, mem[a]);
        BoundExtent(d, s.data.cols);
        if mem[a].VBits? ==> mem[a].b.Valid() {
          PreparedExact(d, mem[a]);
        }
      }
    }
  }

  lemma PreparedExact(d: Desc, v: Value)
    requires Built(d) && Typed(d.kind, v) && (v.VBits? ==> v.b.Valid())
    ensures Exact(d, Prepare(d, v))
  {
    PreparedFits(d, v);
  }

  lemma Quotient(w: nat, n: nat)
    requires w >= 1
    ensures (w * n) / w == n
  {
    var q, r := (w * n) / w, (w * n) % w;
    assert w * q + r == w * n;
    assert w * (n - q) == w * n - w * q;
    assert w * (q - n) == w * q - w * n;
    if q < n {
      MulAtLeast(w, n - q);
    } else if q > n {
      MulAtLeast(w, q - n);
    }
  }

  // ------------------------------------------------------------------------------------------
  // What the bytes of a cell mean

  /** A string read from some bytes: those in front of the first NUL among them. */
  predicate TextOf(bytes: seq<Byte>, s: Text) {
    && s <= bytes
    && (forall k | 0 <= k < |s| :: s[k] != 0)
    && (|s| < |bytes| ==> bytes[|s|] == 0)
  }

  /** The object is what the cell says: bit i of a BitSet is the bit of weight 128 >> i % 8 of byte i / 8; a string ends
      at its first NUL, in a cell of several each in its own bytes; a bool is true for the letter T (84); a vector of
      the column's own type has the cell's bytes. */
  ghost predicate ReadsAs(h: Header, cell: Cell, v: Value)
    requires WellFormed(h) && ReadTdim(h).Success?
  {
    match v
    case VBits(b) =>
      && b.Valid() && b.size == FormOf(h).repeat && |cell| == |b.blocks|
      && forall i: nat | i < b.size ::
           FromLow(b.blocks[i / 8], i % 8) <==> FromHigh(cell[i / 8], i % 8)
    case VString(s) => TextOf(cell, s)
    case VStrings(ss) =>
      forall i | 0 <= i < |ss| ::
        0 <= i * SlotWidth(h) <= i * SlotWidth(h) + SlotWidth(h) <= |cell|
        && TextOf(cell[i * SlotWidth(h)..i * SlotWidth(h) + SlotWidth(h)], ss[i])
    case VRaw(bytes) => bytes == cell
    case VBools(bs) => |bs| == |cell| && forall i | 0 <= i < |bs| :: bs[i] <==> cell[i] == 84
  }

  /** The cell is what the object says, bools as the letters T (84) and F (70). Of a string come as many bytes as there
      is room for; a single string is followed by spaces, a string in a list of strings by a NUL and then spaces. */
  ghost predicate StoredIn(h: Header, v: Value, cell: Cell)
    requires WellFormed(h) && ReadTdim(h).Success?
  {
    match v
    case VBits(b) =>
      && |cell| == (b.size + 7) / 8 == |b.blocks|
      && forall i: nat | i < 8 * |cell| ::
           FromHigh(cell[i / 8], i % 8) <==> i < b.size && FromLow(b.blocks[i / 8], i % 8)
    case VString(s) => forall k | 0 <= k < |cell| :: cell[k] == if k < |s| then s[k] else 32
    case VStrings(ss) =>
      && (forall i, k | 0 <= i < |ss| && 0 <= k < SlotWidth(h) ::
            0 <= i * SlotWidth(h) + k < |cell|
            && cell[i * SlotWidth(h) + k] == if k < |ss[i]| then ss[i][k] else if k == |ss[i]| then 0 else 32)
      && forall k | 0 <= |ss| * SlotWidth(h) <= k < |cell| :: cell[k] == 32
    case VRaw(bytes) => cell == bytes
    case VBools(bs) =>
      |cell| == |bs| && forall i | 0 <= i < |bs| :: cell[i] == if bs[i] then 84 else 70
  }

  lemma CutIsText(bytes: seq<Byte>)
    ensures TextOf(bytes, CutNul(bytes))
  {
  }

  lemma {:induction false} UnslottedAt(bytes: Text, w: nat, count: nat, i: nat)
    requires Room(count, w, |bytes|) && i < count
    ensures 0 <= i * w <= i * w + w <= |bytes|
    ensures Unslotted(bytes, w, count)[i] == CutNul(bytes[i * w..i * w + w])
  {
    hide CutNul;
    RoomStep(count, w, |bytes|);
    if i > 0 {
      UnslottedAt(bytes[w..], w, count - 1, i - 1);
      MulStep(i, w);
      var from := (i - 1) * w;
      assert bytes[w..][from..from + w] == bytes[w + from..w + from + w];
    }
  }

  /** Objects of their column's size, as binding leaves them; a vector of strings may have been made shorter. */
  lemma BoundBytes(d: Desc, cols: seq<Header>)
    requires Owns(d, cols)
    ensures 1 <= d.colnum <= |cols| && AllWellFormed(cols) && Describable(cols) && Built(d)
    ensures var h := cols[d.colnum - 1];
            && d.natomic == CellBytes(h)
            && (d.kind == KStrings ==> d.width == SlotWidth(h))
            && (d.kind == KBits ==> d.nelem == FormOf(h).repeat)
  {
    hide WellFormed, FormOf, ReadTdim, Nelem, SlotWidth, SlotCount, CellBytes, Layout, InitExtent, InitBytes,
         ReportedWidth;
    BoundExtent(d, cols);
    var k := d.colnum - 1;
    LayoutAt(cols, k);
    LayoutCounts(cols, k);
    assert Layout(cols)[k].extent == InitExtent(cols[k]);
    if d.kind == KStrings {
      SlotShape(cols[k]);
    }
  }

  lemma BitsRead(h: Header, cell: Cell, n: nat)
    requires WellFormed(h) && ReadTdim(h).Success? && n == FormOf(h).repeat && |cell| == (n + 7) / 8
    ensures ReadsAs(h, cell, VBits(Unpacked(cell, n)))
  {
    hide WellFormed, FormOf, ReadTdim, Unpacked, FromLow, FromHigh;
    ReadBits(cell, n);
    var r := Unpacked(cell, n);
    forall i: nat | i < r.size
      ensures FromLow(r.blocks[i / 8], i % 8) <==> FromHigh(cell[i / 8], i % 8)
    {
      BitWeights(r, cell, i);
    }
  }

  lemma StringsRead(h: Header, cell: Cell, w: nat, count: nat)
    requires WellFormed(h) && ReadTdim(h).Success? && w == SlotWidth(h) && Room(count, w, |cell|)
    ensures ReadsAs(h, cell, VStrings(Unslotted(cell, w, count)))
  {
    hide WellFormed, FormOf, ReadTdim, Unslotted, CutNul, SlotWidth, TextOf;
    var ss := Unslotted(cell, w, count);
    forall i | 0 <= i < |ss|
      ensures 0 <= i * w <= i * w + w <= |cell| && TextOf(cell[i * w..i * w + w], ss[i])
    {
      UnslottedAt(cell, w, count, i);
      CutIsText(cell[i * w..i * w + w]);
    }
  }

  /** A bound column that reaches its cell reads, in any row, what the cell says, byte by byte. */
  lemma ColumnReads(d: Desc, cols: seq<Header>, row: RowCells, v: Value)
    requires Owns(d, cols) && RowOk(cols, row) && Exact(d, v)
    ensures 1 <= d.colnum <= |cols| && Describable(cols) && Built(d)
    ensures Fetch(d, row).Success?
    ensures ReadsAs(cols[d.colnum - 1], row[d.colnum - 1], Decode(d, Fetch(d, row).value, v))
  {
    hide Owns, WellFormed, FormOf, ReadTdim, CellBytes, Fetch, ReadsAs;
    BoundBytes(d, cols);
    OwnCell(d, cols, row, row[d.colnum - 1]);
    CellReads(d, cols[d.colnum - 1], row[d.colnum - 1], v);
  }

  lemma CellReads(d: Desc, h: Header, cell: Cell, v: Value)
    requires WellFormed(h) && ReadTdim(h).Success? && Built(d) && Exact(d, v) && |cell| == d.natomic
    requires d.kind == KStrings ==> d.width == SlotWidth(h)
    requires d.kind == KBits ==> d.nelem == FormOf(h).repeat
    ensures ReadsAs(h, cell, Decode(d, Loaded(d, cell), v))
  {
    hide WellFormed, FormOf, ReadTdim, SlotWidth, Unpacked, Unslotted, CutNul, TextOf;
    match v
    case VBits(_) => BitsRead(h, cell, d.nelem);
    case VString(_) => CutIsText(cell);
    case VStrings(ss) => StringsRead(h, cell, d.width, |ss|);
    case VRaw(bytes) => assert cell + bytes[d.natomic..] == cell;
    case VBools(bs) => BoolsRead(h, cell, bs);
  }

  lemma BoolsRead(h: Header, cell: Cell, bs: seq<bool>)
    requires WellFormed(h) && ReadTdim(h).Success? && |bs| == |cell|
    ensures ReadsAs(h, cell, VBools(Booleans(MapBytes(LogicalIn, cell)) + bs[|cell|..]))
  {
    var r := Booleans(MapBytes(LogicalIn, cell)) + bs[|cell|..];
    assert |r| == |cell|;
    assert forall i | 0 <= i < |r| :: r[i] <==> cell[i] == 84;
  }

  lemma BitsStored(h: Header, b: BitSet)
    requires WellFormed(h) && ReadTdim(h).Success? && b.Valid()
    ensures StoredIn(h, VBits(b), Reversed(b.blocks))
  {
    hide WellFormed, FormOf, ReadTdim, Reversed, FromLow, FromHigh, FitsBit;
    WriteLayout(b);
    var cell := Reversed(b.blocks);
    forall i: nat | i < 8 * |cell|
      ensures FromHigh(cell[i / 8], i % 8) <==> i < b.size && FromLow(b.blocks[i / 8], i % 8)
    {
      BitWeights(b, cell, i);
    }
  }

  lemma StringsStored(h: Header, ss: seq<Text>, w: nat, n: nat)
    requires WellFormed(h) && ReadTdim(h).Success? && w == SlotWidth(h) && Room(|ss|, w, n)
    ensures StoredIn(h, VStrings(ss), Slots(ss, w, n))
  {
    hide WellFormed, FormOf, ReadTdim, Slots, SlotWidth, Room;
    SlotsBytes(ss, w, n);
    SlotsBehind(ss, w, n);
  }

  lemma BoolsStored(h: Header, bs: seq<bool>)
    requires WellFormed(h) && ReadTdim(h).Success?
    ensures StoredIn(h, VBools(bs), MapBytes(LogicalOut, FromBooleans(bs)))
  {
    var bytes := FromBooleans(bs);
    assert forall i | 0 <= i < |bs| :: MapBytes(LogicalOut, bytes)[i] == LogicalOut(bytes[i]);
  }

  /** And it writes, to any row, what the object says, to its own cell and to no other. */
  lemma ColumnWrites(d: Desc, cols: seq<Header>, row: RowCells, v: Value)
    requires Owns(d, cols) && RowOk(cols, row) && Exact(d, v)
    ensures 1 <= d.colnum <= |cols| && Describable(cols) && Built(d)
    ensures var cell := Stored(d, Encode(d, v));
            && Put(d, row, Encode(d, v)) == Success(row[d.colnum - 1 := cell])
            && |cell| == CellBytes(cols[d.colnum - 1]) && StoredIn(cols[d.colnum - 1], v, cell)
  {
    hide Owns, WellFormed, FormOf, ReadTdim, CellBytes, Put, StoredIn;
    BoundBytes(d, cols);
    OwnCell(d, cols, row, Encode(d, v));
    CellStores(d, cols[d.colnum - 1], v);
  }

  lemma CellStores(d: Desc, h: Header, v: Value)
    requires WellFormed(h) && ReadTdim(h).Success? && Built(d) && Exact(d, v)
    requires d.kind == KStrings ==> d.width == SlotWidth(h)
    ensures StoredIn(h, v, Stored(d, Encode(d, v)))
  {
    hide WellFormed, FormOf, ReadTdim, SlotWidth, Slots, Padded, Reversed;
    match v
    case VBits(b) => BitsStored(h, b);
    case VString(s) => PaddedBytes(s, d.natomic);
    case VStrings(ss) => StringsStored(h, ss, d.width, d.natomic);
    case VRaw(bytes) => assert bytes[..d.natomic] == bytes;
    case VBools(bs) =>
      assert bs[..d.natomic] == bs;
      BoolsStored(h, bs);
  }

  // ------------------------------------------------------------------------------------------
  // Whole rows

  /** Reading a row leaves in each bound object what its cell says, and touches no other object. */
  lemma RowReads(r: RowState, t: TableData, mem: Heap)
    requires Sound(t) && Apart(r.ds, t.cols) && AllExact(r.ds, mem) && r.ds != [] && 1 <= r.idx <= |t.rows|
    ensures ReadyToRead(r.ds, mem)
    ensures var (_, mem', said) := ReadRow(r, t, mem);
            && said == Success(true) && mem'.Keys == mem.Keys
            && (forall a | a in mem && (forall j | 0 <= j < |r.ds| :: r.ds[j].addr != a) :: mem'[a] == mem[a])
            && forall j | 0 <= j < |r.ds| ::
                 && r.ds[j].addr in mem && 1 <= r.ds[j].colnum <= |t.cols| == |t.rows[r.idx - 1]|
                 && ReadTdim(t.cols[r.ds[j].colnum - 1]).Success?
                 && ReadsAs(t.cols[r.ds[j].colnum - 1], t.rows[r.idx - 1][r.ds[j].colnum - 1], mem'[r.ds[j].addr])
  {
    hide Owns, Exact, ReadFrom, Decode, Loaded, Built, Readable, CellBytes, WellFormed, ReadsAs, ReadTdim, Fetch;
    ExactReady(r.ds, mem);
    var row := t.rows[r.idx - 1];
    assert RowOk(t.cols, row);
    ReadFromRow(r.ds, 0, t.cols, row, mem);
    forall j | 0 <= j < |r.ds|
      ensures 1 <= r.ds[j].colnum <= |t.cols| && ReadTdim(t.cols[r.ds[j].colnum - 1]).Success?
      ensures ReadsAs(t.cols[r.ds[j].colnum - 1], row[r.ds[j].colnum - 1], ReadRow(r, t, mem).1[r.ds[j].addr])
    {
      ColumnReads(r.ds[j], t.cols, row, mem[r.ds[j].addr]);
      OwnCell(r.ds[j], t.cols, row, row[r.ds[j].colnum - 1]);
    }
  }

  /** Writing a row leaves in each bound column's cell what its object says. Every other cell of the row, and every
      other row, is as it was, or zero if it is new. */
  lemma RowWrites(r: RowState, t: TableData, mem: Heap)
    requires Sound(t) && Apart(r.ds, t.cols) && AllExact(r.ds, mem) && r.ds != [] && r.idx >= 1
    ensures ReadyToWrite(r.ds, mem)
    ensures var (_, t', st) := WriteRow(r, t, mem);
            && st == Success(()) && Sound(t') && t'.cols == t.cols
            && |t'.rows| == (if r.idx > |t.rows| then r.idx else |t.rows|)
            && (forall j | 0 <= j < |r.ds| ::
                 && r.ds[j].addr in mem && 1 <= r.ds[j].colnum <= |t.cols| == |t'.rows[r.idx - 1]|
                 && ReadTdim(t.cols[r.ds[j].colnum - 1]).Success?
                 && StoredIn(t.cols[r.ds[j].colnum - 1], mem[r.ds[j].addr], t'.rows[r.idx - 1][r.ds[j].colnum - 1]))
            && forall i, k | 0 <= i < |t'.rows| && 0 <= k < |t.cols|
                             && (i != r.idx - 1 || forall j | 0 <= j < |r.ds| :: r.ds[j].colnum - 1 != k) ::
                 && |t'.rows[i]| == |t.cols|
                 && (i < |t.rows| ==> |t.rows[i]| == |t.cols| && t'.rows[i][k] == t.rows[i][k])
                 && (i >= |t.rows| ==> forall b | 0 <= b < |t'.rows[i][k]| :: t'.rows[i][k][b] == 0)
  {
    hide Owns, Exact, WriteRow, Encode, Stored, Built, Writable, CellBytes, WellFormed, StoredIn, ReadTdim, Put, Grown,
         Rewritten;
    ExactReady(r.ds, mem);
    WriteOnce(r, t, mem);
    GrownRows(t, r.idx);
    var t1, t' := Grown(t, r.idx), WriteRow(r, t, mem).1;
    var row := t1.rows[r.idx - 1];
    assert forall i | 0 <= i < |t1.rows| :: RowOk(t.cols, t1.rows[i]);
    assert forall i | 0 <= i < |t.rows| :: t1.rows[i] == t.rows[i];
    RewrittenStored(r.ds, t.cols, row, mem);
    forall k | 0 <= k < |t.cols| && forall j | 0 <= j < |r.ds| :: r.ds[j].colnum - 1 != k
      ensures t'.rows[r.idx - 1][k] == row[k]
    {
      RewrittenKeeps(r.ds, t.cols, row, mem, k);
    }
  }

  lemma RewrittenStored(ds: seq<Desc>, cols: seq<Header>, row: RowCells, mem: Heap)
    requires AllWellFormed(cols) && Apart(ds, cols) && RowOk(cols, row) && AllExact(ds, mem) && ReadyToWrite(ds, mem)
    ensures forall j | 0 <= j < |ds| ::
              && 1 <= ds[j].colnum <= |cols| && ReadTdim(cols[ds[j].colnum - 1]).Success?
              && StoredIn(cols[ds[j].colnum - 1], mem[ds[j].addr], Rewritten(ds, cols, row, mem)[ds[j].colnum - 1])
  {
    hide Owns, Exact, Encode, Stored, Built, Writable, CellBytes, WellFormed, StoredIn, ReadTdim, Put, Rewritten;
    forall j | 0 <= j < |ds|
      ensures 1 <= ds[j].colnum <= |cols| && ReadTdim(cols[ds[j].colnum - 1]).Success?
      ensures StoredIn(cols[ds[j].colnum - 1], mem[ds[j].addr], Rewritten(ds, cols, row, mem)[ds[j].colnum - 1])
    {
      ColumnWrites(ds[j], cols, row, mem[ds[j].addr]);
      RewrittenCell(ds, cols, row, mem, j);
    }
  }
}
