/** The Row of misfits/row.hpp and misfits/row.cc, its bound columns, and their work on buffers and memory. */
module Rows {
  import opened Results
  import opened Bytes
  import opened BitSets
  import opened TextCodec
  import opened Stores
  import opened TableSpecs
  import opened Tables
  import opened RowSpecs
  import opened MemBlocks

  /** The user's objects, by address. */
  class Memory {
    var cells: Heap

    constructor (cells: Heap)
      ensures this.cells == cells
    {
      this.cells := cells;
    }
  }

  class Column {
    const d: Desc
    const mem: Memory
    const buffer: array<Byte>

    ghost predicate Valid() {
      Built(d) && buffer.Length == d.natomic
    }

    ghost predicate Bound()
      reads mem
    {
      Valid() && d.addr in mem.cells
    }

    constructor (d: Desc, mem: Memory)
      requires Built(d) && d.addr in mem.cells && Typed(d.kind, mem.cells[d.addr])
      modifies mem
      ensures this.d == d && this.mem == mem && Valid() && fresh(buffer)
      ensures mem.cells == old(mem.cells[d.addr := Prepare(d, mem.cells[d.addr])])
    {
      this.d, this.mem := d, mem;
      buffer := new Byte[d.natomic];
      new;
      mem.cells := mem.cells[d.addr := Prepare(d, mem.cells[d.addr])];
    }

    /** The read of each column class, from the current HDU of the table's file. */
    method Read(table: Table, row: int) returns (st: Status)
      requires table.Ready() && table.file.chdu == table.hduNum
      requires Bound() && Readable(d, mem.cells[d.addr])
      modifies mem, buffer
      ensures var rows := table.Now().data.rows;
              if !(1 <= row <= |rows|) then st == Failure(BadRowNumber) && mem.cells == old(mem.cells)
              else match Fetch(d, rows[row - 1])
                   case Failure(e) => st == Failure(e) && mem.cells == old(mem.cells)
                   case Success(bytes) =>
                     st == Success(()) && mem.cells == old(mem.cells[d.addr := Decode(d, bytes, mem.cells[d.addr])])
    {
      var rows := table.file.Table().rows;
      if !(1 <= row <= |rows|) {
        return Failure(BadRowNumber);
      }
      var bytes :- Fetch(d, rows[row - 1]);
      forall k | 0 <= k < buffer.Length {
        buffer[k] := bytes[k];
      }
      assert buffer[..] == bytes;
      var v := mem.cells[d.addr];
      match v {
        case VBits(b) =>
          var r := ReadBits(b);
          v := VBits(r);
        case VString(_) =>
          var s := ReadString(buffer);
          v := VString(s);
        case VStrings(ss) =>
          var r := ReadStrings(buffer, d.width, ss);
          v := VStrings(r);
        case VRaw(old_) =>
          v := VRaw(buffer[..] + old_[d.natomic..]);
        case VBools(bs) =>
          var r := ReadBools(buffer, bs);
          v := VBools(r);
      }
      mem.cells := mem.cells[d.addr := v];
      return Success(());
    }

    method ReadBits(base: BitSet) returns (r: BitSet)
      requires Valid() && d.kind == KBits && base.Valid()
      ensures r == Unpacked(buffer[..], d.nelem)
    {
      r := ReadBitColumn(buffer, base, d.nelem);
    }

    /** The write of each column class, to the current HDU of the table's file. */
    method Write(table: Table, row: int) returns (st: Status)
      requires table.Ready() && table.file.chdu == table.hduNum
      requires Bound() && Writable(d, mem.cells[d.addr])
      modifies table.file`hdus, buffer
      ensures table.Ready()
      ensures match WriteOne(d, old(table.Now()).data, row, mem.cells[d.addr])
              case Failure(e) => st == Failure(e) && table.Now() == old(table.Now())
              case Success(t) => st == Success(()) && table.Now() == old(table.Now()).(data := t)
      ensures table.file.hdus == WithTable(old(table.file.hdus), table.hduNum, table.Now().data)
    {
      assert WithTable(table.file.hdus, table.hduNum, table.Now().data) == table.file.hdus;
      Fill();
      if row < 1 {
        return Failure(BadRowNumber);
      }
      var t := Grown(table.file.Table(), row);
      assert RowOk(t.cols, t.rows[row - 1]);
      var cells :- Put(d, t.rows[row - 1], buffer[..]);
      table.file.PutTable(PutRow(t, row, cells));
      return Success(());
    }

    /** The packing of the bound object into the buffer. */
    method Fill()
      requires Bound() && Writable(d, mem.cells[d.addr])
      modifies buffer
      ensures buffer[..] == Encode(d, mem.cells[d.addr])
    {
      match mem.cells[d.addr] {
        case VBits(b) =>
          ToBlockRange(b, buffer);
          assert buffer[..] == Reversed(b.blocks);
        case VString(s) =>
          WriteString(s, buffer);
        case VStrings(ss) =>
          WriteStrings(ss, d.width, buffer);
        case VRaw(bytes) =>
          forall k | 0 <= k < buffer.Length {
            buffer[k] := bytes[k];
          }
          assert buffer[..] == bytes[..d.natomic];
        case VBools(bs) =>
          WriteBools(bs, buffer);
      }
    }
  }

  /** The loops of the bool columns. */
  method ReadBools(buffer: array<Byte>, base: seq<bool>) returns (r: seq<bool>)
    requires |base| >= buffer.Length
    ensures r == Booleans(buffer[..]) + base[buffer.Length..]
  {
    r := base;
    var idx := 0;
    while idx < buffer.Length
      invariant 0 <= idx <= buffer.Length
      invariant r == Booleans(buffer[..])[..idx] + base[idx..]
    {
      r := r[idx := buffer[idx] != 0];
      idx := idx + 1;
    }
  }

  method WriteBools(base: seq<bool>, buffer: array<Byte>)
    requires |base| >= buffer.Length
    modifies buffer
    ensures buffer[..] == FromBooleans(base[..buffer.Length])
  {
    var idx := 0;
    while idx < buffer.Length
      invariant 0 <= idx <= buffer.Length
      invariant forall k | 0 <= k < idx :: buffer[k] == if base[k] then 1 else 0
    {
      buffer[idx] := if base[idx] then 1 else 0;
      idx := idx + 1;
    }
  }

  // ------------------------------------------------------------------------------------------

  function Descs(entries: seq<Column>): (ds: seq<Desc>)
    ensures |ds| == |entries| && forall i | 0 <= i < |ds| :: ds[i] == entries[i].d
  {
    seq(|entries|, i requires 0 <= i < |entries| => entries[i].d)
  }

  class Row {
    const table: Table
    const mem: Memory
    var idx: int
    var autoAdvance: bool
    var entries: seq<Column>

    constructor (table: Table, mem: Memory)
      ensures this.table == table && this.mem == mem && Valid() && State() == RowState(1, true, [])
    {
      this.table, this.mem := table, mem;
      idx, autoAdvance, entries := 1, true, [];
    }

    ghost predicate Valid()
      reads this
    {
      forall i | 0 <= i < |entries| :: entries[i].Valid() && entries[i].mem == mem
    }

    ghost function State(): RowState
      reads this
    {
      RowState(idx, autoAdvance, Descs(entries))
    }

    ghost function Buffers(): set<object>
      reads this
    {
      set i | 0 <= i < |entries| :: entries[i].buffer as object
    }

    /** Row::add of a name and an address. */
    method Add(name: string, kind: Kind, addr: int) returns (st: Status)
      requires Valid() && table.Ready() && addr in mem.cells && Typed(kind, mem.cells[addr])
      requires BindableField(table.Now(), Field(name, kind, addr))
      modifies this`entries, mem, table.file`chdu
      ensures Valid() && table.Ready() && table.Now() == old(table.Now()) && table.file.chdu == table.hduNum
      ensures fresh(Buffers() - old(Buffers()))
      ensures idx == old(idx) && autoAdvance == old(autoAdvance)
      ensures (State().ds, mem.cells, st) ==
                BindOne(table.Now(), Field(name, kind, addr), 0, old(State().ds), old(mem.cells))
    {
      hide Colinfo;
      var ci :- table.ColinfoNamed(name);
      var r := Bind(kind, ci, addr);
      if r.Failure? {
        mem.cells := mem.cells[addr := Rejected(kind, ci, mem.cells[addr])];
        return Failure(r.error);
      }
      var column := new Column(r.value, mem);
      assert Descs(entries + [column]) == Descs(entries) + [r.value];
      entries := entries + [column];
      return Success(());
    }

    /** Row::add of entry k of a block. */
    method AddEntry(base: int, block: MemBlock, k: nat) returns (st: Status)
      requires Valid() && table.Ready() && CanBind(table.Now(), block.Fields(), base, mem.cells)
      requires k < |block.entries| == |block.Fields()|
      modifies this`entries, mem, table.file`chdu
      ensures Valid() && table.Ready() && table.Now() == old(table.Now())
      ensures fresh(Buffers() - old(Buffers()))
      ensures idx == old(idx) && autoAdvance == old(autoAdvance)
      ensures CanBind(table.Now(), block.Fields(), base, mem.cells)
      ensures var all := BindFrom(table.Now(), block.Fields(), k, base, old(State().ds), old(mem.cells));
              if st.Failure? then (State().ds, mem.cells, st) == all
              else BindFrom(table.Now(), block.Fields(), k + 1, base, State().ds, mem.cells) == all
    {
      hide BindOne, BindableField, Buffers, Sound, HdusSound, Built;
      var entry := block.entries[k];
      ghost var f := Field(entry.name, entry.kind, entry.offset);
      assert block.Fields()[k] == f;
      StaysBindable(table.Now(), block.Fields(), k, base, State().ds, mem.cells);
      SameField(table.Now(), entry.name, entry.kind, base, entry.offset, State().ds, mem.cells);
      st := Add(entry.name, entry.kind, base + entry.offset);
    }

    /** Row::add of a base address and a block. */
    method AddBlock(base: int, block: MemBlock) returns (st: Status)
      requires Valid() && table.Ready() && CanBind(table.Now(), block.Fields(), base, mem.cells)
      modifies this`entries, mem, table.file`chdu
      ensures Valid() && table.Ready() && table.Now() == old(table.Now())
      ensures fresh(Buffers() - old(Buffers()))
      ensures idx == old(idx) && autoAdvance == old(autoAdvance)
      ensures (State().ds, mem.cells, st) ==
                BindFrom(table.Now(), block.Fields(), 0, base, old(State().ds), old(mem.cells))
    {
      hide BindOne, BindableField, CanBind, Built, HdusSound, Sound, View, Valid;
      ghost var s, fs := table.Now(), block.Fields();
      var k := 0;
      while k < |block.entries|
        invariant 0 <= k <= |block.entries| == |fs| && fs == block.Fields()
        invariant Valid() && table.Ready() && table.Now() == s && idx == old(idx) && autoAdvance == old(autoAdvance)
        invariant fresh(Buffers() - old(Buffers()))
        invariant CanBind(s, fs, base, mem.cells)
        invariant BindFrom(s, fs, k, base, State().ds, mem.cells)
               == BindFrom(s, fs, 0, base, old(State().ds), old(mem.cells))
      {
        st := AddEntry(base, block, k);
        if st.Failure? {
          return;
        }
        k := k + 1;
      }
      st := Success(());
    }

    /** Row::read. */
    method Read() returns (r: Result<bool>)
      requires Valid() && table.Ready() && ReadyToRead(State().ds, mem.cells)
      modifies this`idx, mem, table.file`chdu, Buffers()
      ensures Valid() && table.Ready() && table.Now() == old(table.Now()) && table.file.chdu == table.hduNum
      ensures (State(), mem.cells, r) == ReadRow(old(State()), table.Now().data, old(mem.cells))
    {
      hide ReadFrom, Readable, Built;
      ghost var before := State();
      var _ := table.SetAsChdu();
      if |entries| == 0 {
        return Failure(NoEntries);
      }
      var nrows := table.NumRows();
      if idx > nrows {
        return Success(false);
      }
      var st := ReadEntries();
      if st.Failure? {
        return Failure(st.error);
      }
      if autoAdvance {
        idx := idx + 1;
      }
      return Success(true);
    }

    method ReadEntries() returns (st: Status)
      requires Valid() && table.Ready() && ReadyToRead(State().ds, mem.cells)
      requires table.file.chdu == table.hduNum && entries != [] && idx <= |table.Now().data.rows|
      modifies mem, Buffers()
      ensures if idx < 1 then st == Failure(BadRowNumber) && mem.cells == old(mem.cells)
              else (mem.cells, st) == ReadFrom(State().ds, 0, table.Now().data.rows[idx - 1], old(mem.cells))
    {
      hide Fetch, Decode, Readable, Built;
      ghost var ds, rows := State().ds, table.Now().data.rows;
      var i := 0;
      while i < |entries|
        invariant 0 <= i <= |entries| && ReadyToRead(ds, mem.cells)
        invariant idx < 1 ==> i == 0 && mem.cells == old(mem.cells)
        invariant idx >= 1 ==>
                    ReadFrom(ds, i, rows[idx - 1], mem.cells) == ReadFrom(ds, 0, rows[idx - 1], old(mem.cells))
      {
        ghost var m := mem.cells;
        assert entries[i].d == ds[i] && entries[i].buffer in Buffers();
        st := entries[i].Read(table, idx);
        if st.Failure? {
          return;
        }
        StaysReadable(ds, m, i, Fetch(ds[i], rows[idx - 1]).value);
        i := i + 1;
      }
      st := Success(());
    }

    /** Row::write. */
    method Write() returns (st: Status)
      requires Valid() && table.Ready() && ReadyToWrite(State().ds, mem.cells)
      modifies this`idx, table.file, Buffers()
      ensures Valid() && table.Ready() && table.file.chdu == table.hduNum
      ensures (State(), table.Now().data, st) == WriteRow(old(State()), old(table.Now()).data, mem.cells)
      ensures table.Now().cache == old(table.Now()).cache
      ensures table.file.hdus == WithTable(old(table.file.hdus), table.hduNum, table.Now().data)
    {
      hide WriteFrom, Readable, Writable, Built;
      assert WithTable(table.file.hdus, table.hduNum, table.Now().data) == table.file.hdus;
      var _ := table.SetAsChdu();
      if |entries| == 0 {
        return Failure(NoEntries);
      }
      var _ :- WriteEntries();
      if autoAdvance {
        idx := idx + 1;
      }
      return Success(());
    }

    method WriteEntries() returns (st: Status)
      requires Valid() && table.Ready() && ReadyToWrite(State().ds, mem.cells) && table.file.chdu == table.hduNum
      modifies table.file`hdus, Buffers()
      ensures table.Ready() && table.Now().cache == old(table.Now()).cache
      ensures (table.Now().data, st) == WriteFrom(State().ds, 0, old(table.Now()).data, idx, mem.cells)
      ensures table.file.hdus == WithTable(old(table.file.hdus), table.hduNum, table.Now().data)
    {
      hide WriteOne, Readable, Writable, Built;
      ghost var ds, t0, before := State().ds, table.Now().data, table.file.hdus;
      assert WithTable(before, table.hduNum, t0) == before;
      var i := 0;
      while i < |entries|
        invariant 0 <= i <= |entries| && table.Ready() && table.Now().cache == old(table.Now()).cache
        invariant WriteFrom(ds, i, table.Now().data, idx, mem.cells) == WriteFrom(ds, 0, t0, idx, mem.cells)
        invariant table.file.hdus == WithTable(before, table.hduNum, table.Now().data)
      {
        assert entries[i].d == ds[i] && entries[i].buffer in Buffers();
        st := entries[i].Write(table, idx);
        if st.Failure? {
          return;
        }
        i := i + 1;
      }
      st := Success(());
    }
  }

  /** It does not matter where the address of a field is counted from. */
  lemma SameField(s: TableSpecs.State, name: string, kind: Kind, base: int, offset: int, ds: seq<Desc>, mem: Heap)
    requires base + offset in mem && Typed(kind, mem[base + offset]) && BindableField(s, Field(name, kind, offset))
    ensures BindableField(s, Field(name, kind, base + offset))
    ensures BindOne(s, Field(name, kind, base + offset), 0, ds, mem)
         == BindOne(s, Field(name, kind, offset), base, ds, mem)
  {
  }
}
