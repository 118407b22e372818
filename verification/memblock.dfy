/** Descriptions of structs in memory, possibly nested: misfits/memblock.hpp and misfits/memblock.cc. */
module MemBlocks {
  import opened Results
  import opened Extents
  import opened Columns
  import opened TableSpecs
  import opened RowSpecs

  /** A column name, the kind of the object for it, and where the object lies from some base. */
  datatype Field = Field(name: string, kind: Kind, offset: int)

  class BlockEntry {
    const name: string
    const kind: Kind
    var offset: int

    constructor (name: string, kind: Kind, offset: int)
      ensures this.name == name && this.kind == kind && this.offset == offset
    {
      this.name, this.kind, this.offset := name, kind, offset;
    }

    method Clone() returns (e: BlockEntry)
      ensures fresh(e) && e.name == name && e.kind == kind && e.offset == offset
    {
      e := new BlockEntry(name, kind, offset);
    }
  }

  function View(es: seq<BlockEntry>): (fs: seq<Field>)
    reads es
    ensures |fs| == |es|
    ensures forall i | 0 <= i < |es| :: fs[i] == Field(es[i].name, es[i].kind, es[i].offset)
  {
    if es == [] then [] else [Field(es[0].name, es[0].kind, es[0].offset)] + View(es[1..])
  }

  function Shift(fs: seq<Field>, delta: int): (r: seq<Field>)
    ensures |r| == |fs|
    ensures forall i | 0 <= i < |fs| :: r[i] == fs[i].(offset := fs[i].offset + delta)
  {
    seq(|fs|, i requires 0 <= i < |fs| => fs[i].(offset := fs[i].offset + delta))
  }

  class MemBlock {
    const base: int
    var entries: seq<BlockEntry>

    constructor (base: int)
      ensures this.base == base && entries == []
    {
      this.base, entries := base, [];
    }

    ghost function Fields(): seq<Field>
      reads this, entries
    {
      View(entries)
    }

    /** MemBlockOffset::add of a field. */
    method AddField(name: string, kind: Kind, offset: int)
      modifies this
      ensures Fields() == old(Fields()) + [Field(name, kind, offset)]
    {
      var entry := new BlockEntry(name, kind, offset);
      ViewAppend(entries, entry);
      entries := entries + [entry];
    }

    /** MemBlockAddr::add of a field: the offset is taken from the block's base address. */
    method AddAddress(name: string, kind: Kind, addr: int)
      modifies this
      ensures Fields() == old(Fields()) + [Field(name, kind, addr - base)]
    {
      AddField(name, kind, addr - base);
    }

    /** MemBlock::add of another block: its entries are cloned and moved, so it keeps its own. */
    method AddBlock(offset: int, block: MemBlock)
      requires block != this
      modifies this
      ensures Fields() == old(Fields()) + Shift(old(block.Fields()), offset)
      ensures block.Fields() == old(block.Fields())
    {
      hide View, Shift;
      ghost var mine, inner := Fields(), block.Fields();
      ghost var theirs := Shift(inner, offset);
      var k := 0;
      assert theirs[0..] == theirs;
      while k < |block.entries|
        invariant 0 <= k <= |block.entries| == |theirs| && block.Fields() == inner
        invariant Fields() + theirs[k..] == mine + theirs
      {
        TakeOne(Fields(), theirs, k);
        PushClone(block.entries[k], offset);
        k := k + 1;
      }
      assert Fields() + [] == Fields();
    }

    /** The body of that loop. */
    method PushClone(entry: BlockEntry, offset: int)
      modifies this
      ensures Fields() == old(Fields()) + [Field(entry.name, entry.kind, entry.offset + offset)]
    {
      var newEntry := entry.Clone();
      newEntry.offset := newEntry.offset + offset;
      ViewAppend(entries, newEntry);
      entries := entries + [newEntry];
    }
  }

  lemma TakeOne<T>(a: seq<T>, b: seq<T>, k: nat)
    requires k < |b|
    ensures a + b[k..] == a + [b[k]] + b[k + 1..]
  {
  }

  lemma ViewAppend(es: seq<BlockEntry>, e: BlockEntry)
    ensures View(es + [e]) == View(es) + [Field(e.name, e.kind, e.offset)]
  {
  }

  // ------------------------------------------------------------------------------------------

  /** A nested struct description. */
  datatype Item = Leaf(name: string, kind: Kind, offset: int) | Sub(offset: int, items: seq<Item>)

  /** The entries of the block that is built from it by nested add calls. */
  function Flat(items: seq<Item>): seq<Field> {
    if items == [] then [] else FlatItem(items[0]) + Flat(items[1..])
  }

  function FlatItem(item: Item): seq<Field> {
    match item
    case Leaf(name, kind, offset) => [Field(name, kind, offset)]
    case Sub(offset, inner) => Shift(Flat(inner), offset)
  }

  /** Each leaf at `base` plus the sum of the offsets on its path, in order. */
  function Paths(items: seq<Item>, base: int): seq<Field> {
    if items == [] then []
    else
      (match items[0]
       case Leaf(name, kind, offset) => [Field(name, kind, base + offset)]
       case Sub(offset, inner) => Paths(inner, base + offset)) + Paths(items[1..], base)
  }

  lemma ShiftConcat(a: seq<Field>, b: seq<Field>, delta: int)
    ensures Shift(a + b, delta) == Shift(a, delta) + Shift(b, delta)
  {
  }

  lemma ShiftNone(delta: int)
    ensures Shift([], delta) == []
  {
  }

  lemma ShiftOne(f: Field, delta: int)
    ensures Shift([f], delta) == [f.(offset := f.offset + delta)]
  {
  }

  lemma ShiftTwice(fs: seq<Field>, a: int, b: int)
    ensures Shift(Shift(fs, a), b) == Shift(fs, a + b)
  {
  }

  /** Whatever the nesting, a block binds each leaf at the sum of the offsets on its path. */
  lemma {:induction false} NestingSums(items: seq<Item>, base: int)
    ensures Shift(Flat(items), base) == Paths(items, base)
  {
    hide Shift;
    ShiftNone(base);
    if items != [] {
      NestingSums(items[1..], base);
      match items[0] {
        case Leaf(name, kind, offset) =>
          ShiftOne(Field(name, kind, offset), base);
          ShiftConcat([Field(name, kind, offset)], Flat(items[1..]), base);
        case Sub(offset, inner) =>
          NestingSums(inner, base + offset);
          ShiftTwice(Flat(inner), offset, base);
          ShiftConcat(Shift(Flat(inner), offset), Flat(items[1..]), base);
      }
    }
  }

  /** Nested add calls: each inner block is built on its own and then added at its offset. */
  method Build(items: seq<Item>, base: int) returns (block: MemBlock)
    ensures fresh(block) && block.base == base && block.Fields() == Flat(items)
    decreases items
  {
    block := new MemBlock(base);
    var k := 0;
    assert items[0..] == items;
    while k < |items|
      invariant 0 <= k <= |items|
      invariant block.Fields() + Flat(items[k..]) == Flat(items)
    {
      FlatStep(items, k, block.Fields());
      match items[k] {
        case Leaf(name, kind, offset) =>
          block.AddField(name, kind, offset);
        case Sub(offset, inner) =>
          var sub := Build(inner, 0);
          block.AddBlock(offset, sub);
      }
      k := k + 1;
    }
    assert block.Fields() + [] == block.Fields();
  }

  lemma FlatStep(items: seq<Item>, k: nat, done: seq<Field>)
    requires k < |items|
    ensures done + Flat(items[k..]) == done + FlatItem(items[k]) + Flat(items[k + 1..])
  {
    hide Shift;
    assert items[k..][0] == items[k] && items[k..][1..] == items[k + 1..];
    assert Flat(items[k..]) == FlatItem(items[k]) + Flat(items[k + 1..]);
  }

  // ------------------------------------------------------------------------------------------
  // Row::add of a block

  /** One field added to a Row: its columns, memory, and how it ended. */
  function BindOne(s: State, f: Field, base: int, ds: seq<Desc>, mem: Heap): (r: (seq<Desc>, Heap, Status))
    requires base + f.offset in mem && Typed(f.kind, mem[base + f.offset]) && BindableField(s, f)
    ensures r.1.Keys == mem.Keys
    ensures forall a | a in mem && a != base + f.offset :: r.1[a] == mem[a]
    ensures Typed(f.kind, r.1[base + f.offset])
  {
    var a := base + f.offset;
    match Colinfo(s, f.name)
    case Failure(e) => (ds, mem, Failure(e))
    case Success(ci) =>
      match Bind(f.kind, ci, a)
      case Failure(e) => (ds, mem[a := Rejected(f.kind, ci, mem[a])], Failure(e))
      case Success(d) => (ds + [d], mem[a := Prepare(d, mem[a])], Success(()))
  }

  /** The columns added to a Row for the fields from i on, and memory, up to the first failure. */
  function BindFrom(s: State, fs: seq<Field>, i: nat, base: int, ds: seq<Desc>, mem: Heap): (seq<Desc>, Heap, Status)
    requires i <= |fs| && CanBind(s, fs, base, mem)
    decreases |fs| - i
  {
    if i == |fs| then (ds, mem, Success(()))
    else
      StaysBindable(s, fs, i, base, ds, mem);
      var (ds1, mem1, st) := BindOne(s, fs[i], base, ds, mem);
      if st.Failure? then (ds1, mem1, st) else BindFrom(s, fs, i + 1, base, ds1, mem1)
  }

  /** Binding one field does not stop the others from being bound. */
  lemma StaysBindable(s: State, fs: seq<Field>, i: nat, base: int, ds: seq<Desc>, mem: Heap)
    requires i < |fs| && CanBind(s, fs, base, mem)
    ensures CanBind(s, fs, base, BindOne(s, fs[i], base, ds, mem).1)
  {
    hide BindOne, BindableField;
  }

  /** Every field lies on an object of its kind, and its column moves without conversion. */
  predicate CanBind(s: State, fs: seq<Field>, base: int, mem: Heap) {
    forall i | 0 <= i < |fs| ::
      && base + fs[i].offset in mem && Typed(fs[i].kind, mem[base + fs[i].offset])
      && BindableField(s, fs[i])
  }

  predicate BindableField(s: State, f: Field) {
    var ci := Colinfo(s, f.name);
    ci.Success? ==> Described(ci.value) && Direct(f.kind, ci.value.id)
  }

  /** Entry::column. */
  function BindField(s: State, f: Field, base: int): (r: Result<Desc>)
    requires BindableField(s, f)
    ensures r.Success? ==> r.value.kind == f.kind && r.value.addr == base + f.offset
  {
    match Colinfo(s, f.name)
    case Failure(e) => Failure(e)
    case Success(ci) => Bind(f.kind, ci, base + f.offset)
  }

  /** The field is one that a column can be bound to. */
  predicate Binds(s: State, f: Field, base: int) {
    BindableField(s, f) && BindField(s, f, base).Success?
  }

  lemma BindOneOutcome(s: State, f: Field, base: int, ds: seq<Desc>, mem: Heap)
    requires base + f.offset in mem && Typed(f.kind, mem[base + f.offset]) && BindableField(s, f)
    ensures var (ds', _, st) := BindOne(s, f, base, ds, mem);
            && (st.Success? <==> BindField(s, f, base).Success?)
            && ds' == if st.Success? then ds + [BindField(s, f, base).value] else ds
  {
  }

  /** On success the Row has one more column for each field, in order, each at its own address. */
  lemma {:induction false} BindFromAll(s: State, fs: seq<Field>, i: nat, base: int, ds: seq<Desc>, mem: Heap)
    requires i <= |fs| && CanBind(s, fs, base, mem) && BindFrom(s, fs, i, base, ds, mem).2.Success?
    ensures var ds' := BindFrom(s, fs, i, base, ds, mem).0;
            && |ds'| == |ds| + |fs| - i && ds'[..|ds|] == ds
            && forall k | i <= k < |fs| :: Success(ds'[|ds| + k - i]) == BindField(s, fs[k], base)
    decreases |fs| - i
  {
    hide BindOne, BindableField, BindField;
    if i < |fs| {
      StaysBindable(s, fs, i, base, ds, mem);
      BindOneOutcome(s, fs[i], base, ds, mem);
      var d := BindField(s, fs[i], base).value;
      var mem' := BindOne(s, fs[i], base, ds, mem).1;
      BindFromAll(s, fs, i + 1, base, ds + [d], mem');
      var ds' := BindFrom(s, fs, i + 1, base, ds + [d], mem').0;
      assert ds'[..|ds|] == ds'[..|ds| + 1][..|ds|] && ds'[|ds|] == ds'[..|ds| + 1][|ds|];
    }
  }

  /** At the first field that cannot be bound the call stops: the Row has got columns for the fields in front of it, as
      they would have been bound on their own, and for no others; and of the other objects none but the field's own is
      touched. */
  lemma {:induction false} BindStops(s: State, fs: seq<Field>, i: nat, m: nat, base: int, ds: seq<Desc>, mem: Heap)
    requires i <= m < |fs| && CanBind(s, fs, base, mem) && !Binds(s, fs[m], base)
    requires forall j | i <= j < m :: Binds(s, fs[j], base)
    ensures CanBind(s, fs[..m], base, mem) && BindFrom(s, fs[..m], i, base, ds, mem).2.Success?
    ensures BindFrom(s, fs, i, base, ds, mem).2.Failure?
    ensures BindFrom(s, fs, i, base, ds, mem).0 == BindFrom(s, fs[..m], i, base, ds, mem).0
    ensures SameBut(BindFrom(s, fs[..m], i, base, ds, mem).1, BindFrom(s, fs, i, base, ds, mem).1, base + fs[m].offset)
    decreases m - i
  {
    hide BindOne, BindableField, BindField;
    assert forall j | 0 <= j < m :: fs[..m][j] == fs[j];
    BindOneOutcome(s, fs[i], base, ds, mem);
    if i < m {
      StaysBindable(s, fs, i, base, ds, mem);
      var (ds1, mem1, _) := BindOne(s, fs[i], base, ds, mem);
      BindStops(s, fs, i + 1, m, base, ds1, mem1);
    }
  }

  predicate SameBut(a: Heap, b: Heap, addr: int) {
    a.Keys == b.Keys && forall k | k in a && k != addr :: a[k] == b[k]
  }

  /** A BitSet bound to a column of numbers: the constructor throws, and the BitSet has been resized. */
  lemma BitSetRefused(s: State, f: Field, base: int, ds: seq<Desc>, mem: Heap)
    requires base + f.offset in mem && Typed(f.kind, mem[base + f.offset]) && BindableField(s, f)
    requires f.kind == KBits && Colinfo(s, f.name).Success? && Colinfo(s, f.name).value.id == TLong
    ensures var (ds', mem', st) := BindOne(s, f, base, ds, mem);
            && st == Failure(WrongType) && ds' == ds
            && mem'[base + f.offset].VBits?
            && mem'[base + f.offset].b.size == Nelem(Colinfo(s, f.name).value.extent)
  {
  }

  /** A Row to which a nested block is added gets one column for each leaf, in order, of the leaf's kind, bound
      at the base plus the offsets on the leaf's path. */
  lemma NestedBinding(s: State, items: seq<Item>, base: int, ds: seq<Desc>, mem: Heap)
    requires CanBind(s, Flat(items), base, mem) && BindFrom(s, Flat(items), 0, base, ds, mem).2.Success?
    ensures var ds', leaves := BindFrom(s, Flat(items), 0, base, ds, mem).0, Paths(items, base);
            && |ds'| == |ds| + |leaves| && ds'[..|ds|] == ds
            && forall k | 0 <= k < |leaves| ::
                 && ds'[|ds| + k].kind == leaves[k].kind
                 && ds'[|ds| + k].addr == leaves[k].offset
                 && Colinfo(s, leaves[k].name).Success?
                 && ds'[|ds| + k].colnum == Colinfo(s, leaves[k].name).value.colnum
  {
    hide Colinfo, Prepare, BindFrom, Flat, Paths;
    var fs, leaves := Flat(items), Paths(items, base);
    NestingSums(items, base);
    BindFromAll(s, fs, 0, base, ds, mem);
    var ds' := BindFrom(s, fs, 0, base, ds, mem).0;
    forall k | 0 <= k < |leaves|
      ensures ds'[|ds| + k].kind == leaves[k].kind && ds'[|ds| + k].addr == leaves[k].offset
      ensures Colinfo(s, leaves[k].name).Success?
      ensures ds'[|ds| + k].colnum == Colinfo(s, leaves[k].name).value.colnum
    {
      assert leaves[k] == Shift(fs, base)[k];
      assert Success(ds'[|ds| + k - 0]) == BindField(s, fs[k], base);
    }
  }
}
