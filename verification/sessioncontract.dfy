/** What holds over every run of a session. */
module SessionContracts {
  import opened Results
  import opened Extents
  import opened Columns
  import opened Stores
  import opened TableSpecs
  import opened CopySpecs
  import opened CopyContracts
  import opened CopySuccess
  import opened RowSpecs
  import opened MemBlocks
  import opened Sessions

  // ------------------------------------------------------------------------------------------
  // Moving the file is not observable

  function WithoutMoves(ops: seq<Op>): seq<Op> {
    if ops == [] then []
    else if ops[0].MoveFile? then WithoutMoves(ops[1..])
    else [ops[0]] + WithoutMoves(ops[1..])
  }

  function OtherOutcomes(ops: seq<Op>, os: seq<Outcome>): seq<Outcome>
    requires |os| == |ops|
  {
    if ops == [] then []
    else if ops[0].MoveFile? then OtherOutcomes(ops[1..], os[1..])
    else [os[0]] + OtherOutcomes(ops[1..], os[1..])
  }

  lemma {:induction false} RunLength(h: Handles, s: Sys, ops: seq<Op>)
    requires SysOk(h, s)
    ensures |Run(h, s, ops).1| == |ops| && SysOk(h, Run(h, s, ops).0)
    decreases |ops|
  {
    hide Apply;
    if ops != [] {
      RunLength(h, Apply(h, s, ops[0]).0, ops[1..]);
    }
  }

  /** Wherever the file is moved, and however often, every other call has the outcome it has without any
      move, and the end is the same. */
  lemma {:induction false} MovesUnobservable(h: Handles, s: Sys, ops: seq<Op>)
    requires SysOk(h, s)
    ensures |Run(h, s, ops).1| == |ops|
    ensures Run(h, s, WithoutMoves(ops)) == (Run(h, s, ops).0, OtherOutcomes(ops, Run(h, s, ops).1))
    decreases |ops|
  {
    hide ChangeAt, CopyAt, RowAt, KeyAt, Answer, UsableIn, CopyAllowed, RowAllowed, SysOk;
    RunLength(h, s, ops);
    if ops != [] {
      var (s1, o) := Apply(h, s, ops[0]);
      MovesUnobservable(h, s1, ops[1..]);
      var rest := Run(h, s1, ops[1..]).1;
      assert ([o] + rest)[1..] == rest;
      if !ops[0].MoveFile? {
        assert ([ops[0]] + WithoutMoves(ops[1..]))[1..] == WithoutMoves(ops[1..]);
      }
    }
  }

  // ------------------------------------------------------------------------------------------
  // Calls through one handle do not concern the others

  /** One Table for each HDU. */
  ghost predicate OneEach(h: Handles) {
    && |h.fileOf| == |h.hduOf|
    && forall i, k | 0 <= i < k < |h.hduOf| :: h.fileOf[i] != h.fileOf[k] || h.hduOf[i] != h.hduOf[k]
  }

  /** The table a call may change. */
  function TableOf(h: Handles, op: Op): Option<nat> {
    if IsChange(op) || IsCopy(op) || op.KeyOp? then Some(op.table)
    else if op.WriteOp? && op.row < |h.tableOf| then Some(h.tableOf[op.row])
    else None
  }

  lemma OwnStateSet(h: Handles, s: Sys, i: nat, st: State)
    requires SysOk(h, s) && i < |h.hduOf| && Sound(st.data)
    ensures StateOf(h, WithState(h, s, i, st), i) == st
  {
    hide Legal, HdusSound;
  }

  lemma OtherStateKept(h: Handles, s: Sys, i: nat, st: State, k: nat)
    requires SysOk(h, s) && i < |h.hduOf| && Sound(st.data) && OneEach(h) && k < |h.hduOf| && k != i
    ensures StateOf(h, WithState(h, s, i, st), k) == StateOf(h, s, k)
  {
    hide Legal, HdusSound;
  }

  /** A call changes the state of its own table at most. */
  lemma OthersKept(h: Handles, s: Sys, op: Op, k: nat)
    requires SysOk(h, s) && OneEach(h) && k < |h.hduOf| && TableOf(h, op) != Some(k)
    ensures StateOf(h, Apply(h, s, op).0, k) == StateOf(h, s, k)
  {
    hide Changed, Copied, UsableIn, CopyAllowed, RowAt, KeyAt, Answer, WithState, Legal, HdusSound, IsTable,
         BindAllowed, CanBind, ReadyToRead, ReadyToWrite, Flat;
    if Allowed(h, s, op) {
      if IsChange(op) {
        ChangedState(h, s, op);
        OtherStateKept(h, s, op.table, Changed(StateOf(h, s, op.table), op, h.rules[h.fileOf[op.table]]).0, k);
      } else if IsCopy(op) {
        CopyState(h, s, op);
        OtherStateKept(h, s, op.table, Copied(StateOf(h, s, op.source), StateOf(h, s, op.table), op, h.conv).0, k);
      } else if IsRow(op) {
        RowKeeps(h, s, op, k);
      } else if op.KeyOp? {
        KeyKeeps(h, s, op.table, op.key, op.value, k);
      }
    }
  }

  lemma KeyKeeps(h: Handles, s: Sys, i: nat, key: string, value: string, k: nat)
    requires SysOk(h, s) && i < |h.hduOf| && k < |h.hduOf|
    ensures StateOf(h, KeyAt(h, s, i, key, value), k) == StateOf(h, s, k)
  {
    hide Legal, HdusSound;
  }

  lemma RowKeeps(h: Handles, s: Sys, op: Op, k: nat)
    requires SysOk(h, s) && OneEach(h) && k < |h.hduOf| && IsRow(op) && RowAllowed(h, s, op)
    requires op.WriteOp? ==> h.tableOf[op.row] != k
    ensures StateOf(h, RowAt(h, s, op).0, k) == StateOf(h, s, k)
  {
    hide Legal, HdusSound, ReadRow, WriteRow, BindOne, BindFrom, CanBind, BindAllowed, ReadyToRead, ReadyToWrite, Flat;
  }

  // ------------------------------------------------------------------------------------------
  // The caches over all runs

  lemma {:induction false} WriteFromCols(ds: seq<Desc>, i: nat, t: TableData, idx: int, mem: Heap)
    requires i <= |ds| && ReadyToWrite(ds, mem) && Sound(t)
    ensures WriteFrom(ds, i, t, idx, mem).0.cols == t.cols
    decreases |ds| - i
  {
    hide Put, Encode, Built, Writable;
    if i < |ds| {
      match WriteOne(ds[i], t, idx, mem[ds[i].addr])
      case Failure(_) =>
      case Success(t1) => WriteFromCols(ds, i + 1, t1, idx, mem);
    }
  }

  lemma WriteRowCols(r: RowState, t: TableData, mem: Heap)
    requires ReadyToWrite(r.ds, mem) && Sound(t)
    ensures WriteRow(r, t, mem).1.cols == t.cols
  {
    hide WriteFrom;
    WriteFromCols(r.ds, 0, t, r.idx, mem);
  }

  /** A change of a table is the mutator's, with its outcome. */
  lemma ChangedState(h: Handles, s: Sys, op: Op)
    requires SysOk(h, s) && IsChange(op) && Allowed(h, s, op)
    ensures op.table < |h.hduOf| == |h.fileOf| && h.fileOf[op.table] < |h.rules| && UsableIn(op)
    ensures var (st, o) := Changed(StateOf(h, s, op.table), op, h.rules[h.fileOf[op.table]]);
            StateOf(h, Apply(h, s, op).0, op.table) == st && Apply(h, s, op).1 == Did(o)
  {
    hide Changed, UsableIn, WithState, Legal, HdusSound;
    OwnStateSet(h, s, op.table, Changed(StateOf(h, s, op.table), op, h.rules[h.fileOf[op.table]]).0);
  }

  /** A copy does to its destination what copy_columns does, with its outcome. */
  lemma CopyState(h: Handles, s: Sys, op: Op)
    requires SysOk(h, s) && IsCopy(op) && Allowed(h, s, op)
    ensures op.table < |h.hduOf| && op.source < |h.hduOf| && Legible(StateOf(h, s, op.source))
    ensures var (st, o) := Copied(StateOf(h, s, op.source), StateOf(h, s, op.table), op, h.conv);
            StateOf(h, Apply(h, s, op).0, op.table) == st && Apply(h, s, op).1 == Did(o)
  {
    hide Copied, WithState, Legal, HdusSound;
    OwnStateSet(h, s, op.table, Copied(StateOf(h, s, op.source), StateOf(h, s, op.table), op, h.conv).0);
  }

  lemma KeyState(h: Handles, s: Sys, op: Op)
    requires SysOk(h, s) && op.KeyOp? && Allowed(h, s, op)
    ensures op.table < |h.hduOf| && StateOf(h, Apply(h, s, op).0, op.table) == StateOf(h, s, op.table)
  {
    hide KeyAt;
    KeyKeeps(h, s, op.table, op.key, op.value, op.table);
  }

  lemma WrittenState(h: Handles, s: Sys, op: Op)
    requires SysOk(h, s) && op.WriteOp? && Allowed(h, s, op)
    ensures var i := h.tableOf[op.row];
            var st, st' := StateOf(h, s, i), StateOf(h, Apply(h, s, op).0, i);
            st'.cache == st.cache && st'.data.cols == st.data.cols
  {
    hide WriteRow, Sound, Legal, HdusSound;
    WriteRowCols(s.rows[op.row], StateOf(h, s, h.tableOf[op.row]).data, s.mem);
  }

  lemma NotAllowed(h: Handles, s: Sys, op: Op)
    requires SysOk(h, s) && !Allowed(h, s, op)
    ensures Apply(h, s, op) == (s, Refused)
  {
    hide Allowed;
  }

  // ------------------------------------------------------------------------------------------
  // What one table has been through since its cache was last refreshed

  /** How many columns have been deleted by name, and how many appended by additions that then failed. */
  datatype Tally = Tally(deleted: nat, appended: nat)

  const FRESH := Tally(0, 0)

  /** Resizing refreshes the cache if it takes the shape for a new one. */
  predicate Reshapes(st: State, colnum: int, e: Extent) {
    1 <= colnum <= |st.cache| && !Same(st.cache[colnum - 1].extent, e)
  }

  /** The tally after a mutator with a certain outcome. */
  function Tallied(st: State, op: Op, done: Status, n: Tally): Tally
    requires IsChange(op)
  {
    match op
    case AddOp(_, _) => if done.Success? then FRESH else n.(appended := n.appended + 1)
    case AddColumnOp(_, _, _, _, _) => if done.Success? then FRESH else n.(appended := n.appended + 1)
    case ResizeOp(_, colnum, e) => if done.Success? && Reshapes(st, colnum, e) then FRESH else n
    case ResizeNamedOp(_, name, e) =>
      if done.Success? && Colinfo(st, name).Success? && Reshapes(st, Colinfo(st, name).value.colnum, e) then FRESH
      else n
    case DeleteOp(_, _) => if done.Success? then FRESH else n
    case DeleteNamedOp(_, _) => if done.Success? then n.(deleted := n.deleted + 1) else n
  }

  /** Planning a copy never adds a column. */
  lemma {:induction false} PlanShrinks(s: State, d: State, names: seq<string>, how: Policy, p: Plan)
    requires Sound(d.data) && AllWellFormed(p.created)
    ensures |PlanFrom(s, d, names, how, p).0.data.cols| <= |d.data.cols|
    decreases |names|
  {
    hide CreatedHeader, FindCol, Sound;
    if names != [] {
      var (d1, p1, st) := PlanOne(s, d, names[0], how, p);
      PlanShrinks(s, d1, names[1..], how, p1);
    }
  }

  /** The tally after copying: fresh once planning has succeeded, whatever the copying loop does then; if planning
      fails, the columns that Replace has deleted by then are added. Nothing is done for no names. */
  function TalliedCopy(src: State, st: State, op: Op, n: Tally): Tally
    requires Sound(st.data) && IsCopy(op)
  {
    match NamesOf(src, op)
    case Failure(_) => n
    case Success(names) =>
      PlanShrinks(src, st, names, PolicyOf(op.how), Plan([], []));
      var (st1, _, planned) := PlanFrom(src, st, names, PolicyOf(op.how), Plan([], []));
      if names == [] then n
      else if planned.Success? then FRESH
      else n.(deleted := n.deleted + |st.data.cols| - |st1.data.cols|)
  }

  /** What holds of a table with a tally: it can be refreshed, its cache is in order, differs in length from the
      header by just the tally, and is right if the tally is fresh. */
  ghost predicate Kept(st: State, n: Tally) {
    && Legible(st) && InOrder(st)
    && |st.cache| - |st.data.cols| == n.deleted - n.appended
    && (n == FRESH ==> Coherent(st))
  }

  lemma RefreshedKept(t: TableData)
    requires Sound(t) && Describable(t.cols)
    ensures Kept(Refreshed(t).0, FRESH) && Refreshed(t).1.Success?
  {
    LayoutSize(t.cols);
  }

  lemma AddKept(st: State, ci: ColumnInfo, n: Tally)
    requires Kept(st, n) && Usable(ci.extent)
    ensures var (st', o) := Add(st, ci);
            Kept(st', if o.Success? then FRESH else n.(appended := n.appended + 1))
  {
    hide InsertedHeader, Layout, LayoutStatus, Squeeze, Inserted, WellFormed, ReadTdim, InitExtent, InitBytes;
    var ci' := NumberedInfo(st.data, ci);
    var (t, o) := Inserted(st.data, ci');
    InsertedOutcome(st.data, ci');
    if o.Success? {
      InsertDescribed(st.data.cols, InsertPos(st.data, ci'.colnum), ci');
      RefreshedKept(t);
    } else {
      PlainReads(ci');
      assert forall k | 0 <= k < |t.cols| :: ReadTdim(t.cols[k]).Success?;
    }
  }

  lemma ResizeKept(st: State, colnum: int, e: Extent, rule: SuffixRule, n: Tally)
    requires Kept(st, n) && Usable(e)
    ensures var (st', o) := Resize(st, colnum, e, rule);
            Kept(st', if o.Success? && Reshapes(st, colnum, e) then FRESH else n)
  {
    hide Layout, LayoutStatus, InitExtent, InitBytes, Coherent, ReadTdim, ParseTform, Relength, TdimText, Squeeze,
         CellBytes;
    if Reshapes(st, colnum, e) && colnum <= |st.data.cols| {
      var h := st.data.cols[colnum - 1];
      UsableCount(e);
      ResizedShape(h, e, rule);
      var t := ModifyLength(st.data, colnum, Nelem(e), rule).value;
      var t' := PutTdim(t, colnum - 1, if |Squeeze(e)| == 1 then None else Some(TdimText(e)));
      assert t'.cols == st.data.cols[colnum - 1 := Resized(h, e, rule)];
      RefreshedKept(t');
    }
  }

  lemma DeleteKept(st: State, colnum: int, n: Tally)
    requires Kept(st, n)
    ensures var (st', o) := Delete(st, colnum);
            Kept(st', if o.Success? then FRESH else n)
  {
    hide Layout, LayoutStatus, Coherent;
    if 1 <= colnum <= |st.data.cols| {
      DescribableRemove(st.data.cols, colnum - 1);
      RefreshedKept(DeleteCol(st.data, colnum).value);
    }
  }

  lemma DeleteNamedKept(st: State, name: string, n: Tally)
    requires Kept(st, n)
    ensures var (st', o) := DeleteNamed(st, name);
            Kept(st', if o.Success? then n.(deleted := n.deleted + 1) else n)
  {
    hide Layout, FindCol;
    if Has(st.data.cols, name) && FindCol(st.data.cols, name).value < |st.cache| {
      DescribableRemove(st.data.cols, FindCol(st.data.cols, name).value);
    }
  }

  lemma {:induction false} PlanKept(s: State, d: State, names: seq<string>, how: Policy, p: Plan, n: Tally)
    requires Kept(d, n) && AllWellFormed(p.created)
    ensures |PlanFrom(s, d, names, how, p).0.data.cols| <= |d.data.cols|
    ensures var d' := PlanFrom(s, d, names, how, p).0;
            Kept(d', n.(deleted := n.deleted + |d.data.cols| - |d'.data.cols|))
    decreases |names|
  {
    hide Kept, Sound, PlanOne, DeleteNamed, CreatedHeader, Listed, FindCol, InOrder, Describable;
    KeptFacts(d, n);
    PlanShrinks(s, d, names, how, p);
    if names != [] {
      var (d1, p1, st) := PlanOne(s, d, names[0], how, p);
      PlanOneKept(s, d, names[0], how, p, n);
      if st.Success? {
        PlanShrinks(s, d1, names[1..], how, p1);
        PlanKept(s, d1, names[1..], how, p1, n.(deleted := n.deleted + |d.data.cols| - |d1.data.cols|));
      }
    }
  }

  lemma KeptFacts(d: State, n: Tally)
    requires Kept(d, n)
    ensures Legible(d) && InOrder(d) && Deletable(d, Replace)
  {
  }

  lemma PlanOneKept(s: State, d: State, name: string, how: Policy, p: Plan, n: Tally)
    requires Kept(d, n) && AllWellFormed(p.created)
    ensures var d' := PlanOne(s, d, name, how, p).0;
            |d'.data.cols| <= |d.data.cols| && Kept(d', n.(deleted := n.deleted + |d.data.cols| - |d'.data.cols|))
  {
    hide Kept, Sound, DeleteNamed, CreatedHeader, FindCol, Listed, PlanOne;
    KeptFacts(d, n);
    PlanOneOutcome(s, d, name, how, p);
    DeleteNamedKept(d, name, n);
    DeleteNamedOutcome(d, name);
  }

  /** Once planning has succeeded a copy leaves a table with a right cache. */
  lemma CopiedKept(s: State, d: State, names: seq<string>, how: Policy, ext: Extension, conv: Conversion, n: Tally)
    requires Kept(d, n) && Legible(s) && Legal(conv) && names != []
    requires PlanFrom(s, d, names, how, Plan([], [])).2.Success?
    ensures Kept(CopyColumns(s, d, names, how, ext, conv).0, FRESH)
  {
    hide Kept, PlanFrom, CopyFrom, CopyColumns, Prepared, Layout, Sound, Legal;
    KeptFacts(d, n);
    LoopOf(s, d, names, how, ext, conv);
    var d2 := Prepared(s, d, names, how, ext);
    CopyKeepsLayout(s.data, d2, Sources(s, names), conv);
    CoherentIsKept(CopyColumns(s, d, names, how, ext, conv).0);
  }

  lemma CoherentIsKept(st: State)
    requires Coherent(st)
    ensures Kept(st, FRESH)
  {
    hide Layout;
    CoherentNumbered(st);
  }

  /** From any source, and however it ends, a copy leaves a table with its tally. */
  lemma CopyKept(src: State, st: State, op: Op, conv: Conversion, n: Tally)
    requires Kept(st, n) && Legible(src) && Legal(conv) && IsCopy(op)
    ensures Kept(Copied(src, st, op, conv).0, TalliedCopy(src, st, op, n))
  {
    hide Kept, PlanFrom, CopyFrom, Enlarged, Layout, LayoutStatus, Sound, Legal, PolicyOf, ExtensionOf, AllNames;
    KeptFacts(st, n);
    if NamesOf(src, op).Success? && NamesOf(src, op).value != [] {
      var names := NamesOf(src, op).value;
      PlanKept(src, st, names, PolicyOf(op.how), Plan([], []), n);
      if PlanFrom(src, st, names, PolicyOf(op.how), Plan([], [])).2.Success? {
        CopiedKept(src, st, names, PolicyOf(op.how), ExtensionOf(op.how), conv, n);
      }
    }
  }

  lemma ChangedKept(st: State, op: Op, rule: SuffixRule, n: Tally)
    requires Kept(st, n) && IsChange(op) && UsableIn(op)
    ensures var (st', o) := Changed(st, op, rule);
            Kept(st', Tallied(st, op, o, n))
  {
    hide Kept, Add, Resize, Delete, DeleteNamed, Colinfo, Reshapes, Usable, Sound;
    match op
    case AddOp(_, ci) => AddKept(st, ci, n);
    case AddColumnOp(_, ttype, id, e, colnum) => AddKept(st, UserInfo(ttype, id, e, colnum), n);
    case ResizeOp(_, colnum, e) => ResizeKept(st, colnum, e, rule, n);
    case ResizeNamedOp(_, name, e) =>
      if Colinfo(st, name).Success? {
        ResizeKept(st, Colinfo(st, name).value.colnum, e, rule, n);
      }
    case DeleteOp(_, colnum) => DeleteKept(st, colnum, n);
    case DeleteNamedOp(_, name) => DeleteNamedKept(st, name, n);
  }

  // ------------------------------------------------------------------------------------------
  // All tables over all runs

  /** The tallies of all tables after a call. */
  function TalliedAll(h: Handles, s: Sys, op: Op, ns: seq<Tally>): (r: seq<Tally>)
    requires SysOk(h, s) && |ns| == |h.hduOf|
    ensures |r| == |ns|
  {
    if !Allowed(h, s, op) then ns
    else if IsChange(op) then
      ChangedState(h, s, op);
      ns[op.table := Tallied(StateOf(h, s, op.table), op, Apply(h, s, op).1.st, ns[op.table])]
    else if IsCopy(op) then
      ns[op.table := TalliedCopy(StateOf(h, s, op.source), StateOf(h, s, op.table), op, ns[op.table])]
    else ns
  }

  /** The tallies after a run. */
  function TalliedRun(h: Handles, s: Sys, ops: seq<Op>, ns: seq<Tally>): (r: seq<Tally>)
    requires SysOk(h, s) && |ns| == |h.hduOf|
    ensures |r| == |ns|
    decreases |ops|
  {
    if ops == [] then ns else TalliedRun(h, Apply(h, s, ops[0]).0, ops[1..], TalliedAll(h, s, ops[0], ns))
  }

  ghost predicate AllKept(h: Handles, s: Sys, ns: seq<Tally>) {
    SysOk(h, s) && |ns| == |h.hduOf| && forall i | 0 <= i < |ns| :: Kept(StateOf(h, s, i), ns[i])
  }

  lemma {:induction false} ApplyKept(h: Handles, s: Sys, op: Op, ns: seq<Tally>)
    requires OneEach(h) && AllKept(h, s, ns)
    ensures AllKept(h, Apply(h, s, op).0, TalliedAll(h, s, op, ns))
  {
    hide Apply, Kept, Allowed, Changed, Copied, Tallied, TalliedCopy, UsableIn, Legal;
    var s', ns' := Apply(h, s, op).0, TalliedAll(h, s, op, ns);
    forall k | 0 <= k < |ns|
      ensures Kept(StateOf(h, s', k), ns'[k])
    {
      if TableOf(h, op) != Some(k) {
        OthersKept(h, s, op, k);
      } else if !Allowed(h, s, op) {
        NotAllowed(h, s, op);
      } else if IsChange(op) {
        ChangedState(h, s, op);
        ChangedKept(StateOf(h, s, k), op, h.rules[h.fileOf[k]], ns[k]);
      } else if IsCopy(op) {
        CopyState(h, s, op);
        CopyKept(StateOf(h, s, op.source), StateOf(h, s, k), op, h.conv, ns[k]);
      } else if op.KeyOp? {
        KeyState(h, s, op);
      } else {
        WrittenState(h, s, op);
        SameHeaderKept(StateOf(h, s, k), StateOf(h, s', k), ns[k]);
      }
    }
  }

  lemma SameHeaderKept(a: State, b: State, n: Tally)
    requires Kept(a, n) && Sound(b.data) && b.cache == a.cache && b.data.cols == a.data.cols
    ensures Kept(b, n)
  {
    hide Layout;
  }

  lemma {:induction false} RunKept(h: Handles, s: Sys, ops: seq<Op>, ns: seq<Tally>)
    requires OneEach(h) && AllKept(h, s, ns)
    ensures AllKept(h, Run(h, s, ops).0, TalliedRun(h, s, ops, ns))
    decreases |ops|
  {
    hide Apply, TalliedAll, Kept, SysOk;
    if ops != [] {
      ApplyKept(h, s, ops[0], ns);
      RunKept(h, Apply(h, s, ops[0]).0, ops[1..], TalliedAll(h, s, ops[0], ns));
    }
  }

  ghost predicate AllCoherent(h: Handles, s: Sys) {
    SysOk(h, s) && forall i | 0 <= i < |h.hduOf| :: Coherent(StateOf(h, s, i))
  }

  /** What is left of coherence when columns are deleted by name. */
  ghost predicate Tidy(s: State) {
    Legible(s) && Numbered(s)
  }

  ghost predicate AllTidy(h: Handles, s: Sys) {
    SysOk(h, s) && forall i | 0 <= i < |h.hduOf| :: Tidy(StateOf(h, s, i))
  }

  /** A new tally for each table. */
  function AllFresh(h: Handles): seq<Tally> {
    seq(|h.hduOf|, _ => FRESH)
  }

  lemma CoherentKept(h: Handles, s: Sys)
    requires AllCoherent(h, s)
    ensures AllKept(h, s, AllFresh(h))
  {
    hide Layout, SysOk;
    forall i | 0 <= i < |h.hduOf|
      ensures Kept(StateOf(h, s, i), FRESH)
    {
      CoherentNumbered(StateOf(h, s, i));
    }
  }

  /** Over every run, whatever its calls: each table can be refreshed and copied at the end, and its entries are in
      order, so that a deletion by name removes no other column. Its cache equals its header if no column has been
      deleted by name, no addition and no planning of a copy has failed leaving something behind since the cache
      was last refreshed, and if not both columns have been deleted and additions have failed, only then. It has
      an entry for each column, so that no deletion by name fails for the lack of one, if and only if no more
      additions have failed than columns have been deleted. */
  lemma RunExact(h: Handles, s: Sys, ops: seq<Op>, i: nat)
    requires OneEach(h) && AllCoherent(h, s) && i < |h.hduOf|
    ensures SysOk(h, Run(h, s, ops).0)
    ensures var n, st := TalliedRun(h, s, ops, AllFresh(h))[i], StateOf(h, Run(h, s, ops).0, i);
            && Legible(st) && InOrder(st)
            && (n == FRESH ==> Coherent(st))
            && (n.deleted != n.appended ==> !Coherent(st))
            && (n.deleted == 0 || n.appended == 0 ==> (Coherent(st) <==> n == FRESH))
            && (Tidy(st) <==> n.deleted >= n.appended)
  {
    hide Run, TalliedRun, Layout, SysOk;
    CoherentKept(h, s);
    RunKept(h, s, ops, AllFresh(h));
    var st := StateOf(h, Run(h, s, ops).0, i);
    if Coherent(st) {
      CoherentNumbered(st);
    }
  }

  predicate IsAdd(op: Op) {
    op.AddOp? || op.AddColumnOp?
  }

  /** No addition has failed. */
  predicate AddsSucceed(ops: seq<Op>, os: seq<Outcome>)
    requires |os| == |ops|
  {
    forall k | 0 <= k < |ops| && IsAdd(ops[k]) :: os[k].Did? ==> os[k].st.Success?
  }

  /** Nothing has been deleted by name, and no copy has failed. */
  predicate NoneDeletedByName(ops: seq<Op>, os: seq<Outcome>)
    requires |os| == |ops|
  {
    forall k | 0 <= k < |ops| :: Deletionless(ops[k], os[k])
  }

  predicate Deletionless(op: Op, o: Outcome) {
    && (op.DeleteNamedOp? && o.Did? ==> o.st.Failure?)
    && (IsCopy(op) && o.Did? ==> o.st.Success?)
  }

  /** Tallies of tables on which no addition has failed. */
  predicate NoneAppended(ns: seq<Tally>) {
    forall i | 0 <= i < |ns| :: ns[i].appended == 0
  }

  predicate NoneDeleted(ns: seq<Tally>) {
    forall i | 0 <= i < |ns| :: ns[i].deleted == 0
  }

  lemma ApplyTallies(h: Handles, s: Sys, op: Op, ns: seq<Tally>)
    requires SysOk(h, s) && |ns| == |h.hduOf|
    requires var o := Apply(h, s, op).1; IsAdd(op) && o.Did? ==> o.st.Success?
    ensures NoneAppended(ns) ==> NoneAppended(TalliedAll(h, s, op, ns))
    ensures Deletionless(op, Apply(h, s, op).1) && NoneDeleted(ns) ==> NoneDeleted(TalliedAll(h, s, op, ns))
  {
    hide Apply, Allowed, Changed, Copied, UsableIn, Colinfo, Reshapes, TalliedCopy, Legal;
    if Allowed(h, s, op) {
      if IsChange(op) {
        ChangedState(h, s, op);
      } else if IsCopy(op) {
        CopyState(h, s, op);
        CopyTally(StateOf(h, s, op.source), StateOf(h, s, op.table), op, h.conv, ns[op.table]);
      }
    }
  }

  lemma CopyTally(src: State, st: State, op: Op, conv: Conversion, n: Tally)
    requires Legible(src) && Sound(st.data) && Legal(conv) && IsCopy(op)
    ensures n.appended == 0 ==> TalliedCopy(src, st, op, n).appended == 0
    ensures n.deleted == 0 && Copied(src, st, op, conv).1.Success? ==> TalliedCopy(src, st, op, n).deleted == 0
  {
    hide PlanFrom, CopyFrom, Enlarged, Layout, LayoutStatus, Sound, Legal, PolicyOf, ExtensionOf, AllNames;
  }

  lemma {:induction false} RunTallies(h: Handles, s: Sys, ops: seq<Op>, ns: seq<Tally>)
    requires SysOk(h, s) && |ns| == |h.hduOf| && NoneAppended(ns)
    requires |Run(h, s, ops).1| == |ops| && AddsSucceed(ops, Run(h, s, ops).1)
    ensures NoneAppended(TalliedRun(h, s, ops, ns))
    ensures NoneDeletedByName(ops, Run(h, s, ops).1) && NoneDeleted(ns) ==> NoneDeleted(TalliedRun(h, s, ops, ns))
    decreases |ops|
  {
    hide Apply, TalliedAll, SysOk, NoneAppended, NoneDeleted;
    if ops != [] {
      var (s1, o) := Apply(h, s, ops[0]);
      var os := Run(h, s, ops).1;
      var rest := Run(h, s1, ops[1..]).1;
      RunLength(h, s1, ops[1..]);
      assert os == [o] + rest && os[0] == o;
      assert forall k | 0 <= k < |rest| :: rest[k] == os[k + 1] && ops[1..][k] == ops[k + 1];
      ApplyTallies(h, s, ops[0], ns);
      RunTallies(h, s1, ops[1..], TalliedAll(h, s, ops[0], ns));
    }
  }

  /** Over every run, with copies, in which no addition and no copy fails and nothing is deleted by name, every
      cache stays equal to its header. */
  lemma RunCoherent(h: Handles, s: Sys, ops: seq<Op>)
    requires OneEach(h) && AllCoherent(h, s)
    ensures |Run(h, s, ops).1| == |ops|
    ensures AddsSucceed(ops, Run(h, s, ops).1) && NoneDeletedByName(ops, Run(h, s, ops).1) ==>
              AllCoherent(h, Run(h, s, ops).0)
  {
    hide Run, TalliedRun, Coherent, AddsSucceed, NoneDeletedByName, SysOk;
    RunLength(h, s, ops);
    if AddsSucceed(ops, Run(h, s, ops).1) && NoneDeletedByName(ops, Run(h, s, ops).1) {
      RunTallies(h, s, ops, AllFresh(h));
      forall i | 0 <= i < |h.hduOf|
        ensures Coherent(StateOf(h, Run(h, s, ops).0, i))
      {
        RunExact(h, s, ops, i);
        assert TalliedRun(h, s, ops, AllFresh(h))[i] == FRESH;
      }
    }
  }

  /** Over every run, with copies that succeed or fail, in which no addition fails, every cache stays numbered and
      long enough, so that each deletion by name removes the column of that name. */
  lemma RunTidy(h: Handles, s: Sys, ops: seq<Op>)
    requires OneEach(h) && AllCoherent(h, s)
    ensures |Run(h, s, ops).1| == |ops|
    ensures AddsSucceed(ops, Run(h, s, ops).1) ==> AllTidy(h, Run(h, s, ops).0)
  {
    hide Run, TalliedRun, Coherent, AddsSucceed, Tidy, SysOk;
    RunLength(h, s, ops);
    if AddsSucceed(ops, Run(h, s, ops).1) {
      RunTallies(h, s, ops, AllFresh(h));
      forall i | 0 <= i < |h.hduOf|
        ensures Tidy(StateOf(h, Run(h, s, ops).0, i))
      {
        RunExact(h, s, ops, i);
      }
    }
  }

  // ------------------------------------------------------------------------------------------

  /** A deletion by name and a failed addition can make up for each other: when the last column is deleted by
      its name and the failed addition appends one with the same header, the cache is right again, though it
      has not been refreshed. */
  lemma StaleButRight(st: State, name: string, ci: ColumnInfo)
    requires Coherent(st) && Usable(ci.extent) && |Squeeze(ci.extent)| > 1 && ci.colnum > |st.data.cols|
    requires Has(st.data.cols, name) && FindCol(st.data.cols, name).value == |st.data.cols| - 1
    requires st.data.cols[|st.data.cols| - 1] == PlainHeader(ci)
    ensures var deleted := DeleteNamed(st, name).0;
            Add(deleted, ci).1.Failure? && Coherent(Add(deleted, ci).0) && Add(deleted, ci).0.cache == st.cache
  {
    hide Layout, Squeeze, PlainHeader, InsertedHeader, FindCol, Inserted, DeleteNamed;
    CoherentNumbered(st);
    DeleteNamedOutcome(st, name);
    var deleted := DeleteNamed(st, name).0;
    InsertedOutcome(deleted.data, ci);
    assert Add(deleted, ci).0.data.cols == st.data.cols;
  }
}
