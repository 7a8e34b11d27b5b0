/** What holds over every run of the allocator and the page tables. */
module Runs {
  import opened Words
  import opened Wrappers
  import opened PageTables
  import opened TableStores
  import opened Kernel

  datatype Op =
    | AllocOp
    | KallocOp(size: u64)
    | FreeOp(frame: nat)
    | MapOp(va: u64, pa: u64, flags: u64)
    | UnmapOp(va: u64)
    | WriteOp(frame: nat, word: nat, value: u64)

  function Step(s: State, op: Op): (r: State) {
    match op
    case AllocOp => Palloc(s).0
    case KallocOp(size) => Kalloc(s, size).0
    case FreeOp(f) => Kfree(s, f)
    case MapOp(va, pa, flags) => Mmap(s, va, pa, flags)
    case UnmapOp(va) => Unmap(s, va)
    case WriteOp(f, w, x) => Write(s, f, w, x)
  }

  /** What the code demands of its callers: free and write only pages you hold, map only
      while the pool has the tables needed, and stay out of large pages. */
  predicate Allowed(s: State, op: Op) {
    match op
    case AllocOp => true
    case KallocOp(_) => true
    case FreeOp(f) => f in s.owned
    case MapOp(va, _, _) => NotLarge(s, va) && Room(s, Missing(s, va))
    case UnmapOp(va) => NotLarge(s, va)
    case WriteOp(f, w, _) => f in s.owned && w < 512
  }

  function Exec(s: State, ops: seq<Op>): (r: State) {
    if ops == [] then s else Step(Exec(s, ops[..|ops| - 1]), ops[|ops| - 1])
  }

  predicate AllowedRun(s: State, ops: seq<Op>) {
    ops == [] || (AllowedRun(s, ops[..|ops| - 1]) && Allowed(Exec(s, ops[..|ops| - 1]), ops[|ops| - 1]))
  }

  /** The meaning of mmap and unmap for one address, with no tables in sight. */
  function Effect(op: Op, va: u64, x: Xlat): (r: Xlat) {
    match op
    case MapOp(v, pa, flags) => if Vpn(v) == Vpn(va) then Mapped(3, LeafEntry(pa, flags)) else x
    case UnmapOp(v) => if Vpn(v) == Vpn(va) then Fault else x
    case _ => x
  }

  predicate Touches(op: Op, va: u64) {
    (op.MapOp? || op.UnmapOp?) && Vpn(op.va) == Vpn(va)
  }

  /** The flat map: the last operation on va's page decides. */
  function LastWriter(ops: seq<Op>, va: u64, x: Xlat): (r: Xlat) {
    if ops == [] then x
    else if Touches(ops[|ops| - 1], va) then Effect(ops[|ops| - 1], va, x)
    else LastWriter(ops[..|ops| - 1], va, x)
  }

  // ----- One step --------------------------------------------------------------------

  lemma PallocOwned(s: State)
    requires Owned(s)
    ensures Owned(Palloc(s).0)
    ensures Palloc(s).1.Some? ==> var f := Palloc(s).1.value; f !in s.owned && f !in s.tree.level
    ensures Palloc(s).1.None? <==> |s.used| == s.n
  {
    FullIff(s);
    var (s', r) := Palloc(s);
    if r.Some? {
      assert r.value in s.tree.level ==> r.value in TablePages(s);
      assert TablePages(s') == TablePages(s);
    }
  }

  /** palloc hands out the least free page, which nobody has, and fails only when the pool
      is full; memory and translations stay as they are. */
  lemma PallocKeeps(s: State)
    requires Inv(s)
    ensures var (s', r) := Palloc(s);
      && Inv(s') && (forall va :: Translate(s', va) == Translate(s, va)) && CallersUntouched(s, s')
      && (r.None? <==> |s.used| == s.n)
      && (r.Some? ==> s.base <= r.value < s.End() && r.value !in s.owned && r.value !in s.tree.level &&
                      forall f :: s.base <= f < r.value ==> f in s.used)
  {
    PallocOwned(s);
  }

  /** s' is s but for page f, the least free one of the pool, which a caller now has. */
  predicate Takes(s: State, s': State, f: nat) {
    && s.base <= f < s.End() && f !in s.used && (forall g :: s.base <= g < f ==> g in s.used)
    && s' == s.(used := s.used + {f}, owned := s.owned + {f})
  }

  /** palloc gives a page unless the pool is full; kalloc does unless the pool is full or
      nothing was asked for. Failing, neither changes anything. */
  lemma AllocationTakes(s: State, size: u64)
    requires Inv(s)
    ensures Palloc(s).1.None? <==> |s.used| == s.n
    ensures Kalloc(s, size).1.None? <==> size == 0 || |s.used| == s.n
    ensures Palloc(s).1.Some? ==> Takes(s, Palloc(s).0, Palloc(s).1.value)
    ensures Kalloc(s, size).1.Some? ==> Takes(s, Kalloc(s, size).0, Kalloc(s, size).1.value)
    ensures Palloc(s).1.None? ==> Palloc(s).0 == s
    ensures Kalloc(s, size).1.None? ==> Kalloc(s, size).0 == s
  {
    FullIff(s);
  }

  lemma OwnedStore(s: State, ram': seq<u64>, f: nat)
    requires Inv(s) && f in s.owned && |ram'| == |s.ram|
    requires forall g, w :: g != f && 0 <= w < 512 ==> Entry(ram', g, w) == Entry(s.ram, g, w)
    ensures Inv(s.(ram := ram')) && forall va :: Translate(s.(ram := ram'), va) == Translate(s, va)
  {
    assert f in s.tree.level ==> f in TablePages(s);
    OutsideTables(s.ram, ram', s.tree);
    assert TablePages(s.(ram := ram')) == TablePages(s);
    forall va: u64 ensures Translate(s.(ram := ram'), va) == Translate(s, va) {
      OutsideTablesWalk(s.ram, ram', s.tree, va);
    }
  }

  /** A caller's stores into its own page change no translation. */
  lemma WriteKeeps(s: State, f: nat, w: nat, x: u64)
    requires Inv(s) && f in s.owned && w < 512
    ensures var s' := Write(s, f, w, x);
      && Inv(s') && (forall va :: Translate(s', va) == Translate(s, va))
      && forall g, v :: g != f && 0 <= v < 512 ==> Entry(s'.ram, g, v) == Entry(s.ram, g, v)
  {
    var s' := Write(s, f, w, x);
    forall g: nat, v: nat | g != f && v < 512 ensures Entry(s'.ram, g, v) == Entry(s.ram, g, v) {
      EntryAfterStore(s.ram, f, w, x, g, v);
    }
    OwnedStore(s, s'.ram, f);
  }

  lemma KfreeKeeps(s: State, f: nat)
    requires Inv(s) && f in s.owned
    ensures var s' := Kfree(s, f);
      && Inv(s') && (forall va :: Translate(s', va) == Translate(s, va))
      && (f < s.base + s.len ==> |s'.used| + 1 == |s.used|)
      && forall g, v :: g != f && 0 <= v < 512 ==> Entry(s'.ram, g, v) == Entry(s.ram, g, v)
  {
    var ram' := ClearFrame(s.ram, f);
    forall g: nat, v: nat | g != f && v < 512 ensures Entry(ram', g, v) == Entry(s.ram, g, v) {
      ClearFrameEntries(s.ram, f, g, v);
    }
    OwnedStore(s, ram', f);
    assert TablePages(Kfree(s, f)) == TablePages(s);
  }

  /** A freed page of the region is zero and free; a page of the rounded-up tail stays as it is. */
  lemma KfreeClears(s: State, f: nat)
    requires Inv(s) && f in s.owned
    ensures var s' := Kfree(s, f);
      if f < s.base + s.len
      then s'.used == s.used - {f} && s'.owned == s.owned - {f} && forall w :: 0 <= w < 512 ==> Entry(s'.ram, f, w) == 0
      else s' == s
  {
    forall w: nat | w < 512 ensures Entry(ClearFrame(s.ram, f), f, w) == 0 { ClearFrameEntries(s.ram, f, f, w); }
  }

  /** A caller's store reaches its word and no other. */
  lemma WriteStores(s: State, f: nat, w: nat, x: u64)
    requires Inv(s) && f in s.owned && w < 512
    ensures var s' := Write(s, f, w, x);
      && s' == s.(ram := s'.ram) && |s'.ram| == |s.ram|
      && (forall v :: 0 <= v < 512 ==> Entry(s'.ram, f, v) == if v == w then x else Entry(s.ram, f, v))
      && forall g, v :: g != f && 0 <= v < 512 ==> Entry(s'.ram, g, v) == Entry(s.ram, g, v)
  {
    WriteKeeps(s, f, w, x);
    assert f in s.used;
    forall v: nat | v < 512 ensures Entry(Write(s, f, w, x).ram, f, v) == if v == w then x else Entry(s.ram, f, v) {
      EntryAfterStore(s.ram, f, w, x, f, v);
    }
  }

  /** Every allowed operation keeps the invariant and means what the flat map says. */
  lemma StepKeeps(s: State, op: Op)
    requires Inv(s) && Allowed(s, op)
    ensures Inv(Step(s, op))
    ensures forall va :: Translate(Step(s, op), va) == Effect(op, va, Translate(s, va))
  {
    match op
    case AllocOp => PallocKeeps(s);
    case KallocOp(size) => PallocKeeps(s);
    case FreeOp(f) => KfreeKeeps(s, f);
    case MapOp(va, pa, flags) => MmapEffect(s, va, pa, flags);
    case UnmapOp(va) => UnmapEffect(s, va);
    case WriteOp(f, w, x) => WriteKeeps(s, f, w, x);
  }

  // ----- Every run -------------------------------------------------------------------

  /** Every run keeps the ownership invariant. */
  lemma {:induction false} RunKeepsInv(s: State, ops: seq<Op>)
    requires Inv(s) && AllowedRun(s, ops)
    ensures Inv(Exec(s, ops))
  {
    if ops != [] {
      RunKeepsInv(s, ops[..|ops| - 1]);
      StepKeeps(Exec(s, ops[..|ops| - 1]), ops[|ops| - 1]);
    }
  }

  /** After every run, the processor's walk of every address is the last-writer-wins map. */
  lemma {:induction false} RunTranslates(s: State, ops: seq<Op>, va: u64)
    requires Inv(s) && AllowedRun(s, ops)
    ensures Translate(Exec(s, ops), va) == LastWriter(ops, va, Translate(s, va))
  {
    if ops != [] {
      RunKeepsInv(s, ops[..|ops| - 1]);
      RunTranslates(s, ops[..|ops| - 1], va);
      StepKeeps(Exec(s, ops[..|ops| - 1]), ops[|ops| - 1]);
    }
  }

  /** No operation makes an address lie in a large page that did not before. */
  lemma StepKeepsSmall(s: State, op: Op, va: u64)
    requires Inv(s) && Allowed(s, op) && NotLarge(s, va)
    ensures NotLarge(Step(s, op), va)
  {
    hide Step, Allowed, Inv;
    StepKeeps(s, op);
  }

  lemma {:induction false} RunKeepsSmall(s: State, ops: seq<Op>, va: u64)
    requires Inv(s) && AllowedRun(s, ops) && NotLarge(s, va)
    ensures NotLarge(Exec(s, ops), va)
  {
    hide Step, Allowed, Inv, NotLarge;
    if ops != [] {
      RunKeepsSmall(s, ops[..|ops| - 1], va);
      RunKeepsInv(s, ops[..|ops| - 1]);
      StepKeepsSmall(Exec(s, ops[..|ops| - 1]), ops[|ops| - 1], va);
    }
  }

  /** What Allowed demands beside NotLarge. */
  predicate Granted(s: State, op: Op) {
    match op
    case FreeOp(f) => f in s.owned
    case MapOp(va, _, _) => Room(s, Missing(s, va))
    case WriteOp(f, w, _) => f in s.owned && w < 512
    case _ => true
  }

  predicate GrantedRun(s: State, ops: seq<Op>) {
    ops == [] || (GrantedRun(s, ops[..|ops| - 1]) && Granted(Exec(s, ops[..|ops| - 1]), ops[|ops| - 1]))
  }

  /** Whether the addresses of a run lie in large pages is a matter of the state it starts in. */
  lemma {:induction false} SmallAtStart(s: State, ops: seq<Op>)
    requires Inv(s) && GrantedRun(s, ops)
    requires forall k :: 0 <= k < |ops| && (ops[k].MapOp? || ops[k].UnmapOp?) ==> NotLarge(s, ops[k].va)
    ensures AllowedRun(s, ops)
  {
    hide Step, Inv, NotLarge;
    if ops != [] {
      var before, op := ops[..|ops| - 1], ops[|ops| - 1];
      SmallAtStart(s, before);
      if op.MapOp? || op.UnmapOp? { RunKeepsSmall(s, before, op.va); }
    }
  }

  /** The page handed out after any run is neither a table nor any caller's page. */
  lemma RunHandsOutFresh(s: State, ops: seq<Op>)
    requires Inv(s) && AllowedRun(s, ops)
    ensures var s' := Exec(s, ops);
      && (Palloc(s').1.None? <==> |s'.used| == s'.n)
      && (Palloc(s').1.Some? ==> Palloc(s').1.value !in s'.owned && Palloc(s').1.value !in s'.tree.level)
  {
    RunKeepsInv(s, ops);
    PallocKeeps(Exec(s, ops));
  }

  /** An operation that gives page f back or stores into it. */
  predicate Concerns(op: Op, f: nat) {
    (op.FreeOp? || op.WriteOp?) && op.frame == f
  }

  /** A page in a caller's hands stays so, word for word, until that caller frees it or
      writes to it: nothing mmap, unmap or the allocator stores ever lands in it. */
  lemma {:induction false} RunIsolates(s: State, ops: seq<Op>, f: nat)
    requires Inv(s) && AllowedRun(s, ops) && f in s.owned
    requires forall k :: 0 <= k < |ops| ==> !Concerns(ops[k], f)
    ensures f in Exec(s, ops).owned && f !in Exec(s, ops).tree.level
    ensures forall w :: 0 <= w < 512 ==> Entry(Exec(s, ops).ram, f, w) == Entry(s.ram, f, w)
  {
    RunKeepsInv(s, ops);
    if ops != [] {
      var s1 := Exec(s, ops[..|ops| - 1]);
      RunKeepsInv(s, ops[..|ops| - 1]);
      RunIsolates(s, ops[..|ops| - 1], f);
      StepIsolates(s1, ops[|ops| - 1], f);
    }
    if f in Exec(s, ops).owned { CallerPageIsNoTable(Exec(s, ops), f); }
  }

  lemma CallerPageIsNoTable(s: State, f: nat)
    requires Inv(s) && f in s.owned
    ensures f !in s.tree.level
  {
  }

  lemma StepIsolates(s: State, op: Op, f: nat)
    requires Inv(s) && Allowed(s, op) && f in s.owned && !Concerns(op, f)
    ensures f in Step(s, op).owned
    ensures forall w :: 0 <= w < 512 ==> Entry(Step(s, op).ram, f, w) == Entry(s.ram, f, w)
  {
    match op
    case AllocOp => PallocKeeps(s);
    case KallocOp(size) => PallocKeeps(s);
    case FreeOp(g) => KfreeKeeps(s, g);
    case MapOp(va, pa, flags) => MmapEffect(s, va, pa, flags);
    case UnmapOp(va) => UnmapEffect(s, va);
    case WriteOp(g, w, x) => WriteKeeps(s, g, w, x);
  }

  /** Tables built by a run: at each mmap, the levels that were absent. */
  function TablesBuilt(s: State, ops: seq<Op>): (r: nat) {
    if ops == [] then 0
    else
      var before := ops[..|ops| - 1];
      TablesBuilt(s, before) +
      match ops[|ops| - 1] case MapOp(va, _, _) => Missing(Exec(s, before), va) case _ => 0
  }

  lemma TableCount(s: State)
    requires Owned(s)
    ensures |s.used| == |s.owned| + |TablePages(s)|
  {
  }

  /** Memory is accounted for exactly: set bits are the pages callers hold plus the tables,
      and the tables grow by precisely the absent levels each mmap met. */
  lemma {:induction false} RunAccounts(s: State, ops: seq<Op>)
    requires Inv(s) && AllowedRun(s, ops)
    ensures var s' := Exec(s, ops);
      && |s'.used| == |s'.owned| + |TablePages(s')|
      && |TablePages(s')| == |TablePages(s)| + TablesBuilt(s, ops)
  {
    RunKeepsInv(s, ops);
    TableCount(Exec(s, ops));
    if ops != [] {
      var s1 := Exec(s, ops[..|ops| - 1]);
      RunKeepsInv(s, ops[..|ops| - 1]);
      RunAccounts(s, ops[..|ops| - 1]);
      StepAccounts(s1, ops[|ops| - 1]);
    }
  }

  lemma StepAccounts(s: State, op: Op)
    requires Inv(s) && Allowed(s, op)
    ensures |TablePages(Step(s, op))| ==
      |TablePages(s)| + match op case MapOp(va, _, _) => Missing(s, va) case _ => 0
  {
    if op.MapOp? {
      MmapEffect(s, op.va, op.pa, op.flags);
      TableCount(s);
      TableCount(Step(s, op));
    } else {
      if op.UnmapOp? { UnmapEffect(s, op.va); }
      assert TablePages(Step(s, op)) == TablePages(s);
    }
  }

  /** Mapping again anything under the same page table costs nothing. */
  lemma RemapIsFree(s: State, va: u64, pa: u64, flags: u64, vb: u64)
    requires Inv(s) && NotLarge(s, va) && Room(s, Missing(s, va))
    requires forall l :: 0 <= l < 3 ==> Index(vb, l) == Index(va, l)
    ensures Missing(Mmap(s, va, pa, flags), vb) == 0
  {
    MmapEffect(s, va, pa, flags);
    var s' := Mmap(s, va, pa, flags);
    SamePath(s'.ram, s'.tree.root, va, vb, 3);
  }
}
