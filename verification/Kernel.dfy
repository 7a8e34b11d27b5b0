/** The page allocator of pmm.c and the page tables of vmm.c as one state machine.
    The classes Pmm and Vmm are proved to follow it; here is what it keeps. */
module Kernel {
  import opened Words
  import opened Wrappers
  import opened PageTables
  import opened TableStores

  /** The pool is the n frames from frame base on, n being rounded up to whole bitmap bytes;
      the memory region it was made from has len frames. used: frames whose bitmap bit is
      set. owned: frames now in the hands of callers. */
  datatype State = State(base: nat, n: nat, len: nat, used: set<nat>, ram: seq<u64>, tree: Tree, owned: set<nat>) {
    function End(): (r: nat) { base + n }
  }

  const MAX_WORDS := 0x1000_0000_0000 // 2^47 bytes: the reach of the fixed-offset map

  /** Pool frames that hold tables. */
  function TablePages(s: State): (r: set<nat>) {
    set f | f in s.tree.level && s.base <= f < s.End()
  }

  /** The allocator and the tables agree about who owns what: a frame is marked used exactly
      when a caller holds it or it is a table, and never both. */
  predicate Owned(s: State) {
    && (forall f :: f in s.used ==> s.base <= f < s.End())
    && s.owned !! TablePages(s)
    && s.used == s.owned + TablePages(s)
  }

  predicate Inv(s: State) {
    && s.End() * 512 <= |s.ram| <= MAX_WORDS
    && WellFormed(s.ram, s.tree)
    && Owned(s)
  }

  // ----- Operations ------------------------------------------------------------------

  /** The least frame from f on that is not used, or end. */
  function FirstFree(used: set<nat>, f: nat, end: nat): (r: nat)
    requires f <= end
    ensures f <= r <= end && (r < end ==> r !in used) && forall k :: f <= k < r ==> k in used
    decreases end - f
  {
    if f == end || f !in used then f else FirstFree(used, f + 1, end)
  }

  function FreeFrame(s: State): (r: nat)
    ensures s.base <= r <= s.End()
  {
    FirstFree(s.used, s.base, s.End())
  }

  function ClearFrame(ram: seq<u64>, f: nat): (r: seq<u64>) {
    seq(|ram|, k requires 0 <= k < |ram| => if f * 512 <= k < f * 512 + 512 then 0 else ram[k])
  }

  function Store(ram: seq<u64>, k: nat, x: u64): (r: seq<u64>) {
    if k < |ram| then ram[k := x] else ram
  }

  /** A page for the caller, or None when the pool is full. */
  function Palloc(s: State): (r: (State, Option<nat>)) {
    var f := FreeFrame(s);
    if f == s.End() then (s, None)
    else (s.(used := s.used + {f}, owned := s.owned + {f}), Some(f))
  }

  /** kalloc reserves one page whatever the size. */
  function Kalloc(s: State, size: u64): (r: (State, Option<nat>)) {
    if size == 0 then (s, None) else Palloc(s)
  }

  /** kfree ignores what lies outside the region. */
  function Kfree(s: State, f: nat): (r: State) {
    if !(s.base <= f < s.base + s.len) then s
    else s.(used := s.used - {f}, owned := s.owned - {f}, ram := ClearFrame(s.ram, f))
  }

  /** A present, writable entry for the table in frame f. */
  function TableEntry(f: nat): (r: u64)
    requires f < MAX_WORDS / 512
  {
    f * 0x1000 + 3
  }

  /** The table that entry (f, i) refers to; allocated, zeroed and linked if absent. */
  function Descend(s: State, f: nat, i: nat): (r: (State, nat)) {
    var e := Entry(s.ram, f, i);
    if Present(e) then (s, Frame(e))
    else
      var c := FreeFrame(s);
      if f in s.tree.level && c < MAX_WORDS / 512 then
        (s.(used := s.used + {c},
            ram := Store(ClearFrame(s.ram, c), f * 512 + i, TableEntry(c)),
            tree := Grow(s.tree, f, i, c)), c)
      else (s, c)
  }

  /** Page-aligned address bits of pa, low bits of flags, present. */
  function LeafEntry(pa: u64, flags: u64): (r: u64) {
    (pa - pa % 0x1000) + (flags % 0x1000 - flags % 2) + 1
  }

  /** The page table for va, after building what is missing above it. */
  function PageTable(s: State, va: u64): (r: (State, nat)) {
    var (s1, pdpt) := Descend(s, s.tree.root, Index(va, 0));
    var (s2, pd) := Descend(s1, pdpt, Index(va, 1));
    Descend(s2, pd, Index(va, 2))
  }

  function Mmap(s: State, va: u64, pa: u64, flags: u64): (r: State) {
    var (s', pt) := PageTable(s, va);
    s'.(ram := Store(s'.ram, pt * 512 + Index(va, 3), LeafEntry(pa, flags)))
  }

  function Unmap(s: State, va: u64): (r: State) {
    match TableAt(s.ram, s.tree.root, va, 3)
    case None => s
    case Some(pt) => s.(ram := Store(s.ram, pt * 512 + Index(va, 3), 0))
  }

  /** A caller stores x in word w of its page f. */
  function Write(s: State, f: nat, w: nat, x: u64): (r: State) {
    s.(ram := Store(s.ram, f * 512 + w, x))
  }

  // ----- Conditions ------------------------------------------------------------------

  function Translate(s: State, va: u64): (r: Xlat) { Walk(s.ram, s.tree.root, va) }

  /** How many tables the walk of va lacks. */
  function Missing(s: State, va: u64): (r: nat) {
    if TableAt(s.ram, s.tree.root, va, 3).Some? then 0
    else if TableAt(s.ram, s.tree.root, va, 2).Some? then 1
    else if TableAt(s.ram, s.tree.root, va, 1).Some? then 2
    else 3
  }

  /** mmap and unmap treat every present entry as a table: va must not lie in a large page. */
  predicate NotLarge(s: State, va: u64) {
    Translate(s, va).Mapped? ==> Translate(s, va).level == 3
  }

  predicate Room(s: State, k: nat) { |s.used| + k <= s.n }

  // ----- The bitmap ------------------------------------------------------------------

  function Interval(a: nat, n: nat): (p: set<nat>)
    ensures |p| == n && forall f :: f in p <==> a <= f < a + n
  {
    if n == 0 then {} else Interval(a, n - 1) + {a + n - 1}
  }

  lemma SubsetSize(a: set<nat>, b: set<nat>)
    requires a <= b
    ensures |a| <= |b| && (|a| == |b| ==> a == b)
  {
    assert b == a + (b - a);
  }

  /** The search fails exactly when the pool is full. */
  lemma FullIff(s: State)
    requires forall f :: f in s.used ==> s.base <= f < s.End()
    ensures FreeFrame(s) == s.End() <==> |s.used| == s.n
  {
    var pool := Interval(s.base, s.n);
    SubsetSize(s.used, pool);
    if FreeFrame(s) == s.End() {
      assert pool <= s.used && s.used <= pool;
      assert s.used == pool;
    } else {
      assert FreeFrame(s) in pool && FreeFrame(s) !in s.used;
    }
  }

  /** kalloc fails exactly when nothing is asked for or the pool is full, and reserves enough
      for the request exactly when that is nothing, or one page at most with a page to be had. */
  lemma KallocCovers(s: State, size: u64)
    requires forall f :: f in s.used ==> s.base <= f < s.End()
    ensures Kalloc(s, size).1.Some? <==> size > 0 && |s.used| < s.n
    ensures ((|Kalloc(s, size).0.used| - |s.used|) * 4096 >= size <==>
             size == 0 || (size <= 4096 && |s.used| < s.n))
  {
    SubsetSize(s.used, Interval(s.base, s.n));
    FullIff(s);
  }

  /** Freeing the page just allocated restores the bitmap, so that the next allocation
      returns that page again, exactly when the page lies in the region; a page from the
      rounded-up tail of the pool is never given back. */
  lemma AllocFreeAlloc(s: State)
    requires Palloc(s).1.Some?
    ensures var (s', f) := Palloc(s);
      var t := Kfree(s', f.value);
      && (t.used == s.used <==> f.value < s.base + s.len)
      && (Palloc(t).1 == f <==> f.value < s.base + s.len)
  {
  }

  // ----- mmap ------------------------------------------------------------------------

  lemma TableEntryBits(f: nat, l: nat)
    requires f < MAX_WORDS / 512 && l < 3
    ensures IsLink(TableEntry(f), l) && TableEntry(f) < TWO52 && Frame(TableEntry(f)) == f
  {
    var e := TableEntry(f);
    var h := f * 0x800 + 1;
    assert e / 2 == h && h / 2 == f * 0x400 && f * 0x400 / 2 == f * 0x200 && f * 0x200 / 2 == f * 0x100;
    assert f * 0x100 / 2 == f * 0x80 && f * 0x80 / 2 == f * 0x40 && f * 0x40 / 2 == f * 0x20;
    assert Bit(f * 0x200, 4) == Bit(f * 0x100, 3) == Bit(f * 0x80, 2) == Bit(f * 0x40, 1) == Bit(f * 0x20, 0);
    assert Bit(e, 7) == Bit(h, 6) == Bit(f * 0x400, 5) == Bit(f * 0x200, 4);
  }

  lemma ClearFrameEntries(ram: seq<u64>, c: nat, g: nat, j: nat)
    requires j < 512
    ensures Entry(ClearFrame(ram, c), g, j) == if g == c then 0 else Entry(ram, g, j)
  {
  }

  /** Clearing a frame that is no table. */
  lemma ClearOutside(ram: seq<u64>, t: Tree, c: nat)
    requires WellFormed(ram, t) && c !in t.level
    ensures WellFormed(ClearFrame(ram, c), t)
  {
    forall f, i | f in t.level && 0 <= i < 512 ensures Entry(ClearFrame(ram, c), f, i) == Entry(ram, f, i) {
      ClearFrameEntries(ram, c, f, i);
    }
    OutsideTables(ram, ClearFrame(ram, c), t);
  }

  lemma ClearOutsideWalk(ram: seq<u64>, t: Tree, c: nat, va: u64)
    requires WellFormed(ram, t) && c !in t.level
    ensures Walk(ClearFrame(ram, c), t.root, va) == Walk(ram, t.root, va)
    ensures forall l :: 0 <= l < 4 ==> TableAt(ClearFrame(ram, c), t.root, va, l) == TableAt(ram, t.root, va, l)
  {
    forall f, i | f in t.level && 0 <= i < 512 ensures Entry(ClearFrame(ram, c), f, i) == Entry(ram, f, i) {
      ClearFrameEntries(ram, c, f, i);
    }
    OutsideTablesWalk(ram, ClearFrame(ram, c), t, va);
  }

  /** The state is that of s but for one more table, in the first free frame, linked at (f, i). */
  function WithTable(s: State, f: nat, i: nat): (r: State)
    requires f in s.tree.level && f * 512 + i < |s.ram|
    requires FreeFrame(s) < MAX_WORDS / 512
  {
    var c := FreeFrame(s);
    s.(used := s.used + {c}, ram := ClearFrame(s.ram, c)[f * 512 + i := TableEntry(c)], tree := Grow(s.tree, f, i, c))
  }

  lemma FreshFrame(s: State)
    requires Inv(s) && Room(s, 1)
    ensures var c := FreeFrame(s);
      c < s.End() && c !in s.used && c !in s.owned && c !in s.tree.level && c < MAX_WORDS / 512
  {
    FullIff(s);
    assert FreeFrame(s) in s.tree.level ==> FreeFrame(s) in TablePages(s);
  }

  lemma NewTableLink(s: State, f: nat, i: nat)
    requires Inv(s) && Room(s, 1) && f in s.tree.level && s.tree.level[f] < 3 && i < 512
    requires !Present(Entry(s.ram, f, i))
    ensures var c := FreeFrame(s);
      c < MAX_WORDS / 512 && CanLink(ClearFrame(s.ram, c), s.tree, f, i, c, TableEntry(c))
  {
    FreshFrame(s);
    var c := FreeFrame(s);
    TableEntryBits(c, s.tree.level[f]);
    forall j | 0 <= j < 512 ensures Entry(ClearFrame(s.ram, c), c, j) == 0 {
      ClearFrameEntries(s.ram, c, c, j);
    }
    ClearFrameEntries(s.ram, c, f, i);
  }

  lemma NewTableOwned(s: State, f: nat, i: nat)
    requires Owned(s) && f in s.tree.level && f * 512 + i < |s.ram|
    requires FreeFrame(s) < MAX_WORDS / 512 && FreeFrame(s) < s.End()
    ensures Owned(WithTable(s, f, i))
  {
  }

  /** A new table keeps the invariant ... */
  lemma NewTableInv(s: State, f: nat, i: nat)
    requires Inv(s) && Room(s, 1) && f in s.tree.level && s.tree.level[f] < 3 && i < 512
    requires !Present(Entry(s.ram, f, i))
    ensures FreeFrame(s) < MAX_WORDS / 512
    ensures Inv(WithTable(s, f, i))
  {
    FreshFrame(s);
    NewTableLink(s, f, i);
    NewTableOwned(s, f, i);
    var c := FreeFrame(s);
    ClearOutside(s.ram, s.tree, c);
    LinkTree(ClearFrame(s.ram, c), s.tree, f, i, c, TableEntry(c));
  }

  /** ... and every translation. */
  lemma NewTableWalk(s: State, f: nat, i: nat, va: u64)
    requires Inv(s) && Room(s, 1) && f in s.tree.level && s.tree.level[f] < 3 && i < 512
    requires !Present(Entry(s.ram, f, i))
    ensures FreeFrame(s) < MAX_WORDS / 512
    ensures Translate(WithTable(s, f, i), va) == Translate(s, va)
  {
    FreshFrame(s);
    NewTableLink(s, f, i);
    var c := FreeFrame(s);
    ClearOutside(s.ram, s.tree, c);
    ClearOutsideWalk(s.ram, s.tree, c, va);
    LinkWalk(ClearFrame(s.ram, c), s.tree, f, i, c, TableEntry(c), va);
  }

  lemma NewTableReached(s: State, va: u64, f: nat)
    requires WellFormed(s.ram, s.tree) && f in s.tree.level && s.tree.level[f] < 3
    requires TableAt(s.ram, s.tree.root, va, s.tree.level[f]) == Some(f) && FreeFrame(s) < MAX_WORDS / 512
    requires CanLink(ClearFrame(s.ram, FreeFrame(s)), s.tree, f, Index(va, s.tree.level[f]),
                     FreeFrame(s), TableEntry(FreeFrame(s)))
    ensures var s', c, l := WithTable(s, f, Index(va, s.tree.level[f])), FreeFrame(s), s.tree.level[f];
      && TableAt(s'.ram, s'.tree.root, va, l + 1) == Some(c)
      && (l < 2 ==> TableAt(s'.ram, s'.tree.root, va, l + 2) == None)
  {
    LinkClearedReached(s.ram, s.tree, f, FreeFrame(s), TableEntry(FreeFrame(s)), va);
  }

  lemma LinkClearedReached(ram: seq<u64>, t: Tree, f: nat, c: nat, e: u64, va: u64)
    requires WellFormed(ram, t) && f in t.level && t.level[f] < 3
    requires CanLink(ClearFrame(ram, c), t, f, Index(va, t.level[f]), c, e)
    requires TableAt(ram, t.root, va, t.level[f]) == Some(f)
    ensures var ram' := ClearFrame(ram, c)[f * 512 + Index(va, t.level[f]) := e];
      && TableAt(ram', t.root, va, t.level[f] + 1) == Some(c)
      && (t.level[f] < 2 ==> TableAt(ram', t.root, va, t.level[f] + 2) == None)
  {
    ClearOutside(ram, t, c);
    ClearOutsideWalk(ram, t, c, va);
    LinkReached(ClearFrame(ram, c), t, f, Index(va, t.level[f]), c, e, va);
  }

  /** One level of mmap: the invariant and every translation survive, the next table is
      there, and a page is spent exactly when a table was missing. */
  lemma DescendStep(s: State, va: u64, l: nat, f: nat)
    requires Inv(s) && l < 3 && NotLarge(s, va) && Room(s, Missing(s, va))
    requires TableAt(s.ram, s.tree.root, va, l) == Some(f)
    ensures var (s', c) := Descend(s, f, Index(va, l));
      && Inv(s') && (forall vb :: Translate(s', vb) == Translate(s, vb))
      && TableAt(s'.ram, s'.tree.root, va, l + 1) == Some(c)
      && |s'.used| + Missing(s', va) == |s.used| + Missing(s, va) && s.used <= s'.used
      && SameBut(s, s') && CallersUntouched(s, s')
  {
    WalkVia(s.ram, s.tree.root, va, l);
    if !Present(Entry(s.ram, f, Index(va, l))) {
      AbsentIsMissing(s, va, l, f);
      DescendNew(s, va, l, f);
    }
  }

  /** No word of a page that a caller holds has changed. */
  predicate CallersUntouched(s: State, s': State) {
    forall g, w :: g in s.owned && 0 <= w < 512 ==> Entry(s'.ram, g, w) == Entry(s.ram, g, w)
  }

  /** s' differs from s in the words of memory and the tables taken from the pool at most. */
  predicate SameBut(s: State, s': State) {
    s' == s.(ram := s'.ram, tree := s'.tree, used := s'.used) && s'.tree.root == s.tree.root && |s'.ram| == |s.ram|
  }

  lemma DescendNew(s: State, va: u64, l: nat, f: nat)
    requires Inv(s) && l < 3 && Room(s, 1) && TableAt(s.ram, s.tree.root, va, l) == Some(f)
    requires !Present(Entry(s.ram, f, Index(va, l)))
    ensures var (s', c) := Descend(s, f, Index(va, l));
      && Inv(s') && (forall vb :: Translate(s', vb) == Translate(s, vb))
      && TableAt(s'.ram, s'.tree.root, va, l + 1) == Some(c)
      && |s'.used| == |s.used| + 1 && Missing(s', va) == 3 - (l + 1) && s.used <= s'.used
      && SameBut(s, s') && CallersUntouched(s, s')
  {
    var i := Index(va, l);
    TableAtOwned(s.ram, s.tree, va, l);
    FreshFrame(s);
    DescendIsNew(s, f, i);
    NewTableInv(s, f, i);
    forall vb: u64 ensures Translate(WithTable(s, f, i), vb) == Translate(s, vb) {
      NewTableWalk(s, f, i, vb);
    }
    NewTableLink(s, f, i);
    NewTableReached(s, va, f);
    ReachedIsMissing(WithTable(s, f, i), va, l + 1);
    TableNotOwned(s, f);
    NewTableUntouched(s, f, i);
  }

  lemma DescendIsNew(s: State, f: nat, i: nat)
    requires f in s.tree.level && i < 512 && f * 512 + i < |s.ram| && !Present(Entry(s.ram, f, i))
    requires FreeFrame(s) < MAX_WORDS / 512 && FreeFrame(s) !in s.used
    ensures var s' := WithTable(s, f, i);
      && Descend(s, f, i) == (s', FreeFrame(s)) && SameBut(s, s')
      && |s'.used| == |s.used| + 1 && s.used <= s'.used
  {
  }

  lemma NewTableUntouched(s: State, f: nat, i: nat)
    requires Owned(s) && FreeFrame(s) !in s.owned && FreeFrame(s) < MAX_WORDS / 512
    requires f in s.tree.level && f !in s.owned && i < 512 && f * 512 + i < |s.ram|
    ensures CallersUntouched(s, WithTable(s, f, i))
  {
  }

  /** A table is never in a caller's hands. */
  lemma TableNotOwned(s: State, f: nat)
    requires Inv(s) && f in s.tree.level
    ensures f !in s.owned
  {
  }

  lemma AbsentIsMissing(s: State, va: u64, l: nat, f: nat)
    requires l < 3 && TableAt(s.ram, s.tree.root, va, l) == Some(f) && !Present(Entry(s.ram, f, Index(va, l)))
    ensures Missing(s, va) == 3 - l
  {
    assert TableAt(s.ram, s.tree.root, va, l + 1) == None;
    ReachedIsMissing(s, va, l);
  }

  lemma ReachedIsMissing(s: State, va: u64, l: nat)
    requires l < 4 && TableAt(s.ram, s.tree.root, va, l).Some?
    requires l < 3 ==> TableAt(s.ram, s.tree.root, va, l + 1) == None
    ensures Missing(s, va) == 3 - l
  {
    hide TableAt;
    if l == 0 {
      NoneBelow(s.ram, s.tree.root, va, 1);
      NoneBelow(s.ram, s.tree.root, va, 2);
    } else if l == 1 {
      NoneBelow(s.ram, s.tree.root, va, 2);
    }
  }

  lemma NoneBelow(ram: seq<u64>, root: nat, va: u64, l: nat)
    requires l < 3 && TableAt(ram, root, va, l) == None
    ensures TableAt(ram, root, va, l + 1) == None
  {
  }

  lemma LeafEntryPresent(pa: u64, flags: u64)
    ensures Present(LeafEntry(pa, flags))
  {
    var h := PageHalf(pa);
    var l := LowHalf(flags);
    assert LeafEntry(pa, flags) == 2 * (h + l) + 1;
  }

  lemma PageHalf(pa: nat) returns (h: nat)
    ensures pa - pa % 0x1000 == 2 * h
  {
    h := 0x800 * (pa / 0x1000);
  }

  lemma LowHalf(flags: nat) returns (l: nat)
    ensures flags % 0x1000 - flags % 2 == 2 * l
  {
    var low := flags % 0x1000;
    assert flags == 2 * (0x800 * (flags / 0x1000)) + low;
    assert flags % 2 == low % 2;
    l := low / 2;
  }

  lemma PageTableEffect(s: State, va: u64)
    requires Inv(s) && NotLarge(s, va) && Room(s, Missing(s, va))
    ensures var (s', pt) := PageTable(s, va);
      && Inv(s') && (forall vb :: Translate(s', vb) == Translate(s, vb))
      && TableAt(s'.ram, s'.tree.root, va, 3) == Some(pt)
      && |s'.used| == |s.used| + Missing(s, va) && s.used <= s'.used
      && SameBut(s, s') && CallersUntouched(s, s')
  {
    DescendStep(s, va, 0, s.tree.root);
    var (s1, pdpt) := Descend(s, s.tree.root, Index(va, 0));
    DescendStep(s1, va, 1, pdpt);
    var (s2, pd) := Descend(s1, pdpt, Index(va, 1));
    DescendStep(s2, va, 2, pd);
  }

  /** mmap maps exactly its own page, keeps every other translation and the invariant, and
      spends exactly one page per missing table. */
  lemma MmapEffect(s: State, va: u64, pa: u64, flags: u64)
    requires Inv(s) && NotLarge(s, va) && Room(s, Missing(s, va))
    ensures var s' := Mmap(s, va, pa, flags);
      && Inv(s') && s.used <= s'.used
      && (forall vb :: Translate(s', vb) ==
            if Vpn(vb) == Vpn(va) then Mapped(3, LeafEntry(pa, flags)) else Translate(s, vb))
      && |s'.used| == |s.used| + Missing(s, va) && Missing(s', va) == 0
      && SameBut(s, s') && CallersUntouched(s, s')
  {
    PageTableEffect(s, va);
    var (s1, pt) := PageTable(s, va);
    LeafKeeps(s1, va, LeafEntry(pa, flags));
    LeafStillReached(s1, va, LeafEntry(pa, flags));
    LeafUntouched(s1, va, LeafEntry(pa, flags));
    LeafEntryPresent(pa, flags);
  }

  /** What one level of mmap needs to find: an entry that leads to a table, or none and a
      page to spare. */
  predicate CanDescend(s: State, f: nat, i: nat) {
    && i < 512 && f in s.tree.level && (f + 1) * 512 <= |s.ram|
    && var e := Entry(s.ram, f, i);
       if Present(e) then e < TWO52 && (Frame(e) + 1) * 512 <= |s.ram| else FreeFrame(s) < s.End()
  }

  lemma DescendReady(s: State, va: u64, l: nat, f: nat)
    requires Inv(s) && l < 3 && NotLarge(s, va) && Room(s, Missing(s, va))
    requires TableAt(s.ram, s.tree.root, va, l) == Some(f)
    ensures CanDescend(s, f, Index(va, l))
  {
    WalkVia(s.ram, s.tree.root, va, l);
    TableAtOwned(s.ram, s.tree, va, l);
    if Present(Entry(s.ram, f, Index(va, l))) {
      assert LinkOwned(s.ram, s.tree, f, Index(va, l));
    } else {
      AbsentIsMissing(s, va, l, f);
      FreshFrame(s);
    }
  }

  /** A walk of unmap: an entry that is present leads to the next table. */
  lemma DescendFound(s: State, va: u64, l: nat)
    requires Inv(s) && l < 3 && NotLarge(s, va) && TableAt(s.ram, s.tree.root, va, l).Some?
    ensures var f := TableAt(s.ram, s.tree.root, va, l).value;
      var e := Entry(s.ram, f, Index(va, l));
      && (f + 1) * 512 <= |s.ram|
      && if Present(e)
         then e < TWO52 && TableAt(s.ram, s.tree.root, va, l + 1) == Some(Frame(e)) &&
              (Frame(e) + 1) * 512 <= |s.ram|
         else TableAt(s.ram, s.tree.root, va, l + 1) == None && TableAt(s.ram, s.tree.root, va, 3) == None
  {
    var f := TableAt(s.ram, s.tree.root, va, l).value;
    WalkVia(s.ram, s.tree.root, va, l);
    TableAtOwned(s.ram, s.tree, va, l);
    assert LinkOwned(s.ram, s.tree, f, Index(va, l));
    if !Present(Entry(s.ram, f, Index(va, l))) {
      AbsentIsMissing(s, va, l, f);
    }
  }

  /** What mmap needs to find at its three levels. */
  predicate CanMap(s: State, va: u64) {
    var (s1, pdpt) := Descend(s, s.tree.root, Index(va, 0));
    var (s2, pd) := Descend(s1, pdpt, Index(va, 1));
    var (s3, pt) := Descend(s2, pd, Index(va, 2));
    && CanDescend(s, s.tree.root, Index(va, 0)) && CanDescend(s1, pdpt, Index(va, 1))
    && CanDescend(s2, pd, Index(va, 2)) && (pt + 1) * 512 <= |s3.ram|
  }

  lemma CanMapTable(s: State, va: u64)
    requires CanMap(s, va)
    ensures var (s', pt) := PageTable(s, va); (pt + 1) * 512 <= |s'.ram|
  {
  }

  lemma MmapReady(s: State, va: u64)
    requires Inv(s) && NotLarge(s, va) && Room(s, Missing(s, va))
    ensures CanMap(s, va)
  {
    DescendReady(s, va, 0, s.tree.root);
    DescendStep(s, va, 0, s.tree.root);
    var (s1, pdpt) := Descend(s, s.tree.root, Index(va, 0));
    DescendReady(s1, va, 1, pdpt);
    DescendStep(s1, va, 1, pdpt);
    var (s2, pd) := Descend(s1, pdpt, Index(va, 1));
    DescendReady(s2, va, 2, pd);
    DescendStep(s2, va, 2, pd);
    var (s3, pt) := Descend(s2, pd, Index(va, 2));
    TableAtOwned(s3.ram, s3.tree, va, 3);
  }

  lemma LeafKeeps(s: State, va: u64, e: u64)
    requires Inv(s) && TableAt(s.ram, s.tree.root, va, 3).Some?
    ensures var k := TableAt(s.ram, s.tree.root, va, 3).value * 512 + Index(va, 3);
      var s' := s.(ram := Store(s.ram, k, e));
      && Inv(s') && |s'.ram| == |s.ram|
      && forall vb :: Translate(s', vb) ==
           if Vpn(vb) != Vpn(va) then Translate(s, vb) else if Present(e) then Mapped(3, e) else Fault
  {
    LeafStore(s.ram, s.tree, va, e);
    var k := TableAt(s.ram, s.tree.root, va, 3).value * 512 + Index(va, 3);
    assert TablePages(s.(ram := Store(s.ram, k, e))) == TablePages(s);
  }

  lemma LeafUntouched(s: State, va: u64, e: u64)
    requires Inv(s) && TableAt(s.ram, s.tree.root, va, 3).Some?
    ensures var k := TableAt(s.ram, s.tree.root, va, 3).value * 512 + Index(va, 3);
      CallersUntouched(s, s.(ram := Store(s.ram, k, e)))
  {
    TableAtOwned(s.ram, s.tree, va, 3);
    var f := TableAt(s.ram, s.tree.root, va, 3).value;
    TableNotOwned(s, f);
    forall g, w | g in s.owned && 0 <= w < 512
      ensures Entry(Store(s.ram, f * 512 + Index(va, 3), e), g, w) == Entry(s.ram, g, w)
    {
      EntryAfterStore(s.ram, f, Index(va, 3), e, g, w);
    }
  }

  lemma LeafStillReached(s: State, va: u64, e: u64)
    requires Inv(s) && TableAt(s.ram, s.tree.root, va, 3).Some?
    ensures var k := TableAt(s.ram, s.tree.root, va, 3).value * 512 + Index(va, 3);
      Missing(s.(ram := Store(s.ram, k, e)), va) == 0
  {
    hide Walk, Lookup, Owned, Tables, LinkOwned, HasParent, Frame, Present, IsLink, Span;
    TableAtOwned(s.ram, s.tree, va, 3);
    var f := TableAt(s.ram, s.tree.root, va, 3).value;
    StorePath(s.ram, s.tree, f, Index(va, 3), e, va);
    TableAtFrame(s.ram, Store(s.ram, f * 512 + Index(va, 3), e), s.tree.root, va, 3);
  }

  /** unmap clears exactly its own page and touches neither bitmap nor tree. */
  lemma UnmapEffect(s: State, va: u64)
    requires Inv(s) && NotLarge(s, va)
    ensures var s' := Unmap(s, va);
      && Inv(s') && s' == s.(ram := s'.ram) && |s'.ram| == |s.ram| && CallersUntouched(s, s')
      && forall vb :: Translate(s', vb) == if Vpn(vb) == Vpn(va) then Fault else Translate(s, vb)
  {
    if TableAt(s.ram, s.tree.root, va, 3).Some? {
      LeafKeeps(s, va, 0);
      LeafUntouched(s, va, 0);
      ZeroIsAbsent();
    } else {
      forall vb: u64 | Vpn(vb) == Vpn(va) ensures Translate(s, vb) == Fault {
        SamePage(va, vb);
        SameWalk(s.ram, s.tree.root, va, vb, 0);
        UnreachedFaults(s, va);
      }
    }
  }

  lemma UnreachedFaults(s: State, va: u64)
    requires TableAt(s.ram, s.tree.root, va, 3) == None
    ensures Translate(s, va).Mapped? ==> Translate(s, va).level < 3
  {
    StopsShort(s.ram, s.tree.root, va, 0);
  }

  lemma {:induction false} StopsShort(ram: seq<u64>, root: nat, va: u64, l: nat)
    requires l < 4 && TableAt(ram, root, va, l).Some? && TableAt(ram, root, va, 3) == None
    ensures var r := Lookup(ram, TableAt(ram, root, va, l).value, l, va); r.Mapped? ==> r.level < 3
    decreases 4 - l
  {
    var f := TableAt(ram, root, va, l).value;
    if l < 3 && IsLink(Entry(ram, f, Index(va, l)), l) {
      assert TableAt(ram, root, va, l + 1).Some?;
      StopsShort(ram, root, va, l + 1);
    }
  }
}
