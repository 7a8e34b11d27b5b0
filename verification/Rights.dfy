/** What the processor lets a program do with a page: a right is granted only if every entry on
    the walk grants it (section 4.6 of the Intel 64 and IA-32 SDM, Volume 3A). */
module Rights {
  import opened Words
  import opened Wrappers
  import opened PageTables
  import opened TableStores
  import opened Kernel
  import opened Runs

  const WRITE := 1 // R/W
  const USER := 2  // U/S

  /** The walk from table f of level l maps va, and grants right b all the way. */
  predicate Grants(ram: seq<u64>, f: nat, l: nat, va: u64, b: nat)
    requires l < 4
    decreases 4 - l
  {
    var e := Entry(ram, f, Index(va, l));
    Present(e) && Bit(e, b) && (IsLink(e, l) ==> Grants(ram, Frame(e), l + 1, va, b))
  }

  predicate May(s: State, va: u64, b: nat) { Grants(s.ram, s.tree.root, 0, va, b) }

  /** The l entries that lead to the table of level l grant right b. */
  predicate Upper(ram: seq<u64>, root: nat, va: u64, l: nat, b: nat)
    requires l < 4
    decreases l
  {
    l == 0 || (Upper(ram, root, va, l - 1, b) && TableAt(ram, root, va, l - 1).Some? &&
               Bit(Entry(ram, TableAt(ram, root, va, l - 1).value, Index(va, l - 1)), b))
  }

  /** The entries that lead as far as the walk of va goes grant right b. */
  predicate UpperGrant(s: State, va: u64, b: nat) {
    Upper(s.ram, s.tree.root, va, 3 - Missing(s, va), b)
  }

  lemma {:induction false} GrantsVia(ram: seq<u64>, root: nat, va: u64, l: nat, b: nat)
    requires l < 4 && TableAt(ram, root, va, l).Some?
    ensures Grants(ram, root, 0, va, b)
            <==> Upper(ram, root, va, l, b) && Grants(ram, TableAt(ram, root, va, l).value, l, va, b)
    decreases l
  {
    if l > 0 { GrantsVia(ram, root, va, l - 1, b); }
  }

  lemma {:induction false} UpperFrame(ram: seq<u64>, ram': seq<u64>, root: nat, va: u64, l: nat, b: nat)
    requires l < 4 && SameEntriesOnPath(ram, ram', root, va, 0, l)
    ensures Upper(ram', root, va, l, b) <==> Upper(ram, root, va, l, b)
    decreases l
  {
    if l > 0 {
      UpperFrame(ram, ram', root, va, l - 1, b);
      TableAtFrame(ram, ram', root, va, l - 1);
    }
  }

  lemma {:induction false} GrantsFrame(ram: seq<u64>, ram': seq<u64>, root: nat, va: u64, l: nat, b: nat)
    requires l < 4 && TableAt(ram, root, va, l).Some?
    requires SameEntriesOnPath(ram, ram', root, va, l, 4)
    ensures var f := TableAt(ram, root, va, l).value;
      Grants(ram', f, l, va, b) == Grants(ram, f, l, va, b)
    decreases 4 - l
  {
    var f := TableAt(ram, root, va, l).value;
    var e := Entry(ram, f, Index(va, l));
    if IsLink(e, l) {
      assert TableAt(ram, root, va, l + 1) == Some(Frame(e));
      GrantsFrame(ram, ram', root, va, l + 1, b);
    }
  }

  // ----- A new table -----------------------------------------------------------------

  lemma TableEntryRights(f: nat)
    requires f < MAX_WORDS / 512
    ensures Bit(TableEntry(f), WRITE) && !Bit(TableEntry(f), USER)
  {
    LowBitsOf(f * 0x200);
  }

  lemma LowBitsOf(q: nat)
    ensures Bit(8 * q + 3, 1) && !Bit(8 * q + 3, 2)
  {
    assert (8 * q + 3) / 2 == 4 * q + 1 && (4 * q + 1) / 2 == 2 * q;
    assert Bit(8 * q + 3, 2) == Bit(4 * q + 1, 1) == Bit(2 * q, 0);
  }

  /** Clearing a frame that is no table leaves every path alone. */
  lemma ClearKeepsPath(s: State, c: nat, va: u64)
    requires WellFormed(s.ram, s.tree) && c !in s.tree.level
    ensures SameEntriesOnPath(s.ram, ClearFrame(s.ram, c), s.tree.root, va, 0, 4)
  {
    forall k | 0 <= k < 4 && TableAt(s.ram, s.tree.root, va, k).Some?
      ensures var g := TableAt(s.ram, s.tree.root, va, k).value;
        Entry(ClearFrame(s.ram, c), g, Index(va, k)) == Entry(s.ram, g, Index(va, k))
    {
      TableAtOwned(s.ram, s.tree, va, k);
      ClearFrameEntries(s.ram, c, TableAt(s.ram, s.tree.root, va, k).value, Index(va, k));
    }
  }

  /** A new table leaves the path to its entry alone. */
  lemma NewTablePath(s: State, va: u64, l: nat, f: nat, b: nat)
    requires Inv(s) && l < 3 && Room(s, 1) && TableAt(s.ram, s.tree.root, va, l) == Some(f)
    requires !Present(Entry(s.ram, f, Index(va, l)))
    ensures f in s.tree.level && f * 512 + Index(va, l) < |s.ram| && FreeFrame(s) < MAX_WORDS / 512
    ensures var s' := WithTable(s, f, Index(va, l));
      && s'.tree.root == s.tree.root && TableAt(s'.ram, s.tree.root, va, l) == Some(f)
      && Entry(s'.ram, f, Index(va, l)) == TableEntry(FreeFrame(s))
      && (Upper(s'.ram, s.tree.root, va, l, b) <==> Upper(s.ram, s.tree.root, va, l, b))
  {
    hide Upper, Grants, Lookup, HasParent, LinkOwned;
    TableAtOwned(s.ram, s.tree, va, l);
    FreshFrame(s);
    var c := FreeFrame(s);
    ClearKeepsPath(s, c, va);
    ClearOutside(s.ram, s.tree, c);
    StoreKeepsPath(s.ram, ClearFrame(s.ram, c), s.tree, va, l, f, TableEntry(c), b);
  }

  lemma StoreKeepsPath(ram: seq<u64>, cleared: seq<u64>, t: Tree, va: u64, l: nat, f: nat, e: u64, b: nat)
    requires WellFormed(cleared, t) && SameEntriesOnPath(ram, cleared, t.root, va, 0, 4)
    requires l < 4 && f in t.level && t.level[f] == l && TableAt(ram, t.root, va, l) == Some(f)
    ensures f * 512 + Index(va, l) < |cleared|
    ensures var ram' := cleared[f * 512 + Index(va, l) := e];
      && TableAt(ram', t.root, va, l) == Some(f) && Entry(ram', f, Index(va, l)) == e
      && (Upper(ram', t.root, va, l, b) <==> Upper(ram, t.root, va, l, b))
  {
    hide Upper, Entry, Lookup, HasParent, LinkOwned, TableAt;
    StorePath(cleared, t, f, Index(va, l), e, va);
    var ram' := cleared[f * 512 + Index(va, l) := e];
    TableAtFrame(ram, cleared, t.root, va, l);
    TableAtFrame(cleared, ram', t.root, va, l);
    UpperFrame(ram, cleared, t.root, va, l, b);
    UpperFrame(cleared, ram', t.root, va, l, b);
    EntryAfterStore(cleared, f, Index(va, l), e, f, Index(va, l));
  }

  /** A table that mmap builds at level l lets its path be written through, but not used by
      user code. */
  lemma NewTableUpper(s: State, va: u64, l: nat, f: nat, b: nat)
    requires Inv(s) && l < 3 && Room(s, 1) && TableAt(s.ram, s.tree.root, va, l) == Some(f)
    requires !Present(Entry(s.ram, f, Index(va, l))) && (b == WRITE || b == USER)
    ensures f in s.tree.level && f * 512 + Index(va, l) < |s.ram| && FreeFrame(s) < MAX_WORDS / 512
    ensures var s' := WithTable(s, f, Index(va, l));
      Upper(s'.ram, s'.tree.root, va, l + 1, b) <==> Upper(s.ram, s.tree.root, va, l, b) && b == WRITE
  {
    hide Inv, TableAt, WithTable;
    NewTablePath(s, va, l, f, b);
    TableEntryRights(FreeFrame(s));
  }

  /** One level of mmap. */
  lemma DescendUpper(s: State, va: u64, l: nat, f: nat, b: nat)
    requires Inv(s) && l < 3 && NotLarge(s, va) && Room(s, Missing(s, va)) && (b == WRITE || b == USER)
    requires TableAt(s.ram, s.tree.root, va, l) == Some(f)
    ensures var s' := Descend(s, f, Index(va, l)).0;
      UpperGrant(s', va, b) <==> UpperGrant(s, va, b) && (Missing(s', va) < Missing(s, va) ==> b == WRITE)
  {
    hide Upper, Inv, Walk;
    if !Present(Entry(s.ram, f, Index(va, l))) {
      AbsentIsMissing(s, va, l, f);
      NewTableUpper(s, va, l, f, b);
      DescendNew(s, va, l, f);
      FreshFrame(s);
      DescendIsNew(s, f, Index(va, l));
    }
  }

  /** The three levels together: the page table of va is reached with the rights of the entries
      that were there, and of those that were not only with the right to write. */
  lemma PageTableUpper(s: State, va: u64, b: nat)
    requires Inv(s) && NotLarge(s, va) && Room(s, Missing(s, va)) && (b == WRITE || b == USER)
    ensures var s' := PageTable(s, va).0;
      Upper(s'.ram, s'.tree.root, va, 3, b) <==> UpperGrant(s, va, b) && (Missing(s, va) > 0 ==> b == WRITE)
  {
    hide Descend, Inv, Upper, Missing, UpperGrant, TableAt;
    RootReached(s, va);
    DescendStep(s, va, 0, s.tree.root);
    DescendUpper(s, va, 0, s.tree.root, b);
    var (s1, pdpt) := Descend(s, s.tree.root, Index(va, 0));
    DescendStep(s1, va, 1, pdpt);
    DescendUpper(s1, va, 1, pdpt, b);
    var (s2, pd) := Descend(s1, pdpt, Index(va, 1));
    DescendStep(s2, va, 2, pd);
    DescendUpper(s2, va, 2, pd, b);
    var (s3, pt) := Descend(s2, pd, Index(va, 2));
    ReachedGrant(s3, va, b);
    MissingFalls(s, s1, s2, s3, va);
  }

  lemma RootReached(s: State, va: u64)
    ensures TableAt(s.ram, s.tree.root, va, 0) == Some(s.tree.root)
  {
  }

  lemma ReachedGrant(s: State, va: u64, b: nat)
    requires TableAt(s.ram, s.tree.root, va, 3).Some?
    ensures Missing(s, va) == 0 && (UpperGrant(s, va, b) <==> Upper(s.ram, s.tree.root, va, 3, b))
  {
  }

  lemma MissingFalls(s: State, s1: State, s2: State, s3: State, va: u64)
    requires s.used <= s1.used <= s2.used <= s3.used && Missing(s3, va) == 0
    requires |s1.used| + Missing(s1, va) == |s.used| + Missing(s, va)
    requires |s2.used| + Missing(s2, va) == |s1.used| + Missing(s1, va)
    requires |s3.used| + Missing(s3, va) == |s2.used| + Missing(s2, va)
    ensures Missing(s, va) >= Missing(s1, va) >= Missing(s2, va) >= 0
  {
    SubsetSize(s.used, s1.used);
    SubsetSize(s1.used, s2.used);
    SubsetSize(s2.used, s3.used);
  }

  // ----- The leaf --------------------------------------------------------------------

  lemma LeafEntryRights(pa: u64, flags: u64, b: nat)
    requires b == WRITE || b == USER
    ensures Bit(LeafEntry(pa, flags), b) <==> Bit(flags, b)
  {
    var a, h, low := pa / 0x1000, flags / 0x1000, flags % 0x1000;
    LowBitsSum(a, low);
    LowBitsSum(h, low);
    FlagsLow(flags);
    PageOf(pa);
  }

  lemma PageOf(pa: nat)
    ensures pa - pa % 0x1000 == 0x1000 * (pa / 0x1000)
  {
  }

  lemma FlagsLow(flags: nat)
    ensures flags == 0x1000 * (flags / 0x1000) + flags % 0x1000 && flags % 2 == flags % 0x1000 % 2
  {
    var q, low := flags / 0x1000, flags % 0x1000;
    assert flags == 2 * (0x800 * q) + low;
  }

  /** Bits 1 and 2 of an entry are those of its low part. */
  lemma LowBitsSum(a: nat, low: nat)
    ensures Bit(0x1000 * a + low, 1) == Bit(low, 1) == Bit(0x1000 * a + (low - low % 2) + 1, 1)
    ensures Bit(0x1000 * a + low, 2) == Bit(low, 2) == Bit(0x1000 * a + (low - low % 2) + 1, 2)
  {
    var x := 0x1000 * a + low;
    assert x / 2 == 0x800 * a + low / 2 && (0x1000 * a + (low - low % 2) + 1) / 2 == 0x800 * a + low / 2;
    Even(0x400 * a, low / 2);
    assert (0x800 * a + low / 2) / 2 == 0x400 * a + low / 2 / 2;
    Even(0x200 * a, low / 2 / 2);
    assert Bit(x, 1) == Bit(x / 2, 0) && Bit(x, 2) == Bit(x / 2, 1) == Bit(x / 2 / 2, 0);
    assert Bit(low, 1) == Bit(low / 2, 0) && Bit(low, 2) == Bit(low / 2, 1) == Bit(low / 2 / 2, 0);
    var y := 0x1000 * a + (low - low % 2) + 1;
    assert Bit(y, 1) == Bit(y / 2, 0) && Bit(y, 2) == Bit(y / 2, 1) == Bit(y / 2 / 2, 0);
  }

  lemma Even(h: nat, x: nat)
    ensures (2 * h + x) % 2 == x % 2
  {
  }

  /** What mmap grants: the right to write if its flags and all entries that were on the path
      grant it; access from user code if, besides, no table had to be built, for mmap builds
      them without the user bit. */
  lemma MmapRights(s: State, va: u64, pa: u64, flags: u64, b: nat)
    requires Inv(s) && NotLarge(s, va) && Room(s, Missing(s, va)) && (b == WRITE || b == USER)
    ensures May(Mmap(s, va, pa, flags), va, b)
            <==> Bit(flags, b) && UpperGrant(s, va, b) && (Missing(s, va) > 0 ==> b == WRITE)
  {
    hide Inv, Upper, Missing, UpperGrant, Grants, PageTable, LeafEntry, TableAt, Bit;
    PageTableEffect(s, va);
    PageTableUpper(s, va, b);
    var (s1, pt) := PageTable(s, va);
    LeafEntryPresent(pa, flags);
    LeafEntryRights(pa, flags, b);
    LeafGrants(s1, va, LeafEntry(pa, flags), b);
  }

  lemma LeafGrants(s: State, va: u64, e: u64, b: nat)
    requires Inv(s) && TableAt(s.ram, s.tree.root, va, 3).Some? && Present(e)
    ensures var k := TableAt(s.ram, s.tree.root, va, 3).value * 512 + Index(va, 3);
      Grants(Store(s.ram, k, e), s.tree.root, 0, va, b) <==> Upper(s.ram, s.tree.root, va, 3, b) && Bit(e, b)
  {
    hide Upper;
    var f, i, root := TableAt(s.ram, s.tree.root, va, 3).value, Index(va, 3), s.tree.root;
    TableAtOwned(s.ram, s.tree, va, 3);
    StorePath(s.ram, s.tree, f, i, e, va);
    var ram' := s.ram[f * 512 + i := e];
    UpperFrame(s.ram, ram', root, va, 3, b);
    TableAtFrame(s.ram, ram', root, va, 3);
    EntryAfterStore(s.ram, f, i, e, f, i);
    GrantsVia(ram', root, va, 3, b);
  }

  // ----- Every other page ------------------------------------------------------------

  /** A table linked under an absent entry grants and takes nothing. */
  lemma LinkGrants(ram: seq<u64>, t: Tree, f: nat, i: nat, n: nat, e: u64, va: u64, b: nat)
    requires WellFormed(ram, t) && CanLink(ram, t, f, i, n, e)
    ensures Grants(ram[f * 512 + i := e], t.root, 0, va, b) <==> Grants(ram, t.root, 0, va, b)
  {
    hide Upper;
    var ram', l := ram[f * 512 + i := e], t.level[f];
    StorePath(ram, t, f, i, e, va);
    if TableAt(ram, t.root, va, l) == Some(f) && Index(va, l) == i {
      TableAtFrame(ram, ram', t.root, va, l);
      GrantsVia(ram, t.root, va, l, b);
      GrantsVia(ram', t.root, va, l, b);
      EntryAfterStore(ram, f, i, e, n, Index(va, l + 1));
      EntryAfterStore(ram, f, i, e, f, i);
      ZeroIsAbsent();
    } else {
      GrantsFrame(ram, ram', t.root, va, 0, b);
    }
  }

  lemma DescendGrants(s: State, va: u64, l: nat, f: nat, vb: u64, b: nat)
    requires Inv(s) && l < 3 && NotLarge(s, va) && Room(s, Missing(s, va))
    requires TableAt(s.ram, s.tree.root, va, l) == Some(f)
    ensures May(Descend(s, f, Index(va, l)).0, vb, b) <==> May(s, vb, b)
  {
    hide Grants, Walk, Owned;
    if !Present(Entry(s.ram, f, Index(va, l))) {
      AbsentIsMissing(s, va, l, f);
      TableAtOwned(s.ram, s.tree, va, l);
      FreshFrame(s);
      DescendIsNew(s, f, Index(va, l));
      NewTableLink(s, f, Index(va, l));
      var c := FreeFrame(s);
      ClearOutside(s.ram, s.tree, c);
      ClearKeepsPath(s, c, vb);
      GrantsFrame(s.ram, ClearFrame(s.ram, c), s.tree.root, vb, 0, b);
      LinkGrants(ClearFrame(s.ram, c), s.tree, f, Index(va, l), c, TableEntry(c), vb, b);
    }
  }

  lemma PageTableGrants(s: State, va: u64, vb: u64, b: nat)
    requires Inv(s) && NotLarge(s, va) && Room(s, Missing(s, va))
    ensures May(PageTable(s, va).0, vb, b) <==> May(s, vb, b)
  {
    hide Descend, Inv, Missing, TableAt, May;
    RootReached(s, va);
    DescendStep(s, va, 0, s.tree.root);
    DescendGrants(s, va, 0, s.tree.root, vb, b);
    var (s1, pdpt) := Descend(s, s.tree.root, Index(va, 0));
    DescendStep(s1, va, 1, pdpt);
    DescendGrants(s1, va, 1, pdpt, vb, b);
    var (s2, pd) := Descend(s1, pdpt, Index(va, 1));
    DescendStep(s2, va, 2, pd);
    DescendGrants(s2, va, 2, pd, vb, b);
  }

  lemma LeafElsewhere(s: State, va: u64, e: u64, vb: u64, b: nat)
    requires Inv(s) && TableAt(s.ram, s.tree.root, va, 3).Some? && Vpn(vb) != Vpn(va)
    ensures var k := TableAt(s.ram, s.tree.root, va, 3).value * 512 + Index(va, 3);
      May(s.(ram := Store(s.ram, k, e)), vb, b) <==> May(s, vb, b)
  {
    hide Grants, Owned;
    var f, i, root := TableAt(s.ram, s.tree.root, va, 3).value, Index(va, 3), s.tree.root;
    TableAtOwned(s.ram, s.tree, va, 3);
    StorePath(s.ram, s.tree, f, i, e, vb);
    if TableAt(s.ram, root, vb, 3) == Some(f) {
      NoSharing(s.ram, s.tree, va, 3, vb, 3);
      SamePage(va, vb);
    }
    GrantsFrame(s.ram, s.ram[f * 512 + i := e], root, vb, 0, b);
  }

  /** mmap changes the rights of no other page, unmap takes those of its own and of no other. */
  lemma MmapElsewhere(s: State, va: u64, pa: u64, flags: u64, vb: u64, b: nat)
    requires Inv(s) && NotLarge(s, va) && Room(s, Missing(s, va)) && Vpn(vb) != Vpn(va)
    ensures May(Mmap(s, va, pa, flags), vb, b) <==> May(s, vb, b)
  {
    hide Inv, Missing, TableAt, May, PageTable, LeafEntry;
    PageTableEffect(s, va);
    PageTableGrants(s, va, vb, b);
    LeafElsewhere(PageTable(s, va).0, va, LeafEntry(pa, flags), vb, b);
  }

  lemma UnmapRights(s: State, va: u64, vb: u64, b: nat)
    requires Inv(s) && NotLarge(s, va)
    ensures May(Unmap(s, va), vb, b) <==> Vpn(vb) != Vpn(va) && May(s, vb, b)
  {
    hide Inv, Grants;
    if Vpn(vb) == Vpn(va) {
      UnmapEffect(s, va);
      FaultGrantsNothing(Unmap(s, va).ram, s.tree.root, 0, vb, b);
    } else if TableAt(s.ram, s.tree.root, va, 3).Some? {
      LeafElsewhere(s, va, 0, vb, b);
    }
  }

  lemma {:induction false} FaultGrantsNothing(ram: seq<u64>, f: nat, l: nat, va: u64, b: nat)
    requires l < 4 && Lookup(ram, f, l, va) == Fault
    ensures !Grants(ram, f, l, va, b)
    decreases 4 - l
  {
    var e := Entry(ram, f, Index(va, l));
    if IsLink(e, l) { FaultGrantsNothing(ram, Frame(e), l + 1, va, b); }
  }

  // ----- Every run -------------------------------------------------------------------

  lemma {:induction false} SameGrants(ram: seq<u64>, f: nat, l: nat, va: u64, vb: u64, b: nat)
    requires l < 4 && forall k :: 0 <= k < 4 ==> Index(va, k) == Index(vb, k)
    ensures Grants(ram, f, l, va, b) == Grants(ram, f, l, vb, b)
    decreases 4 - l
  {
    var e := Entry(ram, f, Index(va, l));
    if IsLink(e, l) { SameGrants(ram, Frame(e), l + 1, va, vb, b); }
  }

  /** Stores into a page of a caller's grant and take nothing. */
  lemma OutsideGrants(s: State, ram': seq<u64>, g: nat, va: u64, b: nat)
    requires Inv(s) && g in s.owned
    requires forall f, w :: f != g && 0 <= w < 512 ==> Entry(ram', f, w) == Entry(s.ram, f, w)
    ensures Grants(ram', s.tree.root, 0, va, b) == May(s, va, b)
  {
    hide Grants;
    forall k | 0 <= k < 4 { TableAtOwned(s.ram, s.tree, va, k); }
    CallerPageIsNoTable(s, g);
    GrantsFrame(s.ram, ram', s.tree.root, va, 0, b);
  }

  /** What the last mmap or unmap of va's page granted, if there was one. */
  predicate LastGrant(s: State, ops: seq<Op>, va: u64, b: nat) {
    if ops == [] then May(s, va, b)
    else
      var before, op := ops[..|ops| - 1], ops[|ops| - 1];
      if !Touches(op, va) then LastGrant(s, before, va, b)
      else op.MapOp? && MmapGrants(Exec(s, before), op.va, op.flags, b)
  }

  /** What an mmap grants in the state it finds. */
  predicate MmapGrants(s: State, va: u64, flags: u64, b: nat) {
    Bit(flags, b) && UpperGrant(s, va, b) && (Missing(s, va) > 0 ==> b == WRITE)
  }

  lemma StepRights(s: State, op: Op, va: u64, b: nat)
    requires Inv(s) && Allowed(s, op) && (b == WRITE || b == USER)
    ensures May(Step(s, op), va, b)
            <==> if Touches(op, va) then op.MapOp? && MmapGrants(s, op.va, op.flags, b) else May(s, va, b)
  {
    hide Inv, Grants, Mmap, Unmap, UpperGrant, Missing;
    match op
    case MapOp(v, pa, flags) =>
      if Vpn(v) == Vpn(va) {
        MmapRights(s, v, pa, flags, b);
        SamePage(v, va);
        SameGrants(Mmap(s, v, pa, flags).ram, Mmap(s, v, pa, flags).tree.root, 0, v, va, b);
      } else {
        MmapElsewhere(s, v, pa, flags, va, b);
      }
    case UnmapOp(v) => UnmapRights(s, v, va, b);
    case FreeOp(f) =>
      KfreeKeeps(s, f);
      OutsideGrants(s, Kfree(s, f).ram, f, va, b);
    case WriteOp(f, w, x) =>
      WriteKeeps(s, f, w, x);
      OutsideGrants(s, Write(s, f, w, x).ram, f, va, b);
    case AllocOp =>
    case KallocOp(_) =>
  }

  /** After every run a page has the rights its last mmap granted, in the state that found. */
  lemma {:induction false} RunRights(s: State, ops: seq<Op>, va: u64, b: nat)
    requires Inv(s) && AllowedRun(s, ops) && (b == WRITE || b == USER)
    ensures May(Exec(s, ops), va, b) <==> LastGrant(s, ops, va, b)
  {
    hide Inv, May, Step, Allowed;
    if ops != [] {
      RunKeepsInv(s, ops[..|ops| - 1]);
      RunRights(s, ops[..|ops| - 1], va, b);
      StepRights(Exec(s, ops[..|ops| - 1]), ops[|ops| - 1], va, b);
    }
  }
}
