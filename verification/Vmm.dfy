/** vmm.c: mmap and unmap build, walk and edit the page tables in place, in memory that
    they reach through the fixed-offset map. */
module VirtMem {
  import opened Words
  import opened Wrappers
  import opened PageTables
  import opened TableStores
  import opened Kernel
  import opened Boot
  import opened Runs
  import opened Rights
  import opened Address
  import opened PhysMem

  const PAGE_PRESENT: u64 := 1
  const PAGE_RW: u64 := 2
  const PAGE_USER: u64 := 4
  const ADDRESS_MASK: u64 := 0xFFFF_FFFF_FFFF_F000 // ~0xFFF, sign-extended to 64 bits

  // ----- C's bit arithmetic ----------------------------------------------------------

  /** (va >> shift) & 0x1FF is the index the processor uses. */
  lemma IndexMask(x: nat)
    ensures And(x, 0x1FF) == x % 512
  {
    Pow2Sizes();
    AndLow(x, 9);
  }

  lemma IndexMasks(va: u64)
    ensures And(va / 0x80_0000_0000, 0x1FF) == Index(va, 0)
    ensures And(va / 0x4000_0000, 0x1FF) == Index(va, 1)
    ensures And(va / 0x20_0000, 0x1FF) == Index(va, 2)
    ensures And(va / 0x1000, 0x1FF) == Index(va, 3)
  {
    IndexMask(va / 0x80_0000_0000);
    IndexMask(va / 0x4000_0000);
    IndexMask(va / 0x20_0000);
    IndexMask(va / 0x1000);
  }

  lemma AddressMask(e: u64)
    ensures And(e, ADDRESS_MASK) == e - e % 0x1000
  {
    Pow2Sizes();
    AndHigh(e, 12, 64);
  }

  /** PA2VAu64(e & ~0xFFF) points at the frame the processor takes from e, as long as the
      bits above the address are clear. */
  lemma EntryPtr(e: u64)
    requires e < TWO52 && Frame(e) < MAX_FRAMES
    ensures And(e, ADDRESS_MASK) == Frame(e) * 0x1000 && Pa2Va(Frame(e) * 0x1000) == Ptr(Frame(e))
  {
    AddressMask(e);
    assert Frame(e) == e / 0x1000 by { DivModUnique(e, TWO52, 0, e); }
    OffsetMap(0, Frame(e));
  }

  /** The mask leaves bits 52..63 in place: it yields the frame the processor takes from an
      entry if and only if these are clear. */
  lemma EntryMaskIs(e: u64)
    ensures And(e, ADDRESS_MASK) == Frame(e) * 0x1000 <==> e < TWO52
  {
    hide And;
    AddressMask(e);
    FrameAbove(e);
  }

  lemma FrameAbove(e: u64)
    ensures e - e % 0x1000 == e / TWO52 * TWO52 + Frame(e) * 0x1000
  {
    var q, r := e / TWO52, e % TWO52;
    var f, low := r / 0x1000, r % 0x1000;
    assert e == q * TWO52 + r && r == f * 0x1000 + low;
    DivModUnique(e, 0x1000, q * 0x100_0000_0000 + f, low);
  }

  lemma PresentMask(e: u64)
    ensures And(e, PAGE_PRESENT) != 0 <==> Present(e)
  {
  }

  /** The bits of the walk and of the rights are those of the flag constants, and 0x80 is the
      processor's page-size flag. */
  lemma FlagMasks(e: u64)
    ensures And(e, PAGE_RW) != 0 <==> Bit(e, WRITE)
    ensures And(e, PAGE_USER) != 0 <==> Bit(e, USER)
    ensures And(e, 0x80) != 0 <==> PageSize(e)
  {
    OneBit(e, 1);
    OneBit(e, 2);
    OneBit(e, 7);
    assert Pow2(7) == 0x80;
  }

  lemma {:induction false} OneBit(e: nat, k: nat)
    ensures And(e, Pow2(k)) != 0 <==> Bit(e, k)
  {
    if k > 0 { OneBit(e / 2, k - 1); } else { AndZero(e / 2); }
  }

  lemma {:induction false} AndZero(x: nat)
    ensures And(x, 0) == 0
  {
    if x > 0 { AndZero(x / 2); }
  }

  /** VA2PAu64(pdpt) | PAGE_PRESENT | PAGE_RW. */
  lemma TableEntryMask(f: nat)
    requires f < MAX_FRAMES
    ensures Or(Or(f * 0x1000, PAGE_PRESENT), PAGE_RW) == TableEntry(f)
  {
    hide Or;
    OrThree(f * 0x400);
  }

  lemma OrThree(q: nat)
    ensures Or(Or(4 * q, 1), 2) == 4 * q + 3
  {
    hide Or;
    OrOne(4 * q);
    OrTwo(4 * q + 1);
    OrOne(2 * q);
  }

  lemma OrTwo(x: nat)
    requires x % 2 == 1
    ensures Or(x, 2) == 2 * Or(x / 2, 1) + 1
  {
  }

  lemma LowBits(x: u64)
    ensures And(x, 0xFFF) == x % 0x1000
  {
    Pow2Sizes();
    AndLow(x, 12);
  }

  lemma OrOne(x: nat)
    ensures Or(x, 1) == x - x % 2 + 1
  {
  }

  lemma AddEven(x: int, y: int)
    ensures (x + 2 * y) % 2 == x % 2
  {
  }

  lemma OrPageAndFlags(pa: u64, flags: u64)
    ensures Or(pa - pa % 0x1000, flags % 0x1000) == pa - pa % 0x1000 + flags % 0x1000
    ensures (pa - pa % 0x1000 + flags % 0x1000) % 2 == flags % 2
  {
    var a, b, l := pa / 0x1000, flags / 0x1000, flags % 0x1000;
    assert pa - pa % 0x1000 == 0x1000 * a && flags == 0x1000 * b + l;
    assert 0x1000 * a % 0x1000 == 0 by { DivModUnique(0x1000 * a, 0x1000, a, 0); }
    Pow2Sizes();
    OrDisjoint(0x1000 * a, l, 12);
    AddEven(l, 0x800 * a);
    AddEven(l, 0x800 * b);
  }

  /** (pa & ~0xFFF) | (flags & 0xFFF) | PAGE_PRESENT. */
  lemma LeafEntryMask(pa: u64, flags: u64)
    ensures Or(Or(And(pa, ADDRESS_MASK), And(flags, 0xFFF)), PAGE_PRESENT) == LeafEntry(pa, flags)
  {
    AddressMask(pa);
    LowBits(flags);
    OrPageAndFlags(pa, flags);
    var x := pa - pa % 0x1000 + flags % 0x1000;
    OrOne(x);
    assert LeafEntry(pa, flags) == x - x % 2 + 1;
  }

  class Vmm {
    const pmm: Pmm
    const PML4: u64
    ghost var tree: Tree
    ghost var owned: set<nat>

    /** The abstract state of allocator and page tables. */
    ghost function Model(): (r: State)
      reads this, pmm.bitmap, pmm.ram
    {
      StateOf(pmm, pmm.Used(), pmm.ram[..], tree, owned)
    }

    static ghost function StateOf(pmm: Pmm, used: set<nat>, ram: seq<u64>, tree: Tree, owned: set<nat>): (r: State) {
      State(pmm.first, pmm.bitmap_length * 8, pmm.length / 4096, used, ram, tree, owned)
    }

    ghost predicate Valid()
      reads this, pmm.bitmap, pmm.ram
    {
      && pmm.Valid() && Inv(Model())
      && tree.root < MAX_FRAMES && PML4 == Ptr(tree.root)
    }

    /** The memcpy of a page, a word at a time. */
    static method CopyPage(pmm: Pmm, dst: u64, src: u64, ghost d: nat, ghost s: nat)
      requires d < MAX_FRAMES && s < MAX_FRAMES && d != s && dst == Ptr(d) && src == Ptr(s)
      requires (d + 1) * 512 <= pmm.ram.Length && (s + 1) * 512 <= pmm.ram.Length
      modifies pmm.ram
      ensures pmm.ram[..] == CopyFrame(old(pmm.ram[..]), d, s)
    {
      OffsetMap(0, d);
      OffsetMap(0, s);
      var to, from := Va2Pa(dst) / 8, Va2Pa(src) / 8;
      ghost var was := pmm.ram[..];
      for i := 0 to 512
        invariant forall k :: 0 <= k < pmm.ram.Length && !(d * 512 <= k < d * 512 + i) ==> pmm.ram[k] == was[k]
        invariant forall k :: d * 512 <= k < d * 512 + i ==> pmm.ram[k] == CopiedWord(was, d, s, k)
      {
        pmm.ram[to + i] := pmm.ram[from + i];
      }
    }

    /** The kernel's own copy of the root table in frame root. */
    static method CopyRoot(pmm: Pmm, cr3_phys: u64, ghost root: nat) returns (p: u64, ghost c: nat)
      requires pmm.Valid() && root < MAX_FRAMES && cr3_phys == root * 0x1000 && (root + 1) * 512 <= pmm.ram.Length
      requires FirstFree(pmm.Used(), pmm.first, pmm.end) < pmm.end && FirstFree(pmm.Used(), pmm.first, pmm.end) != root
      modifies pmm.bitmap, pmm.ram
      ensures c == FirstFree(old(pmm.Used()), pmm.first, pmm.end)
      ensures c < MAX_FRAMES && p == Ptr(c) && pmm.Used() == old(pmm.Used()) + {c}
      ensures pmm.ram[..] == CopyFrame(old(pmm.ram[..]), c, root)
    {
      OffsetMap(0, root);
      var cr3_virt := Pa2Va(cr3_phys);
      c := FirstFree(pmm.Used(), pmm.first, pmm.end);
      p := pmm.palloc();
      CopyPage(pmm, p, cr3_virt, c, root);
    }

    /** vmm_init: copies the boot loader's root table into a page of the kernel's own. */
    constructor (pmm: Pmm, cr3_phys: u64, ghost boot: Tree, ghost owned: set<nat>)
      requires pmm.Valid() && boot.root < MAX_FRAMES && cr3_phys == boot.root * 0x1000
      requires (boot.root + 1) * 512 <= pmm.ram.Length
      requires FirstFree(pmm.Used(), pmm.first, pmm.end) < pmm.end
      requires FirstFree(pmm.Used(), pmm.first, pmm.end) != boot.root
      modifies pmm.bitmap, pmm.ram
      ensures Rooted() && this.pmm == pmm
      ensures Model() == VmmInit(StateOf(pmm, old(pmm.Used()), old(pmm.ram[..]), boot, owned))
    {
      var p;
      ghost var c;
      p, c := CopyRoot(pmm, cr3_phys, boot.root);
      this.pmm := pmm;
      PML4 := p;
      tree := Reroot(boot, c);
      this.owned := owned;
    }

    /** vmm_init on the boot loader's tables: the kernel's own tables are in order and translate
        every address as the boot loader's did. */
    static method Start(pmm: Pmm, cr3_phys: u64, ghost boot: Tree, ghost owned: set<nat>) returns (vmm: Vmm)
      requires pmm.Valid() && boot.root < MAX_FRAMES && cr3_phys == boot.root * 0x1000
      requires !(pmm.first <= boot.root < pmm.end)
      requires var s := StateOf(pmm, pmm.Used(), pmm.ram[..], boot, owned); Inv(s) && Room(s, 1)
      modifies pmm.bitmap, pmm.ram
      ensures fresh(vmm) && vmm.pmm == pmm && vmm.Valid()
      ensures vmm.Model() == VmmInit(StateOf(pmm, old(pmm.Used()), old(pmm.ram[..]), boot, owned))
      ensures forall va :: Translate(vmm.Model(), va)
                        == Translate(StateOf(pmm, old(pmm.Used()), old(pmm.ram[..]), boot, owned), va)
    {
      hide Inv, VmmInit, Translate;
      ghost var s := StateOf(pmm, pmm.Used(), pmm.ram[..], boot, owned);
      VmmInitReady(s);
      VmmInitEffect(s);
      vmm := new Vmm(pmm, cr3_phys, boot, owned);
    }

    /** Takes the first free page c, zeroes it, and stores the entry for it at word k. */
    method BuildTable(k: nat) returns (next: u64, ghost c: nat)
      requires pmm.Valid() && k < pmm.ram.Length && FirstFree(pmm.Used(), pmm.first, pmm.end) < pmm.end
      modifies pmm.bitmap, pmm.ram
      ensures c == FirstFree(old(pmm.Used()), pmm.first, pmm.end)
      ensures c < MAX_FRAMES && next == Ptr(c) && pmm.Used() == old(pmm.Used()) + {c}
      ensures pmm.ram[..] == ClearFrame(old(pmm.ram[..]), c)[k := TableEntry(c)]
    {
      c := FirstFree(pmm.Used(), pmm.first, pmm.end);
      next := pmm.palloc();
      pmm.ClearPage(next, c);
      OffsetMap(0, c);
      TableEntryMask(c);
      pmm.ram[k] := Or(Or(Va2Pa(next), PAGE_PRESENT), PAGE_RW);
    }

    /** The table that entry i of the table in frame f leads to, 0 if the entry is absent. */
    method FollowEntry(table: u64, i: nat, ghost f: nat) returns (next: u64)
      requires pmm.Valid() && f < MAX_FRAMES && table == Ptr(f) && i < 512 && (f + 1) * 512 <= pmm.ram.Length
      requires var e := Entry(pmm.ram[..], f, i); Present(e) ==> e < TWO52 && Frame(e) < MAX_FRAMES
      ensures var e := Entry(pmm.ram[..], f, i); if Present(e) then next == Ptr(Frame(e)) else next == 0
    {
      OffsetMap(0, f);
      var e := pmm.ram[Va2Pa(table) / 8 + i];
      PresentMask(e);
      if And(e, PAGE_PRESENT) == 0 { return 0; }
      EntryPtr(e);
      next := Pa2Va(And(e, ADDRESS_MASK));
    }

    /** An absent entry (f, i) comes to refer to a new table. */
    method LinkTable(table: u64, i: nat, ghost f: nat) returns (next: u64, ghost c: nat)
      requires pmm.Valid() && f < MAX_FRAMES && table == Ptr(f)
      requires CanDescend(Model(), f, i) && !Present(Entry(pmm.ram[..], f, i))
      modifies pmm.bitmap, pmm.ram, this`tree
      ensures (Model(), c) == Descend(old(Model()), f, i)
      ensures c < MAX_FRAMES && next == Ptr(c)
    {
      OffsetMap(0, f);
      next, c := BuildTable(Va2Pa(table) / 8 + i);
      tree := Grow(tree, f, i, c);
    }

    /** The step mmap repeats at the PML4, PDPT and PD: the next table, built if absent. */
    method NextTable(table: u64, i: nat, ghost f: nat) returns (next: u64, ghost c: nat)
      requires pmm.Valid() && f < MAX_FRAMES && table == Ptr(f)
      requires CanDescend(Model(), f, i)
      modifies pmm.bitmap, pmm.ram, this`tree
      ensures (Model(), c) == Descend(old(Model()), f, i)
      ensures c < MAX_FRAMES && next == Ptr(c)
    {
      c := Frame(Entry(pmm.ram[..], f, i));
      next := FollowEntry(table, i, f);
      if next == 0 {
        next, c := LinkTable(table, i, f);
      }
    }

    /** PML4 points at the root table. */
    ghost predicate Rooted()
      reads this
    {
      pmm.Valid() && tree.root < MAX_FRAMES && PML4 == Ptr(tree.root)
    }

    /** The page table for vaddr, building what is missing above it. */
    method PageTableFor(vaddr: u64) returns (pt: u64, ghost f: nat)
      requires Rooted() && CanMap(Model(), vaddr)
      modifies pmm.bitmap, pmm.ram, this`tree
      ensures (Model(), f) == PageTable(old(Model()), vaddr) && f < MAX_FRAMES && pt == Ptr(f)
    {
      var pml4_index := And(vaddr / 0x80_0000_0000, 0x1FF);
      var pdpt_index := And(vaddr / 0x4000_0000, 0x1FF);
      var pd_index := And(vaddr / 0x20_0000, 0x1FF);
      IndexMasks(vaddr);
      var pdpt, pd;
      ghost var f1, f2;
      pdpt, f1 := NextTable(PML4, pml4_index, tree.root);
      pd, f2 := NextTable(pdpt, pdpt_index, f1);
      pt, f := NextTable(pd, pd_index, f2);
    }

    /** The entry is cleared, then the leaf entry stored. */
    method StoreLeaf(pt: u64, i: nat, paddr: u64, flags: u64, ghost f: nat)
      requires pmm.Valid() && f < MAX_FRAMES && pt == Ptr(f) && i < 512 && (f + 1) * 512 <= pmm.ram.Length
      modifies pmm.ram
      ensures pmm.ram[..] == old(pmm.ram[..])[f * 512 + i := LeafEntry(paddr, flags)]
    {
      OffsetMap(0, f);
      var k := Va2Pa(pt) / 8 + i;
      pmm.ram[k] := 0;
      LeafEntryMask(paddr, flags);
      pmm.ram[k] := Or(Or(And(paddr, ADDRESS_MASK), And(flags, 0xFFF)), PAGE_PRESENT);
    }

    method WriteMapping(vaddr: u64, paddr: u64, flags: u64)
      requires Rooted() && CanMap(Model(), vaddr)
      modifies pmm.bitmap, pmm.ram, this`tree
      ensures Model() == Mmap(old(Model()), vaddr, paddr, flags)
    {
      hide PageTable, CanMap;
      CanMapTable(Model(), vaddr);
      var pt_index := And(vaddr / 0x1000, 0x1FF);
      IndexMasks(vaddr);
      var pt;
      ghost var f;
      pt, f := PageTableFor(vaddr);
      StoreLeaf(pt, pt_index, paddr, flags, f);
    }

    /** Maps the page of vaddr to the page of paddr, and no other. */
    method mmap(vaddr: u64, paddr: u64, flags: u64)
      requires Valid() && NotLarge(Model(), vaddr) && Room(Model(), Missing(Model(), vaddr))
      modifies pmm.bitmap, pmm.ram, this`tree
      ensures Valid() && Model() == Mmap(old(Model()), vaddr, paddr, flags)
      ensures forall va ::
                Translate(Model(), va) == (if Vpn(va) == Vpn(vaddr) then Mapped(3, LeafEntry(paddr, flags))
                                           else Translate(old(Model()), va))
      ensures |pmm.Used()| == old(|pmm.Used()| + Missing(Model(), vaddr))
    {
      ghost var s := Model();
      MmapReady(s, vaddr);
      MmapEffect(s, vaddr, paddr, flags);
      WriteMapping(vaddr, paddr, flags);
      assert Model() == Mmap(s, vaddr, paddr, flags);
    }

    /** The page table for vaddr, 0 if the walk stops short of one. */
    method FindPageTable(vaddr: u64) returns (pt: u64)
      requires Valid() && NotLarge(Model(), vaddr)
      ensures match TableAt(pmm.ram[..], tree.root, vaddr, 3)
        case None => pt == 0
        case Some(f) => f < MAX_FRAMES && (f + 1) * 512 <= pmm.ram.Length && pt == Ptr(f)
    {
      var pml4_index := And(vaddr / 0x80_0000_0000, 0x1FF);
      var pdpt_index := And(vaddr / 0x4000_0000, 0x1FF);
      var pd_index := And(vaddr / 0x20_0000, 0x1FF);
      IndexMasks(vaddr);
      ghost var s := Model();
      DescendFound(s, vaddr, 0);
      var pdpt := FollowEntry(PML4, pml4_index, tree.root);
      if pdpt == 0 { return 0; }
      DescendFound(s, vaddr, 1);
      var pd := FollowEntry(pdpt, pdpt_index, TableAt(s.ram, tree.root, vaddr, 1).value);
      if pd == 0 { return 0; }
      DescendFound(s, vaddr, 2);
      pt := FollowEntry(pd, pd_index, TableAt(s.ram, tree.root, vaddr, 2).value);
    }

    /** Unmaps the page of vaddr, and no other; the allocator is not involved. */
    method unmap(vaddr: u64)
      requires Valid() && NotLarge(Model(), vaddr)
      modifies pmm.ram
      ensures Valid() && Model() == Unmap(old(Model()), vaddr)
      ensures forall va ::
                Translate(Model(), va) == (if Vpn(va) == Vpn(vaddr) then Fault else Translate(old(Model()), va))
    {
      ghost var s := Model();
      var pt_index := And(vaddr / 0x1000, 0x1FF);
      IndexMasks(vaddr);
      UnmapEffect(s, vaddr);
      var pt := FindPageTable(vaddr);
      if pt == 0 { return; }
      OffsetMap(0, TableAt(s.ram, tree.root, vaddr, 3).value);
      pmm.ram[Va2Pa(pt) / 8 + pt_index] := 0;
      assert Model() == Unmap(s, vaddr);
    }

    // ----- What a caller of the allocator sees ---------------------------------------

    method TakeFree() returns (ptr: u64)
      requires pmm.Valid()
      modifies pmm.bitmap, this`owned
      ensures Model() == Palloc(old(Model())).0
      ensures Palloc(old(Model())).1.None? ==> ptr == 0
      ensures Palloc(old(Model())).1.Some? ==> Palloc(old(Model())).1.value < MAX_FRAMES
      ensures Palloc(old(Model())).1.Some? ==> ptr == Ptr(Palloc(old(Model())).1.value)
    {
      ghost var s := Model();
      ptr := pmm.palloc();
      owned := Palloc(s).0.owned;
    }

    /** A caller takes a page with palloc. */
    method TakePage() returns (ptr: u64)
      requires Valid()
      modifies pmm.bitmap, this`owned
      ensures Valid() && Model() == Palloc(old(Model())).0
      ensures Palloc(old(Model())).1.None? ==> ptr == 0
      ensures Palloc(old(Model())).1.Some? ==> Palloc(old(Model())).1.value < MAX_FRAMES
      ensures Palloc(old(Model())).1.Some? ==> ptr == Ptr(Palloc(old(Model())).1.value)
    {
      PallocKeeps(Model());
      ptr := TakeFree();
    }

    method TakeSomeFree(size: u64) returns (ptr: u64)
      requires pmm.Valid()
      modifies pmm.bitmap, this`owned
      ensures Model() == Kalloc(old(Model()), size).0
      ensures Kalloc(old(Model()), size).1.None? ==> ptr == 0
      ensures Kalloc(old(Model()), size).1.Some? ==> Kalloc(old(Model()), size).1.value < MAX_FRAMES
      ensures Kalloc(old(Model()), size).1.Some? ==> ptr == Ptr(Kalloc(old(Model()), size).1.value)
    {
      ghost var s := Model();
      ptr := pmm.kalloc(size);
      owned := Kalloc(s, size).0.owned;
    }

    /** A caller asks kalloc for size bytes: nothing if that is 0 or the pool is full, else the
        least free page. */
    method TakeSome(size: u64) returns (ptr: u64)
      requires Valid()
      modifies pmm.bitmap, this`owned
      ensures Valid() && Model() == Kalloc(old(Model()), size).0
      ensures ptr == 0 <==> size == 0 || |old(pmm.Used())| == old(Model()).n
      ensures ptr == 0 ==> Model() == old(Model())
      ensures ptr != 0 ==> exists f: nat :: f < MAX_FRAMES && ptr == Ptr(f) && Takes(old(Model()), Model(), f)
    {
      PallocKeeps(Model());
      AllocationTakes(Model(), size);
      ptr := TakeSomeFree(size);
    }

    /** A caller gives page f back with kfree. */
    method GiveBack(ptr: u64, ghost f: nat)
      requires Valid() && f in owned && f < MAX_FRAMES && ptr == Ptr(f)
      modifies pmm.bitmap, pmm.ram, this`owned
      ensures Valid() && Model() == Kfree(old(Model()), f)
    {
      ghost var s := Model();
      KfreeKeeps(s, f);
      pmm.kfree(ptr, f);
      owned := Kfree(s, f).owned;
      assert Model() == Kfree(s, f);
    }
  }
}
