/** vmm_init: the kernel moves from the boot loader's root table to a copy of its own. */
module Boot {
  import opened Words
  import opened Wrappers
  import opened PageTables
  import opened TableStores
  import opened Kernel
  import opened Runs

  function CopyFrame(ram: seq<u64>, dst: nat, src: nat): (r: seq<u64>)
    ensures |r| == |ram|
  {
    seq(|ram|, k requires 0 <= k < |ram| => CopiedWord(ram, dst, src, k))
  }

  function CopiedWord(ram: seq<u64>, dst: nat, src: nat, k: nat): (r: u64)
    requires k < |ram|
  {
    if dst * 512 <= k < dst * 512 + 512 then Entry(ram, src, k - dst * 512) else ram[k]
  }

  lemma CopyFrameEntries(ram: seq<u64>, dst: nat, src: nat, g: nat, j: nat)
    requires j < 512 && (dst + 1) * 512 <= |ram|
    ensures Entry(CopyFrame(ram, dst, src), g, j) == Entry(ram, if g == dst then src else g, j)
  {
  }

  /** The tree of t with its root table moved to frame c. */
  function Reroot(t: Tree, c: nat): (r: Tree) {
    Tree(c, (t.level - {t.root})[c := 0],
         map k | k in t.parent :: (if t.parent[k].0 == t.root then c else t.parent[k].0, t.parent[k].1))
  }

  function VmmInit(s: State): (r: State) {
    var c := FreeFrame(s);
    s.(used := s.used + {c}, ram := CopyFrame(s.ram, c, s.tree.root), tree := Reroot(s.tree, c))
  }

  lemma RerootTree(ram: seq<u64>, t: Tree, c: nat)
    requires WellFormed(ram, t) && c !in t.level && (c + 1) * 512 <= |ram|
    ensures WellFormed(CopyFrame(ram, c, t.root), Reroot(t, c))
  {
    var ram', t' := CopyFrame(ram, c, t.root), Reroot(t, c);
    forall f, i | f in t'.level && 0 <= i < 512 ensures LinkOwned(ram', t', f, i) {
      CopyFrameEntries(ram, c, t.root, f, i);
      assert LinkOwned(ram, t, if f == c then t.root else f, i);
    }
    forall k | k in t'.level && k != c ensures HasParent(ram', t', k) {
      assert HasParent(ram, t, k);
      CopyFrameEntries(ram, c, t.root, t'.parent[k].0, t'.parent[k].1);
    }
  }

  lemma RerootWalk(ram: seq<u64>, t: Tree, c: nat, va: u64)
    requires WellFormed(ram, t) && c !in t.level && (c + 1) * 512 <= |ram|
    ensures Walk(CopyFrame(ram, c, t.root), c, va) == Walk(ram, t.root, va)
  {
    var ram' := CopyFrame(ram, c, t.root);
    CopyFrameEntries(ram, c, t.root, c, Index(va, 0));
    var e := Entry(ram, t.root, Index(va, 0));
    if IsLink(e, 0) {
      forall k | 1 <= k < 4 && TableAt(ram, t.root, va, k).Some?
        ensures var g := TableAt(ram, t.root, va, k).value; Entry(ram', g, Index(va, k)) == Entry(ram, g, Index(va, k))
      {
        TableAtOwned(ram, t, va, k);
        CopyFrameEntries(ram, c, t.root, TableAt(ram, t.root, va, k).value, Index(va, k));
      }
      LookupFrame(ram, ram', t.root, va, 1);
    }
  }

  lemma RerootOwned(s: State)
    requires Owned(s) && FreeFrame(s) < s.End() && FreeFrame(s) !in s.owned
    requires s.tree.root in s.tree.level && !(s.base <= s.tree.root < s.End())
    ensures Owned(VmmInit(s))
  {
  }

  lemma RerootUntouched(s: State)
    requires FreeFrame(s) !in s.owned && (FreeFrame(s) + 1) * 512 <= |s.ram|
    ensures CallersUntouched(s, VmmInit(s))
  {
  }

  /** Switching to the copied root changes no translation and leaves the allocator and the
      new tree in agreement. */
  lemma VmmInitEffect(s: State)
    requires Inv(s) && Room(s, 1) && !(s.base <= s.tree.root < s.End())
    ensures var s' := VmmInit(s);
      && Inv(s') && s'.tree.root == FreeFrame(s) && s'.tree.root != s.tree.root
      && (forall va :: Translate(s', va) == Translate(s, va))
      && |s'.used| == |s.used| + 1 && CallersUntouched(s, s')
  {
    FreshFrame(s);
    RerootTree(s.ram, s.tree, FreeFrame(s));
    RerootOwned(s);
    RerootUntouched(s);
    forall va: u64 ensures Translate(VmmInit(s), va) == Translate(s, va) {
      RerootWalk(s.ram, s.tree, FreeFrame(s), va);
    }
  }

  /** From the boot loader's tables through vmm_init and any run: translations are those the boot
      loader left, as mmap and unmap have changed them since. */
  lemma BootThenRun(s: State, ops: seq<Op>, va: u64)
    requires Inv(s) && Room(s, 1) && !(s.base <= s.tree.root < s.End()) && AllowedRun(VmmInit(s), ops)
    ensures Inv(Exec(VmmInit(s), ops))
    ensures Translate(Exec(VmmInit(s), ops), va) == LastWriter(ops, va, Translate(s, va))
  {
    hide VmmInit, Inv, Exec, AllowedRun, LastWriter;
    VmmInitEffect(s);
    RunKeepsInv(VmmInit(s), ops);
    RunTranslates(VmmInit(s), ops, va);
  }

  /** In such a state vmm_init finds what its code relies on. */
  lemma VmmInitReady(s: State)
    requires Inv(s) && Room(s, 1) && !(s.base <= s.tree.root < s.End())
    ensures FreeFrame(s) < s.End() && FreeFrame(s) != s.tree.root
    ensures (s.tree.root + 1) * 512 <= |s.ram|
  {
    FreshFrame(s);
  }
}
