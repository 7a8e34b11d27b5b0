/** What single stores into memory do to translation: the frame arguments behind
    mmap, unmap and every write a caller makes to its own pages. */
module TableStores {
  import opened Words
  import opened Wrappers
  import opened PageTables

  ghost predicate SameEntriesOnPath(ram: seq<u64>, ram': seq<u64>, root: nat, va: u64, from: nat, to: nat)
    requires to <= 4
  {
    forall k :: from <= k < to && TableAt(ram, root, va, k).Some? ==>
      var g := TableAt(ram, root, va, k).value;
      Entry(ram', g, Index(va, k)) == Entry(ram, g, Index(va, k))
  }

  /** A walk reads only the entries on its path. */
  lemma LookupFrame(ram: seq<u64>, ram': seq<u64>, root: nat, va: u64, l: nat)
    requires l < 4 && TableAt(ram, root, va, l).Some?
    requires SameEntriesOnPath(ram, ram', root, va, l, 4)
    ensures var f := TableAt(ram, root, va, l).value;
      Lookup(ram', f, l, va) == Lookup(ram, f, l, va)
    decreases 4 - l
  {
  }

  lemma {:induction false} TableAtFrame(ram: seq<u64>, ram': seq<u64>, root: nat, va: u64, l: nat)
    requires l < 4 && SameEntriesOnPath(ram, ram', root, va, 0, l)
    ensures TableAt(ram', root, va, l) == TableAt(ram, root, va, l)
  {
    if l > 0 { TableAtFrame(ram, ram', root, va, l - 1); }
  }

  /** A walk that reaches a table continues from it. */
  lemma {:induction false} WalkVia(ram: seq<u64>, root: nat, va: u64, l: nat)
    requires l < 4 && TableAt(ram, root, va, l).Some?
    ensures Walk(ram, root, va) == Lookup(ram, TableAt(ram, root, va, l).value, l, va)
  {
    if l > 0 { WalkVia(ram, root, va, l - 1); }
  }

  lemma EntryAfterStore(ram: seq<u64>, f: nat, i: nat, e: u64, g: nat, j: nat)
    requires i < 512 && j < 512 && f * 512 + i < |ram|
    ensures Entry(ram[f * 512 + i := e], g, j) == if (g, j) == (f, i) then e else Entry(ram, g, j)
  {
  }

  /** The words of the tables are all that matters. */
  lemma OutsideTables(ram: seq<u64>, ram': seq<u64>, t: Tree)
    requires WellFormed(ram, t) && |ram'| == |ram|
    requires forall f, i :: f in t.level && 0 <= i < 512 ==> Entry(ram', f, i) == Entry(ram, f, i)
    ensures WellFormed(ram', t)
  {
    forall f, i | f in t.level && 0 <= i < 512 ensures LinkOwned(ram', t, f, i) {
      assert LinkOwned(ram, t, f, i);
    }
    forall c | c in t.level && c != t.root ensures HasParent(ram', t, c) {
      assert HasParent(ram, t, c);
    }
  }

  lemma OutsideTablesWalk(ram: seq<u64>, ram': seq<u64>, t: Tree, va: u64)
    requires WellFormed(ram, t)
    requires forall f, i :: f in t.level && 0 <= i < 512 ==> Entry(ram', f, i) == Entry(ram, f, i)
    ensures Walk(ram', t.root, va) == Walk(ram, t.root, va)
    ensures forall l :: 0 <= l < 4 ==> TableAt(ram', t.root, va, l) == TableAt(ram, t.root, va, l)
  {
    forall k | 0 <= k < 4 { TableAtOwned(ram, t, va, k); }
    LookupFrame(ram, ram', t.root, va, 0);
    forall l | 0 <= l < 4 { TableAtFrame(ram, ram', t.root, va, l); }
  }

  /** The tree after entry (f, i) starts to refer to the new table n. */
  function Grow(t: Tree, f: nat, i: nat, n: nat): (r: Tree)
    requires f in t.level
  {
    t.(level := t.level[n := t.level[f] + 1], parent := t.parent[n := (f, i)])
  }

  /** Frame n is fresh and zeroed, and e is an entry for it that may replace the absent (f, i). */
  ghost predicate CanLink(ram: seq<u64>, t: Tree, f: nat, i: nat, n: nat, e: u64) {
    && f in t.level && t.level[f] < 3 && i < 512 && (f + 1) * 512 <= |ram|
    && !Present(Entry(ram, f, i))
    && n !in t.level && (n + 1) * 512 <= |ram| && (forall j :: 0 <= j < 512 ==> Entry(ram, n, j) == 0)
    && IsLink(e, t.level[f]) && e < TWO52 && Frame(e) == n
  }

  /** Linking a zeroed frame under an absent entry keeps the tree ... */
  lemma LinkTree(ram: seq<u64>, t: Tree, f: nat, i: nat, n: nat, e: u64)
    requires WellFormed(ram, t) && CanLink(ram, t, f, i, n, e)
    ensures WellFormed(ram[f * 512 + i := e], Grow(t, f, i, n))
  {
    var ram', t' := ram[f * 512 + i := e], Grow(t, f, i, n);
    ZeroIsAbsent();
    forall g, j | g in t'.level && 0 <= j < 512 ensures LinkOwned(ram', t', g, j) {
      EntryAfterStore(ram, f, i, e, g, j);
      if g != n { assert LinkOwned(ram, t, g, j); }
    }
    forall c | c in t'.level && c != t'.root ensures HasParent(ram', t', c) {
      if c != n {
        assert HasParent(ram, t, c);
        EntryAfterStore(ram, f, i, e, t.parent[c].0, t.parent[c].1);
      } else {
        EntryAfterStore(ram, f, i, e, f, i);
      }
    }
  }

  lemma ZeroIsAbsent()
    ensures !Present(0)
  {
  }

  /** A store at (f, i) is on the path of va only if va reaches f and selects i there. */
  lemma StorePath(ram: seq<u64>, t: Tree, f: nat, i: nat, e: u64, va: u64)
    requires WellFormed(ram, t) && f in t.level && i < 512
    ensures f * 512 + i < |ram|
    ensures SameEntriesOnPath(ram, ram[f * 512 + i := e], t.root, va, 0, t.level[f])
    ensures !(TableAt(ram, t.root, va, t.level[f]) == Some(f) && Index(va, t.level[f]) == i) ==>
              SameEntriesOnPath(ram, ram[f * 512 + i := e], t.root, va, 0, 4)
  {
    forall k | 0 <= k < 4 && TableAt(ram, t.root, va, k).Some? ensures
      var g := TableAt(ram, t.root, va, k).value;
      (g, Index(va, k)) != (f, i) ==> Entry(ram[f * 512 + i := e], g, Index(va, k)) == Entry(ram, g, Index(va, k))
    {
      EntryAfterStore(ram, f, i, e, TableAt(ram, t.root, va, k).value, Index(va, k));
    }
    forall k | 0 <= k < 4 { TableAtOwned(ram, t, va, k); }
  }

  /** ... and every translation. */
  lemma LinkWalk(ram: seq<u64>, t: Tree, f: nat, i: nat, n: nat, e: u64, va: u64)
    requires WellFormed(ram, t) && CanLink(ram, t, f, i, n, e)
    ensures Walk(ram[f * 512 + i := e], t.root, va) == Walk(ram, t.root, va)
  {
    var ram', l := ram[f * 512 + i := e], t.level[f];
    StorePath(ram, t, f, i, e, va);
    if TableAt(ram, t.root, va, l) == Some(f) && Index(va, l) == i {
      TableAtFrame(ram, ram', t.root, va, l);
      WalkVia(ram, t.root, va, l);
      WalkVia(ram', t.root, va, l);
      EntryAfterStore(ram, f, i, e, n, Index(va, l + 1));
      EntryAfterStore(ram, f, i, e, f, i);
      ZeroIsAbsent();
      assert Lookup(ram', n, l + 1, va) == Fault;
    } else {
      LookupFrame(ram, ram', t.root, va, 0);
    }
  }

  /** The new table is then on the walk, and the walk ends there. */
  lemma LinkReached(ram: seq<u64>, t: Tree, f: nat, i: nat, n: nat, e: u64, va: u64)
    requires WellFormed(ram, t) && CanLink(ram, t, f, i, n, e)
    requires TableAt(ram, t.root, va, t.level[f]) == Some(f) && Index(va, t.level[f]) == i
    ensures var ram' := ram[f * 512 + i := e];
      && TableAt(ram', t.root, va, t.level[f] + 1) == Some(n)
      && (t.level[f] < 2 ==> TableAt(ram', t.root, va, t.level[f] + 2) == None)
  {
    var ram', l := ram[f * 512 + i := e], t.level[f];
    StorePath(ram, t, f, i, e, va);
    TableAtFrame(ram, ram', t.root, va, l);
    EntryAfterStore(ram, f, i, e, f, i);
    if l < 2 {
      EntryAfterStore(ram, f, i, e, n, Index(va, l + 1));
      ZeroIsAbsent();
    }
  }

  /** A store into a page table changes the translation of exactly the addresses whose
      walk ends at that entry. */
  lemma LeafStore(ram: seq<u64>, t: Tree, vb: u64, e: u64)
    requires WellFormed(ram, t) && TableAt(ram, t.root, vb, 3).Some?
    ensures var f := TableAt(ram, t.root, vb, 3).value;
      var k := f * 512 + Index(vb, 3);
      && f in t.level && k < |ram|
      && WellFormed(ram[k := e], t)
      && forall va :: Walk(ram[k := e], t.root, va) ==
           if Vpn(va) != Vpn(vb) then Walk(ram, t.root, va)
           else if Present(e) then Mapped(3, e) else Fault
  {
    TableAtOwned(ram, t, vb, 3);
    var f, i := TableAt(ram, t.root, vb, 3).value, Index(vb, 3);
    var ram' := ram[f * 512 + i := e];
    forall g: nat, j: nat | j < 512 { EntryAfterStore(ram, f, i, e, g, j); }
    forall g, j | g in t.level && 0 <= j < 512 ensures LinkOwned(ram', t, g, j) {
      assert LinkOwned(ram, t, g, j);
    }
    forall c | c in t.level && c != t.root ensures HasParent(ram', t, c) {
      assert HasParent(ram, t, c);
    }
    forall va: u64 ensures Walk(ram', t.root, va) ==
      if Vpn(va) != Vpn(vb) then Walk(ram, t.root, va) else if Present(e) then Mapped(3, e) else Fault
    {
      SamePage(va, vb);
      StorePath(ram, t, f, i, e, va);
      if Vpn(va) == Vpn(vb) {
        SamePath(ram, t.root, va, vb, 3);
        TableAtFrame(ram, ram', t.root, va, 3);
        WalkVia(ram', t.root, va, 3);
      } else {
        if TableAt(ram, t.root, va, 3) == Some(f) { NoSharing(ram, t, va, 3, vb, 3); }
        assert TableAt(ram, t.root, va, 3) == Some(f) ==> Index(va, 3) != i;
        LookupFrame(ram, ram', t.root, va, 0);
      }
    }
  }
}
