/** The 4-level page tables of vmm.c as words of physical memory, the translation the
    processor derives from them (4-level paging, section 4.5 of the Intel 64 and IA-32
    Software Developer's Manual, Volume 3A), and the ownership tree the tables form. */
module PageTables {
  import opened Words
  import opened Wrappers

  const TWO52 := 0x10_0000_0000_0000

  /** What translating an address yields: the entry that maps it and the level it sits at. */
  datatype Xlat = Fault | Mapped(level: nat, entry: u64)

  /** Frame f occupies words 512*f .. 512*f+511 of ram; words outside memory read as 0. */
  function Entry(ram: seq<u64>, f: nat, i: nat): (r: u64) {
    if f * 512 + i < |ram| then ram[f * 512 + i] else 0
  }

  function Span(l: nat): (s: nat)
    requires l < 4
    ensures s > 0
  {
    [0x80_0000_0000, 0x4000_0000, 0x20_0000, 0x1000][l]
  }

  /** The 9 address bits that select an entry at level l (0 = PML4 .. 3 = page table). */
  function Index(va: u64, l: nat): (i: nat)
    requires l < 4
    ensures i < 512
  {
    va / Span(l) % 512
  }

  /** Bits 12..47: the virtual page number. */
  function Vpn(va: u64): (r: nat) { va / 0x1000 % 0x10_0000_0000 }

  predicate Present(e: u64) { Bit(e, 0) }
  predicate PageSize(e: u64) { Bit(e, 7) }

  /** Present, and refers to a table of the next level rather than to a large page. */
  predicate IsLink(e: u64, l: nat) { l < 3 && Present(e) && (l == 0 || !PageSize(e)) }

  /** Bits 12..51 of an entry: a frame number. */
  function Frame(e: u64): (r: nat) { e % TWO52 / 0x1000 }

  /** The walk from table f of level l. */
  function Lookup(ram: seq<u64>, f: nat, l: nat, va: u64): (r: Xlat)
    requires l < 4
    decreases 4 - l
  {
    var e := Entry(ram, f, Index(va, l));
    if !Present(e) then Fault
    else if IsLink(e, l) then Lookup(ram, Frame(e), l + 1, va)
    else Mapped(l, e)
  }

  function Walk(ram: seq<u64>, root: nat, va: u64): (r: Xlat) { Lookup(ram, root, 0, va) }

  /** The table that the walk of va consults at level l, if it gets that far. */
  function TableAt(ram: seq<u64>, root: nat, va: u64, l: nat): (r: Option<nat>)
    requires l < 4
  {
    if l == 0 then Some(root)
    else match TableAt(ram, root, va, l - 1)
      case None => None
      case Some(f) =>
        var e := Entry(ram, f, Index(va, l - 1));
        if IsLink(e, l - 1) then Some(Frame(e)) else None
  }

  // ----- Ownership -------------------------------------------------------------------

  /** Who owns which table: each table's level, and for all but the root the one entry
      (table, index) that refers to it. */
  datatype Tree = Tree(root: nat, level: map<nat, nat>, parent: map<nat, (nat, nat)>)

  predicate Tables(ram: seq<u64>, t: Tree) {
    && t.root in t.level && t.level[t.root] == 0
    && forall f :: f in t.level ==>
         t.level[f] < 4 && (f + 1) * 512 <= |ram| && (t.level[f] == 0 ==> f == t.root)
  }

  /** Entry (f, i), if it is a link, leads to a table of the next level that counts it as
      its parent. */
  predicate LinkOwned(ram: seq<u64>, t: Tree, f: nat, i: nat)
    requires f in t.level
  {
    var e := Entry(ram, f, i);
    IsLink(e, t.level[f]) ==>
      e < TWO52 && Frame(e) in t.level && t.level[Frame(e)] == t.level[f] + 1 &&
      Frame(e) in t.parent && t.parent[Frame(e)] == (f, i)
  }

  predicate HasParent(ram: seq<u64>, t: Tree, c: nat) {
    && c in t.level && c in t.parent && t.parent[c].0 in t.level && t.parent[c].1 < 512
    && t.level[c] == t.level[t.parent[c].0] + 1
    && var e := Entry(ram, t.parent[c].0, t.parent[c].1);
       IsLink(e, t.level[t.parent[c].0]) && Frame(e) == c
  }

  /** The tables form a tree: every table but the root is referred to by exactly one entry. */
  predicate WellFormed(ram: seq<u64>, t: Tree) {
    && Tables(ram, t)
    && (forall f, i :: f in t.level && 0 <= i < 512 ==> LinkOwned(ram, t, f, i))
    && forall c :: c in t.level && c != t.root ==> HasParent(ram, t, c)
  }

  // ----- Addresses -------------------------------------------------------------------

  /** The page number whose four indices are a, b, c, d. */
  function Join(a: nat, b: nat, c: nat, d: nat): (r: nat) {
    a * 0x800_0000 + b * 0x4_0000 + c * 0x200 + d
  }

  lemma VpnParts(va: u64)
    ensures Vpn(va) == Join(Index(va, 0), Index(va, 1), Index(va, 2), Index(va, 3))
  {
    var p := va / 0x1000;
    assert va / 0x20_0000 == p / 0x200;
    assert va / 0x4000_0000 == p / 0x200 / 0x200;
    assert va / 0x80_0000_0000 == p / 0x200 / 0x200 / 0x200;
    var above := p / 0x200 / 0x200 / 0x200 / 0x200;
    DivModUnique(p, 0x10_0000_0000, above, Join(Index(va, 0), Index(va, 1), Index(va, 2), Index(va, 3)));
  }

  lemma JoinInjective(a: nat, b: nat, c: nat, d: nat, a': nat, b': nat, c': nat, d': nat)
    requires a < 512 && b < 512 && c < 512 && d < 512 && a' < 512 && b' < 512 && c' < 512 && d' < 512
    requires Join(a, b, c, d) == Join(a', b', c', d')
    ensures a == a' && b == b' && c == c' && d == d'
  {
  }

  /** Two addresses lie on one page exactly when all four indices agree. */
  lemma SamePage(va: u64, vb: u64)
    ensures Vpn(va) == Vpn(vb) <==> forall l :: 0 <= l < 4 ==> Index(va, l) == Index(vb, l)
  {
    VpnParts(va);
    VpnParts(vb);
    var va0, va1, va2, va3 := Index(va, 0), Index(va, 1), Index(va, 2), Index(va, 3);
    var vb0, vb1, vb2, vb3 := Index(vb, 0), Index(vb, 1), Index(vb, 2), Index(vb, 3);
    if Vpn(va) == Vpn(vb) {
      JoinInjective(va0, va1, va2, va3, vb0, vb1, vb2, vb3);
    }
  }

  /** Every choice of four indices belongs to some address. */
  lemma JoinHasIndices(a: nat, b: nat, c: nat, d: nat) returns (va: u64)
    requires a < 512 && b < 512 && c < 512 && d < 512
    ensures Index(va, 0) == a && Index(va, 1) == b && Index(va, 2) == c && Index(va, 3) == d
  {
    var p := Join(a, b, c, d);
    va := p * 0x1000;
    assert p < 0x10_0000_0000 && va / 0x1000 == p && Vpn(va) == p;
    VpnParts(va);
    JoinInjective(a, b, c, d, Index(va, 0), Index(va, 1), Index(va, 2), Index(va, 3));
  }

  // ----- The tree determines the walk ------------------------------------------------

  lemma {:induction false} TableAtOwned(ram: seq<u64>, t: Tree, va: u64, l: nat)
    requires WellFormed(ram, t) && l < 4
    ensures TableAt(ram, t.root, va, l).Some? ==>
      var f := TableAt(ram, t.root, va, l).value; f in t.level && t.level[f] == l
  {
    if l > 0 {
      TableAtOwned(ram, t, va, l - 1);
      if TableAt(ram, t.root, va, l - 1).Some? {
        assert LinkOwned(ram, t, TableAt(ram, t.root, va, l - 1).value, Index(va, l - 1));
      }
    }
  }

  /** No table is shared: a table is met at one level only, and only by addresses that
      agree on every index leading to it. */
  lemma {:induction false} NoSharing(ram: seq<u64>, t: Tree, va: u64, l: nat, vb: u64, m: nat)
    requires WellFormed(ram, t) && l < 4 && m < 4
    requires TableAt(ram, t.root, va, l).Some?
    requires TableAt(ram, t.root, va, l) == TableAt(ram, t.root, vb, m)
    ensures l == m
    ensures forall k :: 0 <= k < l ==> Index(va, k) == Index(vb, k)
  {
    hide Index, IsLink, Frame, Tables, HasParent, Entry;
    TableAtOwned(ram, t, va, l);
    TableAtOwned(ram, t, vb, m);
    if l > 0 {
      TableAtOwned(ram, t, va, l - 1);
      TableAtOwned(ram, t, vb, l - 1);
      assert LinkOwned(ram, t, TableAt(ram, t.root, va, l - 1).value, Index(va, l - 1));
      assert LinkOwned(ram, t, TableAt(ram, t.root, vb, l - 1).value, Index(vb, l - 1));
      NoSharing(ram, t, va, l - 1, vb, l - 1);
    }
  }

  /** Every table is in use: some address is translated through it. */
  lemma {:induction false} EveryTableReached(ram: seq<u64>, t: Tree, c: nat) returns (va: u64)
    requires WellFormed(ram, t) && c in t.level
    ensures TableAt(ram, t.root, va, t.level[c]) == Some(c)
    decreases t.level[c]
  {
    if c == t.root {
      va := 0;
    } else {
      var (p, i) := t.parent[c];
      assert HasParent(ram, t, c);
      var vp := EveryTableReached(ram, t, p);
      va := WithIndex(vp, t.level[p], i);
      SamePath(ram, t.root, vp, va, t.level[p]);
    }
  }

  lemma WithIndex(va: u64, l: nat, i: nat) returns (vb: u64)
    requires l < 4 && i < 512
    ensures Index(vb, l) == i && forall k :: 0 <= k < 4 && k != l ==> Index(vb, k) == Index(va, k)
  {
    vb := JoinHasIndices(if l == 0 then i else Index(va, 0), if l == 1 then i else Index(va, 1),
                         if l == 2 then i else Index(va, 2), if l == 3 then i else Index(va, 3));
  }

  lemma {:induction false} SamePath(ram: seq<u64>, root: nat, va: u64, vb: u64, l: nat)
    requires l < 4 && forall k :: 0 <= k < l ==> Index(va, k) == Index(vb, k)
    ensures TableAt(ram, root, va, l) == TableAt(ram, root, vb, l)
  {
    if l > 0 { SamePath(ram, root, va, vb, l - 1); }
  }

  /** A translation depends on the page number only. */
  lemma SameWalk(ram: seq<u64>, f: nat, va: u64, vb: u64, l: nat)
    requires l < 4 && forall k :: 0 <= k < 4 ==> Index(va, k) == Index(vb, k)
    ensures Lookup(ram, f, l, va) == Lookup(ram, f, l, vb)
    decreases 4 - l
  {
  }
}
