/** The fixed-offset map of KiSimple.c: physical memory appears at HHDM. */
module Address {
  import opened Words
  import opened Kernel

  const HHDM: u64 := 0xFFFF_8000_0000_0000
  const MAX_FRAMES := MAX_WORDS / 512

  /** 64-bit additions and subtractions wrap. */
  function Pa2Va(pa: u64): (r: u64) { (pa + HHDM) % TWO64 }
  function Va2Pa(va: u64): (r: u64) { (va + TWO64 - HHDM) % TWO64 }

  /** Where frame f appears. */
  function Ptr(f: nat): (r: u64)
    requires f < MAX_FRAMES
  {
    HHDM + f * 0x1000
  }

  /** The offset map is a bijection, and within its reach nothing wraps. */
  lemma OffsetMap(x: u64, f: nat)
    ensures Va2Pa(Pa2Va(x)) == x && Pa2Va(Va2Pa(x)) == x
    ensures f < MAX_FRAMES ==> Pa2Va(f * 0x1000) == Ptr(f) && Va2Pa(Ptr(f)) == f * 0x1000
  {
  }
}

/** pmm.c: a bitmap, packed eight pages to a byte, searched first-fit. */
module PhysMem {
  import opened Words
  import opened Wrappers
  import opened PageTables
  import opened Kernel
  import opened Address

  /** Bit i of the bitmap. */
  predicate PageBit(bitmap: seq<u8>, i: nat)
    requires i < |bitmap| * 8
  {
    Bit(bitmap[i / 8], i % 8)
  }

  /** Frame f of a pool that starts at frame base is marked used. */
  predicate Marked(bitmap: seq<u8>, base: nat, f: nat) {
    base <= f < base + |bitmap| * 8 && PageBit(bitmap, f - base)
  }

  function UsedFrames(bitmap: seq<u8>, base: nat): (r: set<nat>) {
    set f: nat | base <= f < base + |bitmap| * 8 && Marked(bitmap, base, f)
  }

  /** Setting bits among the first k. */
  function SetBits(bitmap: seq<u8>, k: nat): (r: nat)
    requires k <= |bitmap| * 8
  {
    if k == 0 then 0 else SetBits(bitmap, k - 1) + if PageBit(bitmap, k - 1) then 1 else 0
  }

  /** The bitmap's population is the number of used frames. */
  lemma {:induction false} SetBitsCount(bitmap: seq<u8>, base: nat, k: nat)
    requires k <= |bitmap| * 8
    ensures |set f | f in UsedFrames(bitmap, base) && f < base + k| == SetBits(bitmap, k)
  {
    var below := set f | f in UsedFrames(bitmap, base) && f < base + k;
    if k == 0 {
      assert below == {};
    } else {
      SetBitsCount(bitmap, base, k - 1);
      var less := set f | f in UsedFrames(bitmap, base) && f < base + (k - 1);
      OneMore(bitmap, base, k, below, less);
    }
  }

  lemma OneMore(bitmap: seq<u8>, base: nat, k: nat, below: set<nat>, less: set<nat>)
    requires 0 < k <= |bitmap| * 8
    requires forall f :: f in below <==> f in UsedFrames(bitmap, base) && f < base + k
    requires forall f :: f in less <==> f in UsedFrames(bitmap, base) && f < base + (k - 1)
    ensures |below| == |less| + if PageBit(bitmap, k - 1) then 1 else 0
  {
    var f := base + (k - 1);
    assert f in UsedFrames(bitmap, base) <==> Marked(bitmap, base, f);
    assert below == if PageBit(bitmap, k - 1) then less + {f} else less;
  }

  /** The mask test of kalloc and palloc. */
  lemma MaskTest(x: u8, k: nat)
    requires k < 8
    ensures And(x, Pow2(k)) == 0 <==> !Bit(x, k)
  {
  }

  lemma {:induction false} Pow2Less(k: nat, w: nat)
    requires k < w
    ensures 2 * Pow2(k) <= Pow2(w)
  {
    if k > 0 { Pow2Less(k - 1, w - 1); }
  }

  /** A one-bit mask or-ed in. */
  function WithBit(x: u8, k: nat): (r: u8)
    requires k < 8
  {
    Pow2Sizes();
    Pow2Less(k, 8);
    OrBound(x, Pow2(k), 8);
    Or(x, Pow2(k))
  }

  /** The complement of a one-bit mask and-ed in. */
  function WithoutBit(x: u8, k: nat): (r: u8)
    requires k < 8
  {
    Pow2Sizes();
    Pow2Less(k, 8);
    AndBound(x, 0xFF - Pow2(k));
    And(x, 0xFF - Pow2(k))
  }

  lemma MaskBits(x: u8, k: nat, j: nat)
    requires k < 8 && j < 8
    ensures Bit(WithBit(x, k), j) <==> Bit(x, j) || j == k
    ensures Bit(WithoutBit(x, k), j) <==> Bit(x, j) && j != k
  {
    Pow2Sizes();
    Pow2Less(k, 8);
    OrBit(x, Pow2(k), j);
    AndBit(x, 0xFF - Pow2(k), j);
    NotBit(Pow2(k), 8, j);
    Pow2Bit(k, j);
  }

  /** The bitmap after the byte that holds bit i is stored back with that bit on or off. */
  function Mark(bitmap: seq<u8>, i: nat, on: bool): (r: seq<u8>)
    requires i < |bitmap| * 8
    ensures |r| == |bitmap|
  {
    bitmap[i / 8 := if on then WithBit(bitmap[i / 8], i % 8) else WithoutBit(bitmap[i / 8], i % 8)]
  }

  lemma MarkFrames(bitmap: seq<u8>, base: nat, i: nat, on: bool)
    requires i < |bitmap| * 8
    ensures UsedFrames(Mark(bitmap, i, on), base)
      == if on then UsedFrames(bitmap, base) + {base + i} else UsedFrames(bitmap, base) - {base + i}
  {
    var bitmap' := Mark(bitmap, i, on);
    forall f | base <= f < base + |bitmap| * 8
      ensures Marked(bitmap', base, f) <==> if f == base + i then on else Marked(bitmap, base, f)
    {
      var j := f - base;
      MaskBits(bitmap[i / 8], i % 8, j % 8);
      assert j / 8 == i / 8 && j % 8 == i % 8 ==> j == i;
    }
  }

  /** Bytes of bitmap for a region of the given length. */
  function BitmapBytes(length: u64): (r: nat) { (length / 4096 + 7) / 8 }

  /** Rounding the bitmap up to whole bytes puts every page of the pool inside the region
      exactly when the region's page count is a multiple of 8. */
  lemma PoolInsideRegion(length: u64)
    ensures (forall i :: 0 <= i < BitmapBytes(length) * 8 ==> PageInside(length, i)) <==> length / 4096 % 8 == 0
  {
    var pages, last := length / 4096, BitmapBytes(length) * 8 - 1;
    if pages % 8 != 0 {
      assert last >= pages && !PageInside(length, last);
    }
  }

  predicate PageInside(length: u64, i: nat) { (i + 1) * 4096 <= length }

  class Pmm {
    const base: u64           // virtual address of the first page
    const length: u64         // bytes in the region
    const bitmap_length: u64  // bytes in the bitmap
    const bitmap: array<u8>
    const ram: array<u64>     // all of physical memory
    ghost const first: nat    // the frame base points at

    ghost const end: nat := first + bitmap_length * 8

    ghost predicate Valid() {
      && ram as object != bitmap && ram.Length <= MAX_WORDS
      && bitmap.Length == bitmap_length == BitmapBytes(length)
      && end * 512 <= ram.Length && base == HHDM + first * 0x1000
      && length % 4096 == 0 && base + length < TWO64
    }

    ghost function Used(): (r: set<nat>)
      reads bitmap
    {
      UsedFrames(bitmap[..], first)
    }

    /** pmm_init: the bitmap for the region, all clear. */
    constructor (ram: array<u64>, largest_base: u64, largest_length: u64)
      requires ram.Length <= MAX_WORDS && HHDM <= largest_base && largest_base % 4096 == 0
      requires largest_length % 4096 == 0 && largest_base + largest_length < TWO64
      requires ((largest_base - HHDM) / 4096 + BitmapBytes(largest_length) * 8) * 512 <= ram.Length
      ensures Valid() && fresh(bitmap) && this.ram == ram
      ensures base == largest_base && length == largest_length && Used() == {}
    {
      this.ram := ram;
      base := largest_base;
      length := largest_length;
      first := (largest_base - HHDM) / 4096;
      var size := (largest_length / 4096 + 7) / 8;
      bitmap_length := size;
      var b := new u8[size];
      for i := 0 to size
        invariant forall k :: 0 <= k < i ==> b[k] == 0
      {
        b[i] := 0;
      }
      bitmap := b;
      new;
      forall f | first <= f < end ensures !Marked(bitmap[..], first, f) {
        ZeroHasNoBits((f - first) % 8);
      }
    }

    /** Bit i is switched on or off in its byte. */
    method StoreBit(i: nat, on: bool)
      requires Valid() && i < bitmap_length * 8
      modifies bitmap
      ensures Used() == if on then old(Used()) + {first + i} else old(Used()) - {first + i}
    {
      MarkFrames(bitmap[..], first, i, on);
      bitmap[i / 8] := if on then WithBit(bitmap[i / 8], i % 8) else WithoutBit(bitmap[i / 8], i % 8);
      assert bitmap[..] == Mark(old(bitmap[..]), i, on);
    }

    method BitmapSetBit(index: u64)
      requires Valid()
      modifies bitmap
      ensures Used() == old(Used()) + if index < bitmap_length * 8 then {first + index} else {}
    {
      if index >= bitmap_length * 8 { return; }
      StoreBit(index, true);
    }

    method BitmapClearBit(index: u64)
      requires Valid()
      modifies bitmap
      ensures Used() == old(Used()) - {first + index}
    {
      if index >= bitmap_length * 8 { return; }
      StoreBit(index, false);
    }

    /** The mask test of the search loops. */
    lemma BitTest(i: nat)
      requires Valid() && i < bitmap_length * 8
      ensures And(bitmap[i / 8], Pow2(i % 8)) == 0 <==> first + i !in Used()
    {
      MaskTest(bitmap[i / 8], i % 8);
      assert first + i in Used() <==> Marked(bitmap[..], first, first + i);
    }

    /** The body of both search loops: test bit i, and set it if it was clear. */
    method TakeIfFree(i: nat) returns (free: bool)
      requires Valid() && i < bitmap_length * 8
      modifies bitmap
      ensures free <==> first + i !in old(Used())
      ensures Used() == if free then old(Used()) + {first + i} else old(Used())
    {
      BitTest(i);
      free := And(bitmap[i / 8], Pow2(i % 8)) == 0;
      if free { StoreBit(i, true); }
    }

    /** The search has reached frame f, the first that is free, or the end. */
    static lemma SearchResult(used: set<nat>, first: nat, f: nat, end: nat)
      requires first <= f <= end && (f < end ==> f !in used)
      requires forall g :: first <= g < f ==> g in used
      ensures FirstFree(used, first, end) == f
    {
    }

    /** The first free page, or 0 when there is none. */
    method palloc() returns (ptr: u64)
      requires Valid()
      modifies bitmap
      ensures var f := FirstFree(old(Used()), first, end);
        if f == end then ptr == 0 && Used() == old(Used())
        else f < MAX_FRAMES && ptr == Ptr(f) && Used() == old(Used()) + {f}
    {
      ghost var used := Used();
      var index := TWO64 - 1;
      var i := 0;
      while i < bitmap_length * 8
        invariant i <= bitmap_length * 8 && index == TWO64 - 1 && Used() == used
        invariant forall f :: first <= f < first + i ==> f in used
      {
        var free := TakeIfFree(i);
        if free {
          index := i;
          break;
        }
        i := i + 1;
      }
      SearchResult(used, first, first + i, end);
      if index == TWO64 - 1 { return 0; }
      return base + index * 4096;
    }

    /** One page, however large the request; 0 when nothing was asked for or none is free. */
    method kalloc(size: u64) returns (ptr: u64)
      requires Valid()
      modifies bitmap
      ensures var f := FirstFree(old(Used()), first, end);
        if size == 0 || f == end then ptr == 0 && Used() == old(Used())
        else f < MAX_FRAMES && ptr == Ptr(f) && Used() == old(Used()) + {f}
    {
      if size == 0 { return 0; }
      ghost var used := Used();
      var i := 0;
      while i < bitmap_length * 8
        invariant i <= bitmap_length * 8 && Used() == used
        invariant forall f :: first <= f < first + i ==> f in used
      {
        var free := TakeIfFree(i);
        if free {
          SearchResult(used, first, first + i, end);
          return base + i * 4096;
        }
        i := i + 1;
      }
      SearchResult(used, first, end, end);
      return 0;
    }

    /** The memset of a page, a word at a time. */
    method ClearPage(ptr: u64, ghost f: nat)
      requires Valid() && f < MAX_FRAMES && ptr == Ptr(f) && (f + 1) * 512 <= ram.Length
      modifies ram
      ensures ram[..] == ClearFrame(old(ram[..]), f)
    {
      OffsetMap(0, f);
      var w := Va2Pa(ptr) / 8;
      for i := 0 to 512
        invariant forall k :: 0 <= k < ram.Length ==> ram[k] == if f * 512 <= k < f * 512 + i then 0 else old(ram[k])
      {
        ram[w + i] := 0;
      }
    }

    /** Clears the bit and the memory of a page of the region; ignores other pointers. */
    method kfree(ptr: u64, ghost f: nat)
      requires Valid() && (base <= ptr < base + length ==> f < MAX_FRAMES && ptr == Ptr(f))
      modifies bitmap, ram
      ensures if base <= ptr < base + length
        then Used() == old(Used()) - {f} && ram[..] == ClearFrame(old(ram[..]), f)
        else Used() == old(Used()) && ram[..] == old(ram[..])
    {
      if ptr == 0 { return; }
      if ptr < base || ptr >= base + length { return; }
      BitmapClearBit((ptr - base) / 4096);
      ClearPage(ptr, f);
    }
  }
}
