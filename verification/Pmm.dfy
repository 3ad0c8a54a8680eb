/**
 The physical frame bitmap of kernel/mem/pmm.c: one bit per 4 KiB frame, 64 bits to a word,
 a count of free frames, and a hint (`curIndex`) below which every word is known to be zero.
 The specification of every operation is a plain set of free frame numbers.
 */
module Pmm {
  import opened Arith

  const PAGE_SIZE: nat := 0x1000
  const TWO20: nat := 0x10_0000
  const TWO32: nat := 0x1_0000_0000
  const TWO64: nat := 0x1_0000_0000_0000_0000

  /** A bitmap word as its 64 bits, least significant first. */
  type Word = w: seq<bool> | |w| == 64 witness seq(64, _ => false)

  /** Count of trailing zeros of a non-zero word. */
  function Ctz(w: Word, from: nat := 0): (j: nat)
    requires from < 64 && exists k :: from <= k < 64 && w[k]
    ensures from <= j < 64 && w[j]
    ensures forall k | from <= k < j :: !w[k]
    decreases 64 - from
  {
    if w[from] then from else Ctz(w, from + 1)
  }

  /** The 32-bit frame number the code computes for an address. */
  function FrameOf(address: nat): (f: nat) { address / PAGE_SIZE % TWO32 }

  function PagesFor(size: nat): (n: nat) { (size + PAGE_SIZE - 1) / PAGE_SIZE }

  /** A sum of two addresses, in 64-bit arithmetic. */
  function Wrapped(x: nat): nat
    requires x < 2 * TWO64
  {
    if x < TWO64 then x else x - TWO64
  }

  /** The page number of an address rounded up; behind the last page comes page 0. */
  function PagesUp(x: nat): nat { if x > TWO64 - PAGE_SIZE then 0 else PagesFor(x) }

  // ---- the specification: a set of free frames --------------------------------------------

  ghost predicate IsLowest(free: set<nat>, f: nat)
  {
    f in free && forall g | g in free :: f <= g
  }

  /** `num` free frames starting at a multiple of `align`. */
  ghost predicate IsRun(free: set<nat>, s: nat, num: nat, align: nat)
    requires align > 0
  {
    s % align == 0 && forall f: nat | s <= f < s + num :: f in free
  }

  /** What taking `num` frames aligned to `align` must do: nothing when there is no such run (or the
      request is empty), and otherwise take the first `taken` frames of the lowest one and no other. */
  ghost predicate TookLowestRun(free: set<nat>, num: nat, align: nat, taken: nat, address: nat, after: set<nat>)
  {
    if num == 0 || align == 0 || forall s: nat :: !IsRun(free, s, num, align) then
      address == 0 && after == free
    else
      && address % PAGE_SIZE == 0
      && IsLowestRun(free, address / PAGE_SIZE, num, align)
      && Took(free, address / PAGE_SIZE, address / PAGE_SIZE + taken, after)
  }

  lemma RunTaken(free: set<nat>, num: nat, align: nat, taken: nat, start: nat, after: set<nat>)
    requires num > 0 && align > 0 && start % PAGE_SIZE == 0
    requires IsLowestRun(free, start / PAGE_SIZE, num, align)
    requires Took(free, start / PAGE_SIZE, start / PAGE_SIZE + taken, after)
    ensures TookLowestRun(free, num, align, taken, start, after)
  {}

  ghost predicate IsLowestRun(free: set<nat>, s: nat, num: nat, align: nat)
    requires align > 0
  {
    IsRun(free, s, num, align) && forall t: nat | t < s :: !IsRun(free, t, num, align)
  }

  /** Exactly the free frames of [lo, hi) are taken. */
  ghost predicate Took(before: set<nat>, lo: nat, hi: nat, after: set<nat>)
  {
    forall f :: f in after <==> f in before && !(lo <= f < hi)
  }

  /** The 32-bit frame numbers of the pages [lo, hi). */
  ghost function Frames(lo: nat, hi: nat): set<nat>
  {
    if hi <= lo then {} else Frames(lo, hi - 1) + {(hi - 1) % TWO32}
  }

  /** Below 2^44 the frame numbers are the page numbers; above, they begin again at 0. */
  lemma {:induction false} FramesBelow(lo: nat, hi: nat)
    requires hi <= TWO32
    ensures forall f :: f in Frames(lo, hi) <==> lo <= f < hi
  {
    if lo < hi { FramesBelow(lo, hi - 1); }
  }

  /** The free set once the pages [lo, hi) are taken. */
  ghost function Taken(before: set<nat>, lo: nat, hi: nat): set<nat> { before - Frames(lo, hi) }

  lemma TakenOneMore(before: set<nat>, lo: nat, hi: nat)
    requires lo <= hi
    ensures Taken(before, lo, hi + 1) == Taken(before, lo, hi) - {hi % TWO32}
  {}

  /** The free set once the pages [lo, hi) are given back to a bitmap of `limit` frames. */
  ghost function Gave(before: set<nat>, lo: nat, hi: nat, limit: nat): set<nat>
  {
    before + set f | f in Frames(lo, hi) && f < limit
  }

  lemma GaveOneMore(before: set<nat>, lo: nat, hi: nat, limit: nat)
    requires lo <= hi
    ensures Gave(before, lo, hi + 1, limit) ==
            Gave(before, lo, hi, limit) + if hi % TWO32 < limit then {hi % TWO32} else {}
  {}

  lemma {:induction false} FramesSmall(lo: nat, hi: nat)
    ensures forall f | f in Frames(lo, hi) :: f < TWO32
  {
    if lo < hi { FramesSmall(lo, hi - 1); }
  }

  /** A region's frame numbers are its page numbers if and only if it ends at or below 2^44. */
  lemma FramesExact(lo: nat, hi: nat)
    requires lo < hi
    ensures (forall f :: f in Frames(lo, hi) <==> lo <= f < hi) <==> hi <= TWO32
  {
    if hi <= TWO32 { FramesBelow(lo, hi); } else { FramesSmall(lo, hi); assert hi - 1 !in Frames(lo, hi); }
  }

  /** The page at 2^44 has the number of the page at 0. */
  lemma HighRegion()
    ensures Frames(TWO32, TWO32 + 1) == {0}
  {
    assert Frames(TWO32, TWO32) == {};
  }

  /** Of a run of a multiple of 2^20 frames nothing is taken: its address is given out, and all stays free. */
  lemma HugeRunStaysFree(free: set<nat>, s: nat, num: nat, align: nat, address: nat, after: set<nat>)
    requires num > 0 && num % TWO20 == 0 && align > 0 && IsRun(free, s, num, align)
    requires TookLowestRun(free, num, align, num % TWO20, address, after)
    ensures IsRun(free, address / PAGE_SIZE, num, align) && after == free
  {
  }

  class FrameBitmap {
    const bitmap: array<Word>
    var curIndex: nat
    var freePages: nat

    ghost var free: set<nat>

    /** The bits are the free set, the count is exact, and no word below the hint holds a free frame. */
    ghost predicate Valid()
      reads this, bitmap
    {
      && 64 * bitmap.Length <= TWO32
      && curIndex <= bitmap.Length
      && freePages == |free|
      && (forall f | f in free :: 64 * curIndex <= f < 64 * bitmap.Length)
      && (forall i, j | 0 <= i < bitmap.Length && 0 <= j < 64 :: bitmap[i][j] <==> 64 * i + j in free)
    }

    constructor (words: nat)
      requires 64 * words <= TWO32
      ensures Valid() && fresh(bitmap) && bitmap.Length == words && free == {}
    {
      bitmap := new Word[words](_ => seq(64, _ => false));
      curIndex, freePages, free := 0, 0, {};
    }

    method FreeFrame(address: nat)
      requires Valid()
      modifies this, bitmap
      ensures Valid()
      ensures var f := address / 4096 % 0x1_0000_0000;
              free == old(free) + (if f < 64 * bitmap.Length then {f} else {})
    {
      var frame := FrameOf(address);
      var index, offset := frame / 64, frame % 64;
      if index >= bitmap.Length { return; }
      if curIndex > index { curIndex := index; }
      if !bitmap[index][offset] {
        bitmap[index] := bitmap[index][offset := true];
        freePages, free := freePages + 1, free + {frame};
      }
    }

    method SetFrame(address: nat)
      requires Valid()
      modifies this`freePages, this`free, bitmap
      ensures Valid()
      ensures free == old(free) - {address / 4096 % 0x1_0000_0000}
    {
      var frame := FrameOf(address);
      var index, offset := frame / 64, frame % 64;
      if index >= bitmap.Length { return; }
      if bitmap[index][offset] {
        assert frame in free;
        bitmap[index] := bitmap[index][offset := false];
        freePages, free := freePages - 1, free - {frame};
      }
    }

    method AllocFrame() returns (address: nat)
      requires Valid()
      modifies this, bitmap
      ensures Valid()
      ensures old(free) == {} ==> address == 0 && free == {}
      ensures old(free) != {} ==>
                && address % PAGE_SIZE == 0
                && IsLowest(old(free), address / PAGE_SIZE)
                && free == old(free) - {address / PAGE_SIZE}
    {
      var i := curIndex;
      while i < bitmap.Length
        invariant curIndex <= i <= bitmap.Length
        invariant forall f | f in free :: 64 * i <= f
      {
        if exists j :: 0 <= j < 64 && bitmap[i][j] {
          address := TakeFirst(i);
          curIndex := i;
          return;
        }
        assert forall f | f in free && f < 64 * (i + 1) :: !bitmap[i][f - 64 * i];
        i := i + 1;
      }
      address := 0;
      assert free == {};
    }

    /** Takes the first free frame of word `i`, below which nothing is free. */
    method TakeFirst(i: nat) returns (address: nat)
      requires Valid() && i < bitmap.Length && (exists j :: 0 <= j < 64 && bitmap[i][j])
      requires forall f | f in free :: 64 * i <= f
      modifies this, bitmap
      ensures Valid() && address % PAGE_SIZE == 0
      ensures IsLowest(old(free), address / PAGE_SIZE) && free == old(free) - {address / PAGE_SIZE}
    {
      var j := Ctz(bitmap[i]);
      address := (i * 64 + j) * PAGE_SIZE;
      PageAddress(i * 64 + j);
      forall g | g in free ensures i * 64 + j <= g {
        assert g >= 64 * (i + 1) || bitmap[i][g - 64 * i];
      }
      SetFrame(address);
    }

    /** The inner loop of the run search, over the 64 bits of word `i`: it goes on with the run of
        `count0` frames at `start0`, and stops as soon as it holds `num` of them. */
    method ScanWord(i: nat, start0: nat, count0: nat, num: nat, bytes: nat, ghost align: nat)
      returns (start: nat, count: nat)
      requires Valid() && i < bitmap.Length
      requires num > 0 && align > 0 && bytes == align * PAGE_SIZE
      requires Progress(free, 64 * i, start0, count0, num, align)
      ensures count <= num
      ensures count < num ==> Progress(free, 64 * (i + 1), start, count, num, align)
      ensures count == num ==>
                && start % PAGE_SIZE == 0
                && start / PAGE_SIZE + num <= 64 * bitmap.Length
                && IsLowestRun(free, start / PAGE_SIZE, num, align)
    {
      start, count := start0, count0;
      var j := 0;
      while j < 64
        invariant 0 <= j <= 64
        invariant Progress(free, 64 * i + j, start, count, num, align)
      {
        ghost var p := 64 * i + j;
        assert bitmap[i][j] <==> p in free;
        if bitmap[i][j] {
          if count == 0 { start := (i * 64 + j) * PAGE_SIZE; }
          ghost var first := p - count;
          assert start == first * PAGE_SIZE;
          AlignedInBytes(first, align);
          if start % bytes != 0 {
            UnalignedStep(free, p, start, count, num, align);
            count := 0;
          } else {
            FreeStep(free, p, start, count, num, align);
            count := count + 1;
          }
          if count == num {
            PageAddress(first);
            return;
          }
        } else {
          TakenStep(free, p, start, count, num, align);
          count := 0;
        }
        j := j + 1;
      }
    }

    /** Lowest aligned run. The products with the page size are 32-bit: an alignment counts modulo 2^20
        pages, and of a run of 2^20 pages or more only the remainder is taken. An alignment that becomes 0
        is divided by at the first free frame. */
    method AllocFrames(num: nat, align: nat) returns (address: nat, fault: bool)
      requires Valid() && num < TWO32 && align < TWO32
      modifies this`freePages, this`free, bitmap
      ensures Valid()
      ensures fault <==> num > 0 && align > 0 && align % TWO20 == 0 && old(free) != {}
      ensures TookLowestRun(old(free), num, align % TWO20, num % TWO20, address, free)
    {
      if num == 0 || align == 0 { return 0, false; }
      var bytes := align * PAGE_SIZE % TWO32;
      ghost var a := align % TWO20;
      WrappedPages(align);
      if bytes == 0 {
        fault := AnyFree();
        return 0, fault;
      }
      fault := false;
      var count: nat, start: nat := 0, 0;
      var i := curIndex;
      NoRunBelow(free, 64 * i, num, a);
      while i < bitmap.Length
        invariant curIndex <= i <= bitmap.Length
        invariant Valid() && free == old(free)
        invariant Progress(free, 64 * i, start, count, num, a)
      {
        start, count := ScanWord(i, start, count, num, bytes, a);
        if count == num {
          Reserve(start, num, a);
          address := start;
          return;
        }
        i := i + 1;
      }
      NoRunAtEnd(free, 64 * bitmap.Length, start, count, num, a);
      address := 0;
    }

    /** The same two loops, as far as the first free frame. */
    method AnyFree() returns (any: bool)
      requires Valid()
      ensures any <==> free != {}
    {
      var i := curIndex;
      while i < bitmap.Length
        invariant curIndex <= i <= bitmap.Length
        invariant forall f | f in free :: 64 * i <= f
      {
        if j :| 0 <= j < 64 && bitmap[i][j] {
          assert 64 * i + j in free;
          return true;
        }
        assert forall f | f in free && f < 64 * (i + 1) :: !bitmap[i][f - 64 * i];
        i := i + 1;
      }
      assert free == {};
      return false;
    }

    method Reserve(start: nat, num: nat, ghost align: nat)
      requires Valid() && num > 0 && align > 0
      requires start % PAGE_SIZE == 0 && start / PAGE_SIZE + num <= 64 * bitmap.Length
      requires IsLowestRun(free, start / PAGE_SIZE, num, align)
      modifies this`freePages, this`free, bitmap
      ensures Valid()
      ensures TookLowestRun(old(free), num, align, num % TWO20, start, free)
    {
      var size := num * PAGE_SIZE % TWO32;
      ReservedPages(start, size, num);
      SetReserved(start, size);
      FramesBelow(start / PAGE_SIZE, start / PAGE_SIZE + num % TWO20);
      RunTaken(old(free), num, align, num % TWO20, start, free);
    }

    /** Takes every frame that [start, start + size) touches; the sums are 64-bit. */
    method SetReserved(start: nat, size: nat)
      requires Valid() && start < TWO64 && size < TWO64
      modifies this`freePages, this`free, bitmap
      ensures Valid()
      ensures free == Taken(old(free), start / PAGE_SIZE, PagesUp(Wrapped(start + size)))
    {
      var end := Wrapped(start + size);
      var addr := start / PAGE_SIZE * PAGE_SIZE;
      RoundedUp(end);
      if end % PAGE_SIZE != 0 { end := Wrapped(end / PAGE_SIZE * PAGE_SIZE + PAGE_SIZE); }
      TakePages(addr, end, start / PAGE_SIZE, PagesUp(Wrapped(start + size)));
    }

    method TakePages(start: nat, end: nat, ghost lo: nat, ghost hi: nat)
      requires Valid() && start == lo * PAGE_SIZE && end == hi * PAGE_SIZE
      modifies this`freePages, this`free, bitmap
      ensures Valid() && free == Taken(old(free), lo, hi)
    {
      var addr := start;
      ghost var k := lo;
      while addr < end
        invariant addr == k * PAGE_SIZE && lo <= k && (k == lo || k <= hi)
        invariant Valid() && free == Taken(old(free), lo, k)
      {
        TakePage(addr, k, lo, old(free));
        addr, k := addr + PAGE_SIZE, k + 1;
      }
      assert k == hi || (k == lo && hi < lo);
    }

    method TakePage(addr: nat, ghost k: nat, ghost lo: nat, ghost before: set<nat>)
      requires Valid() && addr == k * PAGE_SIZE && lo <= k && free == Taken(before, lo, k)
      modifies this`freePages, this`free, bitmap
      ensures Valid() && free == Taken(before, lo, k + 1)
    {
      PageAddress(k);
      TakenOneMore(before, lo, k);
      SetFrame(addr);
    }

    /** Gives back every frame that lies wholly in [start, start + size); small regions are ignored. */
    method SetAvailable(start: nat, size: nat)
      requires Valid() && start < TWO64 && size < TWO64
      modifies this, bitmap
      ensures Valid()
      ensures size < 0x100000 ==> free == old(free)
      ensures size >= 0x100000 ==>
                free == Gave(old(free), PagesUp(start), Wrapped(start + size) / PAGE_SIZE, 64 * bitmap.Length)
    {
      var end, addr := Wrapped(start + size), start;
      if size < 0x100000 { return; }
      end := end / PAGE_SIZE * PAGE_SIZE;
      RoundedUp(addr);
      if addr % PAGE_SIZE != 0 { addr := Wrapped(addr / PAGE_SIZE * PAGE_SIZE + PAGE_SIZE); }
      GivePages(addr, end, PagesUp(start), Wrapped(start + size) / PAGE_SIZE);
    }

    method GivePage(addr: nat, ghost k: nat, ghost lo: nat, ghost before: set<nat>)
      requires Valid() && addr == k * PAGE_SIZE && lo <= k && free == Gave(before, lo, k, 64 * bitmap.Length)
      modifies this, bitmap
      ensures Valid() && free == Gave(before, lo, k + 1, 64 * bitmap.Length)
    {
      PageAddress(k);
      GaveOneMore(before, lo, k, 64 * bitmap.Length);
      FreeFrame(addr);
    }

    method GivePages(start: nat, end: nat, ghost lo: nat, ghost hi: nat)
      requires Valid() && start == lo * PAGE_SIZE && end == hi * PAGE_SIZE
      modifies this, bitmap
      ensures Valid() && free == Gave(old(free), lo, hi, 64 * bitmap.Length)
    {
      var addr := start;
      ghost var k := lo;
      while addr < end
        invariant addr == k * PAGE_SIZE && lo <= k && (k == lo || k <= hi)
        invariant Valid() && free == Gave(old(free), lo, k, 64 * bitmap.Length)
      {
        GivePage(addr, k, lo, old(free));
        addr, k := addr + PAGE_SIZE, k + 1;
      }
      assert k == hi || (k == lo && hi < lo);
    }
  }

  // ---- the run search ------------------------------------------------------------------------

  /** Before looking at frame `p`: the last `count` frames form an aligned beginning of a run, and
      no run starts below them. */
  ghost predicate Progress(free: set<nat>, p: nat, start: nat, count: nat, num: nat, align: nat)
    requires align > 0
  {
    && count < num && count <= p
    && (forall t: nat | t < p - count :: !IsRun(free, t, num, align))
    && (count > 0 ==>
          && start == (p - count) * PAGE_SIZE
          && (p - count) % align == 0
          && forall f: nat | p - count <= f < p :: f in free)
  }

  lemma UnalignedStep(free: set<nat>, p: nat, start: nat, count: nat, num: nat, align: nat)
    requires align > 0 && num > 0 && count == 0 && p % align != 0
    requires forall t: nat | t < p :: !IsRun(free, t, num, align)
    ensures Progress(free, p + 1, start, 0, num, align)
  {}

  lemma TakenStep(free: set<nat>, p: nat, start: nat, count: nat, num: nat, align: nat)
    requires align > 0 && p !in free
    requires Progress(free, p, start, count, num, align)
    ensures Progress(free, p + 1, start, 0, num, align)
  {
    forall t: nat | t < p + 1 ensures !IsRun(free, t, num, align) {
      if t >= p - count { assert t <= p < t + num; }
    }
  }

  lemma FreeStep(free: set<nat>, p: nat, start: nat, count: nat, num: nat, align: nat)
    requires align > 0 && p in free && count < num && count <= p
    requires start == (p - count) * PAGE_SIZE && (p - count) % align == 0
    requires forall t: nat | t < p - count :: !IsRun(free, t, num, align)
    requires forall f: nat | p - count <= f < p :: f in free
    ensures count + 1 < num ==> Progress(free, p + 1, start, count + 1, num, align)
    ensures count + 1 == num ==> IsLowestRun(free, p - count, num, align)
  {}

  lemma NoRunBelow(free: set<nat>, p: nat, num: nat, align: nat)
    requires align > 0 && num > 0
    requires forall f | f in free :: p <= f
    ensures Progress(free, p, 0, 0, num, align)
  {
    forall t: nat | t < p ensures !IsRun(free, t, num, align) { assert t !in free; }
  }

  lemma NoRunAtEnd(free: set<nat>, p: nat, start: nat, count: nat, num: nat, align: nat)
    requires align > 0 && Progress(free, p, start, count, num, align)
    requires forall f | f in free :: f < p
    ensures TookLowestRun(free, num, align, num % TWO20, 0, free)
  {
    forall t: nat ensures !IsRun(free, t, num, align) {
      if t >= p - count { assert t + num - 1 !in free; }
    }
  }

  lemma AlignedInBytes(f: nat, align: nat)
    requires align > 0
    ensures f * PAGE_SIZE % (align * PAGE_SIZE) == 0 <==> f % align == 0
  {
    var q, r := f / align, f % align;
    assert f * PAGE_SIZE == q * (align * PAGE_SIZE) + r * PAGE_SIZE;
    DivUnique(f * PAGE_SIZE, align * PAGE_SIZE, q, r * PAGE_SIZE);
  }

  /** Rounding up by the masked addition equals rounding up by division. */
  lemma RoundedUp(x: nat)
    requires x < TWO64
    ensures x / PAGE_SIZE * PAGE_SIZE + PAGE_SIZE <= TWO64
    ensures (if x % PAGE_SIZE != 0 then Wrapped(x / PAGE_SIZE * PAGE_SIZE + PAGE_SIZE) else x) == PagesUp(x) * PAGE_SIZE
  {}

  lemma WrappedPages(n: nat)
    ensures n * PAGE_SIZE % TWO32 == n % TWO20 * PAGE_SIZE
  {}

  lemma ReservedPages(start: nat, size: nat, num: nat)
    requires start % PAGE_SIZE == 0 && size == num * PAGE_SIZE % TWO32
    ensures PagesFor(start + size) == start / PAGE_SIZE + num % TWO20
    ensures start / PAGE_SIZE + num <= TWO32 ==> start + size <= PAGE_SIZE * TWO32
  {
    WrappedPages(num);
  }

  lemma PageAddress(f: nat)
    ensures f * PAGE_SIZE / PAGE_SIZE == f && f * PAGE_SIZE % PAGE_SIZE == 0
    ensures FrameOf(f * PAGE_SIZE) == f % TWO32
    ensures PagesFor(f * PAGE_SIZE) == f
  {}
}
