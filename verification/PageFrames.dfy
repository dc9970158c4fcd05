/** The bitmap allocator of physical page frames (src/memory.c). */
module PageFrames {
  import opened Bytes

  const PAGE_SIZE := 4096
  const NOT_FOUND := 0xFFFF_FFFF

  // ----- One byte of the bitmap ---------------------------------------------

  function Mask(bit: nat): bv8
    requires bit < 8
  {
    1 << bit
  }

  predicate BitIsSet(b: bv8, bit: nat)
    requires bit < 8
  {
    b & Mask(bit) != 0
  }

  predicate OneBit(m: bv8) {
    m == 1 || m == 2 || m == 4 || m == 8 || m == 16 || m == 32 || m == 64 || m == 128
  }

  lemma MaskIsOneBit(bit: nat)
    requires bit < 8
    ensures OneBit(Mask(bit))
  {
    assert bit == 0 || bit == 1 || bit == 2 || bit == 3 || bit == 4 || bit == 5 || bit == 6 || bit == 7;
  }

  /** Page p has bit p % 8 of its byte, counted from the low end. */
  lemma MaskValues()
    ensures Mask(0) == 1 && Mask(1) == 2 && Mask(2) == 4 && Mask(3) == 8
    ensures Mask(4) == 16 && Mask(5) == 32 && Mask(6) == 64 && Mask(7) == 128
  {
  }

  lemma MasksDiffer(i: nat, j: nat)
    requires i < j < 8
    ensures Mask(i) != Mask(j)
  {
  }

  lemma MaskUpdates(b: bv8, m: bv8, n: bv8)
    requires OneBit(m) && OneBit(n)
    ensures (b | m) & n != 0 <==> m == n || b & n != 0
    ensures (b & !m) & n != 0 <==> m != n && b & n != 0
  {
  }

  /** Setting or clearing one bit leaves the other seven alone. */
  lemma BitUpdates(b: bv8, i: nat, j: nat)
    requires i < 8 && j < 8
    ensures BitIsSet(b | Mask(i), j) <==> i == j || BitIsSet(b, j)
    ensures BitIsSet(b & !Mask(i), j) <==> i != j && BitIsSet(b, j)
  {
    hide Mask, OneBit;
    MaskIsOneBit(i);
    MaskIsOneBit(j);
    MaskUpdates(b, Mask(i), Mask(j));
    if i < j { MasksDiffer(i, j); }
    if j < i { MasksDiffer(j, i); }
  }

  // ----- The bitmap as a sequence -------------------------------------------

  /** Which of the first `total` pages are in use. */
  function Used(bitmap: seq<bv8>, total: nat): (u: seq<bool>)
    requires total <= 8 * |bitmap|
    ensures |u| == total
  {
    seq(total, p requires 0 <= p < total => BitIsSet(bitmap[p / 8], p % 8))
  }

  lemma SameBit(p: nat, q: nat)
    ensures p / 8 == q / 8 && p % 8 == q % 8 <==> p == q
  {
  }

  lemma UsedWith(bitmap: seq<bv8>, total: nat, page: nat, b: bv8, to: bool)
    requires total <= 8 * |bitmap| && page < total
    requires b == if to then bitmap[page / 8] | Mask(page % 8) else bitmap[page / 8] & !Mask(page % 8)
    ensures Used(bitmap[page / 8 := b], total) == Used(bitmap, total)[page := to]
  {
    hide Mask, BitIsSet;
    var now := bitmap[page / 8 := b];
    forall p | 0 <= p < total ensures Used(now, total)[p] == Used(bitmap, total)[page := to][p] {
      SameBit(p, page);
      if p / 8 == page / 8 {
        BitUpdates(bitmap[page / 8], page % 8, p % 8);
      }
    }
  }

  lemma UsedUpdates(bitmap: seq<bv8>, total: nat, page: nat)
    requires total <= 8 * |bitmap| && page < total
    ensures Used(bitmap[page / 8 := bitmap[page / 8] | Mask(page % 8)], total) == Used(bitmap, total)[page := true]
    ensures Used(bitmap[page / 8 := bitmap[page / 8] & !Mask(page % 8)], total) == Used(bitmap, total)[page := false]
  {
    hide Mask, BitIsSet;
    UsedWith(bitmap, total, page, bitmap[page / 8] | Mask(page % 8), true);
    UsedWith(bitmap, total, page, bitmap[page / 8] & !Mask(page % 8), false);
  }

  function FreeCount(used: seq<bool>): nat {
    if used == [] then 0 else (if used[0] then 0 else 1) + FreeCount(used[1..])
  }

  lemma {:induction false} FreeCountUpdates(used: seq<bool>, page: nat, to: bool)
    requires page < |used|
    ensures FreeCount(used[page := to]) == FreeCount(used) - (if used[page] then 0 else 1) + (if to then 0 else 1)
  {
    if page == 0 {
      assert used[page := to][1..] == used[1..];
    } else {
      assert used[page := to][1..] == used[1..][page - 1 := to];
      FreeCountUpdates(used[1..], page - 1, to);
    }
  }

  /** The first free page from `start` on, or |used|. */
  function FirstFreePage(used: seq<bool>, start: nat): (p: nat)
    requires start <= |used|
    ensures start <= p <= |used|
    ensures p < |used| ==> !used[p]
    ensures forall i :: start <= i < p ==> used[i]
    decreases |used| - start
  {
    if start == |used| || !used[start] then start else FirstFreePage(used, start + 1)
  }

  lemma {:induction false} SomePageIsFree(used: seq<bool>, i: nat)
    requires i <= |used| && FreeCount(used[i..]) > 0
    ensures FirstFreePage(used, i) < |used|
    decreases |used| - i
  {
    if i < |used| && used[i] {
      assert used[i..][1..] == used[i + 1..];
      SomePageIsFree(used, i + 1);
    }
  }

  lemma {:induction false} NoneFreeBefore(used: seq<bool>, i: nat)
    requires i <= |used| && forall p :: 0 <= p < i ==> used[p]
    ensures FreeCount(used) == FreeCount(used[i..])
  {
    if i == 0 {
      assert used[0..] == used;
    } else {
      assert used[1..][i - 1..] == used[i..];
      NoneFreeBefore(used[1..], i - 1);
    }
  }

  lemma {:induction false} FreeCountBound(used: seq<bool>)
    ensures FreeCount(used) <= |used|
  {
    if used != [] {
      FreeCountBound(used[1..]);
    }
  }

  /** When `count` pages are free in all, a run of that many from the first free
      page on cannot reach past the end. */
  lemma RunInside(used: seq<bool>, first: nat, count: nat)
    requires first == FirstFreePage(used, 0) && count <= FreeCount(used)
    ensures first + count <= |used|
  {
    NoneFreeBefore(used, first);
    FreeCountBound(used[first..]);
  }

  /** What one attempt of pmem_alloc_pages comes to. */
  datatype Attempt = Nothing | Got(first: nat) | Again

  function Attempted(used: seq<bool>, count: nat): Attempt {
    var first := FirstFreePage(used, 0);
    if count == 0 || FreeCount(used) < count then Nothing
    else if exists p :: first <= p < first + count && p < |used| && used[p] then Again
    else Got(first)
  }

  /** An attempt that fails starts over in the same state. */
  function Retried(used: seq<bool>, count: nat, fuel: nat): Attempt {
    if fuel == 0 then Again
    else if Attempted(used, count) == Again then Retried(used, count, fuel - 1)
    else Attempted(used, count)
  }

  lemma AttemptFacts(used: seq<bool>, count: nat, fuel: nat)
    ensures fuel == 0 ==> Retried(used, count, fuel) == Again
    ensures fuel > 0 && (count == 0 || FreeCount(used) < count) ==> Retried(used, count, fuel) == Nothing
    ensures 0 < count <= FreeCount(used) ==>
      FirstFreePage(used, 0) < |used| && FirstFreePage(used, 0) + count <= |used|
  {
    if 0 < count <= FreeCount(used) {
      assert used[0..] == used;
      SomePageIsFree(used, 0);
      RunInside(used, FirstFreePage(used, 0), count);
    }
  }

  /** What one attempt comes to: no pages, or too few free ones, or the run at the
      first free page if all of it is free, or another attempt. */
  lemma AttemptExact(used: seq<bool>, count: nat)
    ensures Attempted(used, count) == Nothing <==> count == 0 || FreeCount(used) < count
    ensures forall first: nat :: Attempted(used, count) == Got(first) <==>
      && first == FirstFreePage(used, 0) && 0 < count <= FreeCount(used)
      && forall p :: first <= p < first + count ==> p < |used| && !used[p]
  {
    AttemptFacts(used, count, 0);
  }

  lemma RunUsed(used: seq<bool>, count: nat, fuel: nat, p: nat)
    requires fuel > 0 && 0 < count <= FreeCount(used)
    requires FirstFreePage(used, 0) <= p < FirstFreePage(used, 0) + count && p < |used| && used[p]
    ensures Retried(used, count, fuel) == Retried(used, count, fuel - 1)
  {
  }

  lemma RunFree(used: seq<bool>, count: nat, fuel: nat)
    requires fuel > 0 && 0 < count <= FreeCount(used)
    requires var first := FirstFreePage(used, 0); forall p :: first <= p < first + count && p < |used| ==> !used[p]
    ensures Retried(used, count, fuel) == Got(FirstFreePage(used, 0))
  {
  }

  lemma {:induction false} RetriedAgain(used: seq<bool>, count: nat, fuel: nat)
    requires Attempted(used, count) == Again
    ensures Retried(used, count, fuel) == Again
  {
    if fuel > 0 { RetriedAgain(used, count, fuel - 1); }
  }

  /** pmem_alloc_pages never ends exactly when enough pages are free, but one of
      the run at the first free page is used. */
  lemma RetriesForEver(used: seq<bool>, count: nat)
    ensures (forall fuel: nat :: Retried(used, count, fuel) == Again)
       <==> (0 < count <= FreeCount(used) &&
             var first := FirstFreePage(used, 0);
             exists p :: first <= p < first + count && p < |used| && used[p])
  {
    if Attempted(used, count) == Again {
      forall fuel: nat ensures Retried(used, count, fuel) == Again { RetriedAgain(used, count, fuel); }
    } else {
      assert Retried(used, count, 1) == Attempted(used, count);
    }
  }

  /** Two of four pages are free, but not next to each other. */
  lemma TwoPagesApart(fuel: nat)
    ensures Retried([true, false, true, false], 2, fuel) == Again
  {
    var used := [true, false, true, false];
    assert FirstFreePage(used, 0) == 1;
    assert used[1..] == [false, true, false] && used[2..] == [true, false] && used[3..] == [false];
    assert FreeCount([false]) == 1 && FreeCount([true, false]) == 1 && FreeCount([false, true, false]) == 2;
    assert used[2];
    RetriedAgain(used, 2, fuel);
  }

  /** The pages from `first` on, `count` of them, marked as used. */
  function Marked(used: seq<bool>, first: nat, count: nat): (m: seq<bool>)
    ensures |m| == |used|
  {
    seq(|used|, p requires 0 <= p < |used| => used[p] || first <= p < first + count)
  }

  lemma NoneMarked(used: seq<bool>, first: nat)
    ensures Marked(used, first, 0) == used
  {
  }

  lemma MarkedNext(used: seq<bool>, first: nat, i: nat)
    requires first + i < |used|
    ensures Marked(used, first, i)[first + i := true] == Marked(used, first, i + 1)
    ensures Marked(used, first, i)[first + i] == used[first + i]
  {
  }

  /** pmem_free_page: a null address, a page behind the end or a page already
      free is reported and left alone. */
  function Freed(used: seq<bool>, addr: nat): seq<bool> {
    var page := addr / PAGE_SIZE;
    if addr == 0 || page >= |used| || !used[page] then used else used[page := false]
  }

  /** The address of the i-th page of a range, in 32 bits. */
  function RangeAddr(addr: nat, i: nat): nat {
    (addr + i * PAGE_SIZE) % U32
  }

  /** pmem_free_pages. */
  function FreedRange(used: seq<bool>, addr: nat, count: nat): (r: seq<bool>)
    ensures |r| == |used|
  {
    if count == 0 then used else Freed(FreedRange(used, addr, count - 1), RangeAddr(addr, count - 1))
  }

  /** A page is freed exactly when a page of the range has its number, other
      than through the null address. */
  lemma {:induction false} FreedRangeAt(used: seq<bool>, addr: nat, count: nat, p: nat)
    requires p < |used|
    ensures FreedRange(used, addr, count)[p] <==>
      used[p] && forall i :: 0 <= i < count ==> RangeAddr(addr, i) == 0 || RangeAddr(addr, i) / PAGE_SIZE != p
  {
    if count > 0 { FreedRangeAt(used, addr, count - 1, p); }
  }

  /** Only page 0 hides behind other addresses than its own: 1 to 4095 free it. */
  lemma FreesPageZero(used: seq<bool>, addr: nat)
    requires |used| > 0 && used[0]
    ensures !Freed(used, addr)[0] <==> 1 <= addr < PAGE_SIZE
  {
  }

  /** Freeing what was allocated gives back the state before. */
  lemma FreeUndoesAlloc(used: seq<bool>, page: nat)
    requires 0 < page < |used| && !used[page]
    ensures Freed(used[page := true], page * PAGE_SIZE) == used
  {
  }

  // ----- After initialisation ------------------------------------------------

  /** One bit a page, in bytes. */
  function BitmapSize(total: nat): nat {
    CeilDiv(total, 8)
  }

  function BitmapPages(total: nat): nat {
    CeilDiv(BitmapSize(total), PAGE_SIZE)
  }

  /** The first n of `total` pages are used. */
  function FirstUsed(total: nat, n: nat): (u: seq<bool>)
    ensures |u| == total && forall p :: 0 <= p < total ==> (u[p] <==> p < n)
  {
    seq(total, p => p < n)
  }

  lemma FirstUsedNext(total: nat, n: nat)
    requires n < total
    ensures FirstUsed(total, n)[n := true] == FirstUsed(total, n + 1)
  {
  }

  lemma NothingUsed(bitmap: seq<bv8>, total: nat)
    requires total <= 8 * |bitmap| && forall i :: 0 <= i < |bitmap| ==> bitmap[i] == 0
    ensures Used(bitmap, total) == FirstUsed(total, 0)
  {
    hide Mask;
    forall p | 0 <= p < total ensures !Used(bitmap, total)[p] {
      assert bitmap[p / 8] & Mask(p % 8) == 0;
    }
  }

  function InitiallyUsed(total: nat): (u: seq<bool>)
    ensures |u| == total && forall p :: 0 <= p < total ==> (u[p] <==> p < BitmapPages(total))
  {
    FirstUsed(total, BitmapPages(total))
  }

  /** A page of the bitmap holds the bits of 32768 pages. */
  lemma BitmapPagesExact(total: nat)
    ensures total <= BitmapPages(total) * 0x8000 < total + 0x8000
    ensures total <= BitmapSize(total) * 8 < total + 8
  {
  }

  lemma PagesOfBitmap(total: nat)
    ensures (total + 7) / 8 == BitmapSize(total) && total <= 8 * BitmapSize(total)
    ensures (BitmapSize(total) + 4095) / 4096 == BitmapPages(total) <= total
    ensures InitiallyUsed(total) == FirstUsed(total, BitmapPages(total))
  {
  }

  /** The boot loader's page tables lie in pages 1 to 3. Addresses are handed
      out as page number times 4096 without the start of the managed memory, so
      these pages are safe exactly when they are among the pages marked in place
      of the bitmap's own, which takes more than 98304 pages (384 MiB); below
      that the first page handed out is one of the boot tables. */
  lemma BootTablesSafe(total: nat)
    requires total > 3
    ensures (forall p :: 1 <= p <= 3 ==> InitiallyUsed(total)[p]) <==> total > 98304
    ensures 1 <= FirstFreePage(InitiallyUsed(total), 0) <= 3 <==> total <= 98304
  {
    var used := InitiallyUsed(total);
    assert BitmapPages(total) >= 4 <==> total > 98304;
    assert 1 <= BitmapPages(total) < total;
    assert !used[BitmapPages(total)];
    assert used[3] <==> BitmapPages(total) >= 4;
  }

  /** Frame f holds a byte of the `size` bytes from address `start` on. */
  predicate Holds(start: nat, size: nat, f: nat) {
    size > 0 && start < (f + 1) * PAGE_SIZE && f * PAGE_SIZE < start + size
  }

  /** No frame of a region is handed out after pmem_init exactly when the region
      lies behind the last managed page, or inside the first pages, which are
      marked in place of the bitmap's own (or only page 0 is managed). */
  lemma RegionSafe(total: nat, start: nat, size: nat)
    requires size > 0
    ensures (forall f :: 0 <= f < total && Holds(start, size, f) ==> InitiallyUsed(total)[f])
       <==> total * PAGE_SIZE <= start || start + size <= BitmapPages(total) * PAGE_SIZE || total == 1
  {
    var used, first, last := InitiallyUsed(total), start / PAGE_SIZE, (start + size - 1) / PAGE_SIZE;
    if first < total && total > 1 && start + size > BitmapPages(total) * PAGE_SIZE {
      assert BitmapPages(total) < total;
      var f := if last < total then last else total - 1;
      assert Holds(start, size, f) && !used[f];
    }
  }

  /** The bitmap's own frames are used after pmem_init exactly when the memory
      it lies in starts behind the last managed page, or at address 0, give or
      take what its last page has to spare. */
  lemma BitmapSafe(total: nat, start: nat)
    ensures (forall f :: 0 <= f < total && Holds(start, BitmapSize(total), f) ==> InitiallyUsed(total)[f])
       <==> total * PAGE_SIZE <= start || start + BitmapSize(total) <= BitmapPages(total) * PAGE_SIZE
  {
    if total > 0 { RegionSafe(total, start, BitmapSize(total)); }
  }

  /** The frames of the kernel's heap, one MiB from 16 MiB on, are never handed
      out only if they are not managed at all. */
  lemma HeapSafe(total: nat)
    requires total <= 0x10_0000
    ensures (forall f :: 0 <= f < total && Holds(0x100_0000, 0x10_0000, f) ==> InitiallyUsed(total)[f])
       <==> total <= 0x1000
  {
    RegionSafe(total, 0x100_0000, 0x10_0000);
  }

  /** Page 0, the boot tables and the bitmap at `start` are marked used, and no boot
      table lies in the bitmap. */
  ghost predicate BootReady(used: seq<bool>, start: nat) {
    && |used| > 3 && (forall p :: 0 <= p <= 3 ==> used[p])
    && forall f :: 0 <= f < |used| && Holds(start, BitmapSize(|used|), f) ==> used[f] && !(1 <= f <= 3)
  }

  /** After initialisation that is so exactly when more than 98304 pages are managed
      and the bitmap lies behind them all. */
  lemma BootSafe(total: nat, start: nat)
    ensures BootReady(InitiallyUsed(total), start) <==> total > 98304 && total * PAGE_SIZE <= start
  {
    if total > 3 {
      BootTablesSafe(total);
      BitmapSafe(total, start);
      if total > 98304 && start + BitmapSize(total) <= BitmapPages(total) * PAGE_SIZE {
        assert Holds(start, BitmapSize(total), 1);
      }
    }
  }

  /** n calls of pmem_alloc_page. */
  function Taken(used: seq<bool>, n: nat): (t: seq<bool>)
    ensures |t| == |used|
  {
    if n == 0 then used
    else
      var t := Taken(used, n - 1);
      var page := FirstFreePage(t, 0);
      if page < |t| then t[page := true] else t
  }

  /** Without a free in between, pages are handed out in order. */
  lemma {:induction false} HandedOutInOrder(total: nat, n: nat)
    requires BitmapPages(total) + n <= total
    ensures forall p :: 0 <= p < total ==> (Taken(InitiallyUsed(total), n)[p] <==> p < BitmapPages(total) + n)
    ensures FirstFreePage(Taken(InitiallyUsed(total), n), 0) == BitmapPages(total) + n
  {
    if n > 0 { HandedOutInOrder(total, n - 1); }
    var t := Taken(InitiallyUsed(total), n);
    assert forall p :: 0 <= p < total ==> (t[p] <==> p < BitmapPages(total) + n);
    assert BitmapPages(total) + n < total ==> !t[BitmapPages(total) + n];
  }

  lemma RangeAddrs(first: nat, count: nat)
    requires first + count <= 0x10_0000
    ensures forall i :: 0 <= i < count ==>
      && RangeAddr(first * PAGE_SIZE, i) == (first + i) * PAGE_SIZE
      && RangeAddr(first * PAGE_SIZE, i) / PAGE_SIZE == first + i
  {
  }

  /** Freeing a range that does not wrap frees the pages of the range. */
  lemma FreedFrames(used: seq<bool>, first: nat, count: nat, p: nat)
    requires p < |used| && 0 < first && first + count <= 0x10_0000
    ensures FreedRange(used, first * PAGE_SIZE, count)[p] <==> used[p] && !(first <= p < first + count)
  {
    hide FreedRange, RangeAddr;
    FreedRangeAt(used, first * PAGE_SIZE, count, p);
    RangeAddrs(first, count);
    if first <= p < first + count { assert RangeAddr(first * PAGE_SIZE, p - first) / PAGE_SIZE == p; }
  }

  // ----- Zeroing a frame of the bitmap --------------------------------------------

  /** What is left of the bitmap at `start` when frame f is zeroed: the pages
      whose bits lie in it read as free. */
  function Wiped(used: seq<bool>, start: nat, f: nat): (w: seq<bool>)
    ensures |w| == |used|
  {
    seq(|used|, p requires 0 <= p < |used| => used[p] && (start + p / 8) / PAGE_SIZE != f)
  }

  /** Zeroing any other frame leaves the bitmap alone. */
  lemma WipedElsewhere(used: seq<bool>, start: nat, f: nat)
    requires !Holds(start, BitmapSize(|used|), f)
    ensures Wiped(used, start, f) == used
  {
  }

  /** The bitmap after the bytes of frame f below address `to` were zeroed. */
  function Zeroed(bitmap: seq<bv8>, start: nat, f: nat, to: nat): (z: seq<bv8>)
    ensures |z| == |bitmap|
  {
    seq(|bitmap|, i requires 0 <= i < |bitmap| => if f * PAGE_SIZE <= start + i < to then 0 else bitmap[i])
  }

  lemma ZeroedBits(bitmap: seq<bv8>, total: nat, start: nat, f: nat)
    requires total <= 8 * |bitmap|
    ensures Used(Zeroed(bitmap, start, f, (f + 1) * PAGE_SIZE), total) == Wiped(Used(bitmap, total), start, f)
  {
    forall p | 0 <= p < total
      ensures Used(Zeroed(bitmap, start, f, (f + 1) * PAGE_SIZE), total)[p] == Wiped(Used(bitmap, total), start, f)[p]
    {
      var at := start + p / 8;
      assert at / PAGE_SIZE == f <==> f * PAGE_SIZE <= at < (f + 1) * PAGE_SIZE;
    }
  }

  lemma WipedPages(used: seq<bool>)
    requires |used| >= 0x8000
    ensures forall p :: 0 <= p < 0x8000 ==> !Wiped(used, 0x80_0000, 2048)[p]
  {
  }

  lemma FrontFree(used: seq<bool>)
    requires |used| > 1 && !used[0] && !used[1]
    ensures FirstFreePage(used, 0) == 0 && FirstFreePage(used[0 := true], 0) == 1
  {
  }

  /** The kernel manages up to 1 GiB with the bitmap at 8 MiB. The 2041st page it
      hands out is the bitmap's first; once a page table is made of it, 32768
      pages read as free. The next page handed out is page 0, whose address reads
      as a failure, and then page 1, which holds the PML4. */
  lemma KernelLosesBitmap()
    ensures var total, start := 0x4_0000, 0x80_0000;
            var used := Taken(InitiallyUsed(total), 2040);
            && FirstFreePage(used, 0) == 2048 && Holds(start, BitmapSize(total), 2048)
            && var wiped := Wiped(used[2048 := true], start, 2048);
               && (forall p :: 0 <= p < 0x8000 ==> !wiped[p])
               && FirstFreePage(wiped, 0) == 0 && FirstFreePage(wiped[0 := true], 0) == 1
  {
    hide Taken, InitiallyUsed, Wiped, FirstFreePage, BitmapPages;
    var used := Taken(InitiallyUsed(0x4_0000), 2040);
    assert BitmapPages(0x4_0000) == 8 by { PagesOfBitmap(0x4_0000); }
    HandedOutInOrder(0x4_0000, 2040);
    WipedPages(used[2048 := true]);
    FrontFree(Wiped(used[2048 := true], 0x80_0000, 2048));
  }

  lemma {:induction false} InitialFreeCount(total: nat, i: nat)
    requires i <= total && BitmapPages(total) <= total
    ensures FreeCount(InitiallyUsed(total)[i..])
         == if i < BitmapPages(total) then total - BitmapPages(total) else total - i
    decreases total - i
  {
    if i < total {
      assert InitiallyUsed(total)[i..][1..] == InitiallyUsed(total)[i + 1..];
      InitialFreeCount(total, i + 1);
    }
  }

  // ----- The allocator --------------------------------------------------------

  class FrameAllocator {
    const bitmap: array<bv8>
    /** The address of the bitmap. */
    const memoryStart: nat
    const totalPages: nat
    var freePages: nat

    ghost function Pages(): seq<bool>
      requires totalPages <= 8 * bitmap.Length
      reads bitmap
    {
      Used(bitmap[..], totalPages)
    }

    /** The counter is the number of clear bits, and 32-bit addresses reach all
        pages. */
    ghost predicate Valid()
      reads this, bitmap
    {
      && totalPages <= 0x10_0000
      && totalPages <= 8 * bitmap.Length
      && freePages == FreeCount(Pages())
    }

    /** Frame f holds a part of the bitmap. */
    predicate HoldsBitmap(f: nat) {
      Holds(memoryStart, BitmapSize(totalPages), f)
    }

    method SetBit(page: nat)
      requires totalPages <= 8 * bitmap.Length && page < totalPages
      modifies bitmap
      ensures Pages() == old(Pages())[page := true]
    {
      UsedUpdates(bitmap[..], totalPages, page);
      bitmap[page / 8] := bitmap[page / 8] | Mask(page % 8);
    }

    /** pmem_init. */
    constructor (memoryStart: nat, memorySize: nat)
      requires memoryStart < U32 && memorySize < U32
      ensures Valid() && totalPages == memorySize / PAGE_SIZE && Pages() == InitiallyUsed(totalPages)
      ensures this.memoryStart == memoryStart && bitmap.Length == BitmapSize(totalPages) && fresh(bitmap)
    {
      var total := memorySize / PAGE_SIZE;
      this.memoryStart, totalPages := memoryStart, total;
      var bitmapSize := (total + 7) / 8;
      var b := new bv8[bitmapSize](i => 0);
      bitmap := b;
      var bitmapPages := (bitmapSize + 4095) / 4096;
      freePages := total - bitmapPages;
      new;
      hide Used, FirstUsed, FreeCount, InitiallyUsed, BitmapPages, BitmapSize, Mask;
      PagesOfBitmap(total);
      var i := 0;
      NothingUsed(bitmap[..], total);
      while i < bitmapPages
        invariant 0 <= i <= bitmapPages == BitmapPages(total) <= total == totalPages
        invariant total <= 8 * bitmap.Length && bitmap == b
        invariant Used(bitmap[..], total) == FirstUsed(total, i)
        invariant freePages == total - bitmapPages
      {
        SetBit(i);
        FirstUsedNext(total, i);
        i := i + 1;
      }
      InitialFreeCount(total, 0);
      assert Pages()[0..] == Pages();
    }

    /** Zeroing frame f, byte by byte, as far as the bitmap lies in it. */
    method ZeroFrame(f: nat)
      requires totalPages <= 8 * bitmap.Length
      modifies bitmap
      ensures Pages() == Wiped(old(Pages()), memoryStart, f)
    {
      hide Used, Wiped;
      ghost var was := bitmap[..];
      var i := 0;
      while i < PAGE_SIZE
        invariant 0 <= i <= PAGE_SIZE
        invariant bitmap[..] == Zeroed(was, memoryStart, f, f * PAGE_SIZE + i)
      {
        var at := f * PAGE_SIZE + i;
        if memoryStart <= at < memoryStart + bitmap.Length { bitmap[at - memoryStart] := 0; }
        i := i + 1;
      }
      ZeroedBits(was, totalPages, memoryStart, f);
    }

    method ClearBit(page: nat)
      requires totalPages <= 8 * bitmap.Length && page < totalPages
      modifies bitmap
      ensures Pages() == old(Pages())[page := false]
    {
      UsedUpdates(bitmap[..], totalPages, page);
      bitmap[page / 8] := bitmap[page / 8] & !Mask(page % 8);
    }

    method IsSet(page: nat) returns (inUse: bool)
      requires totalPages <= 8 * bitmap.Length && page < totalPages
      ensures inUse == Pages()[page]
    {
      inUse := BitIsSet(bitmap[page / 8], page % 8);
    }

    /** find_free_page. */
    method FindFreePage(start: nat) returns (page: nat)
      requires Valid() && start <= totalPages
      ensures var p := FirstFreePage(Pages(), start); page == if p < totalPages then p else NOT_FOUND
    {
      page := start;
      while page < totalPages
        invariant start <= page <= totalPages
        invariant FirstFreePage(Pages(), start) == FirstFreePage(Pages(), page)
      {
        var inUse := IsSet(page);
        if !inUse { return; }
        page := page + 1;
      }
      return NOT_FOUND;
    }

    /** pmem_alloc_page: the lowest free page, or 0 if there is none. Page 0
        would be handed out as address 0, too, were it ever free. */
    method AllocPage() returns (addr: nat)
      requires Valid()
      modifies this, bitmap
      ensures Valid()
      ensures old(freePages) == 0 ==> addr == 0 && Pages() == old(Pages()) && freePages == 0
      ensures old(freePages) > 0 ==>
        var page := FirstFreePage(old(Pages()), 0);
        && page < totalPages && addr == page * PAGE_SIZE
        && Pages() == old(Pages())[page := true] && freePages == old(freePages) - 1
    {
      if freePages == 0 { return 0; }
      assert Pages()[0..] == Pages();
      SomePageIsFree(Pages(), 0);
      var page := FindFreePage(0);
      FreeCountUpdates(Pages(), page, true);
      SetBit(page);
      freePages := freePages - 1;
      return page * PAGE_SIZE % U32;
    }

    /** The marking loop of pmem_alloc_pages. */
    method MarkRun(first: nat, count: nat)
      requires totalPages <= 8 * bitmap.Length && first + count <= totalPages
      requires forall p :: first <= p < first + count ==> !Pages()[p]
      modifies bitmap
      ensures Pages() == Marked(old(Pages()), first, count)
      ensures FreeCount(Pages()) == FreeCount(old(Pages())) - count
    {
      hide Used, Marked, FreeCount;
      ghost var was := Pages();
      var i := 0;
      NoneMarked(was, first);
      while i < count
        invariant 0 <= i <= count && totalPages <= 8 * bitmap.Length
        invariant Pages() == Marked(was, first, i) && FreeCount(Pages()) == FreeCount(was) - i
      {
        MarkedNext(was, first, i);
        FreeCountUpdates(Pages(), first + i, true);
        SetBit(first + i);
        i := i + 1;
      }
    }

    /** pmem_alloc_pages, which calls itself again when the run at the first free
        page is too short; `fuel` bounds how often. */
    method AllocPages(count: nat, fuel: nat) returns (addr: nat, ended: bool)
      requires Valid()
      modifies this, bitmap
      ensures Valid()
      ensures match Retried(old(Pages()), count, fuel)
              case Nothing => ended && addr == 0 && Pages() == old(Pages())
              case Got(first) =>
                && ended && addr == first * PAGE_SIZE && freePages == old(freePages) - count
                && Pages() == Marked(old(Pages()), first, count)
              case Again => !ended && Pages() == old(Pages())
    {
      hide Used, FreeCount, Marked, Retried, FirstFreePage;
      ghost var was := Pages();
      AttemptFacts(was, count, fuel);
      if fuel == 0 { return 0, false; }
      if count == 0 || freePages < count { return 0, true; }
      var first := FindFreePage(0);
      var i := 0;
      while i < count
        invariant 0 <= i <= count && first + count <= totalPages && Valid()
        invariant Pages() == was && freePages == old(freePages)
        invariant forall p :: first <= p < first + i ==> !was[p]
      {
        var inUse := IsSet(first + i);
        if inUse {
          RunUsed(was, count, fuel, first + i);
          addr, ended := AllocPages(count, fuel - 1);
          return;
        }
        i := i + 1;
      }
      RunFree(was, count, fuel);
      MarkRun(first, count);
      freePages := freePages - count;
      return first * PAGE_SIZE % U32, true;
    }

    /** pmem_free_page. */
    method FreePage(addr: nat)
      requires Valid() && addr < U32
      modifies this, bitmap
      ensures Valid() && Pages() == Freed(old(Pages()), addr)
    {
      if addr == 0 { return; }
      var page := addr / PAGE_SIZE;
      if page >= totalPages { return; }
      var inUse := IsSet(page);
      if !inUse { return; }
      FreeCountUpdates(Pages(), page, false);
      ClearBit(page);
      freePages := freePages + 1;
    }

    /** pmem_free_pages. */
    method FreePages(addr: nat, count: nat)
      requires Valid() && addr < U32 && count < U32
      modifies this, bitmap
      ensures Valid() && Pages() == FreedRange(old(Pages()), addr, count)
    {
      hide Used, FreeCount, Freed;
      var i := 0;
      while i < count
        invariant 0 <= i <= count
        invariant Valid() && Pages() == FreedRange(old(Pages()), addr, i)
      {
        FreePage(RangeAddr(addr, i));
        i := i + 1;
      }
    }
  }
}
