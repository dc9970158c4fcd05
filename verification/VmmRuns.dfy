/** Runs of the virtual memory manager beside kernel code that takes and returns
    page frames of its own (src/vmm.c, src/memory.c). */
module VmmRuns {
  import opened Bytes
  import opened Collections
  import opened PageFrames
  import opened PageTables
  import opened Paging

  // ----- Frames of other kernel code ----------------------------------------------

  /** pmem_alloc_page, called by other kernel code: it never gets a page table or a
      frame of the bitmap. */
  method TakeFrame(vmm: Vmm) returns (addr: nat)
    requires vmm.Valid()
    modifies vmm.pmem, vmm.pmem.bitmap
    ensures vmm.Valid() && vmm.View() == old(vmm.View()) && vmm.owners == old(vmm.owners)
    ensures addr == 0 <==> old(vmm.pmem.freePages) == 0
    ensures addr == 0 ==> vmm.pmem.Pages() == old(vmm.pmem.Pages())
    ensures addr != 0 ==>
      var f := addr / PAGE_SIZE;
      && addr == f * PAGE_SIZE && 0 < f < vmm.pmem.totalPages && f !in vmm.owners && !vmm.pmem.HoldsBitmap(f)
      && !old(vmm.pmem.Pages())[f] && vmm.pmem.Pages() == old(vmm.pmem.Pages())[f := true]
  {
    hide IsTree, Used, FreeCount, Holds;
    ghost var f := FirstFreePage(vmm.pmem.Pages(), 0);
    addr := vmm.pmem.AllocPage();
    assert f < vmm.pmem.totalPages ==> f > 0;
    if addr != 0 { assert addr / PAGE_SIZE == f; }
  }

  /** A run handed out was free, and lies inside. */
  lemma {:induction false} RunFacts(used: seq<bool>, count: nat, fuel: nat)
    ensures match Retried(used, count, fuel)
            case Got(first) =>
              first + count <= |used| && first < |used| && !used[first]
              && forall f :: first <= f < first + count ==> !used[f]
            case _ => true
  {
    if fuel > 0 {
      AttemptFacts(used, count, fuel);
      RunFacts(used, count, fuel - 1);
    }
  }

  /** pmem_alloc_pages, called by other kernel code: no frame of the run is a page
      table or holds the bitmap. */
  method TakeRun(vmm: Vmm, count: nat, fuel: nat) returns (addr: nat, ended: bool)
    requires vmm.Valid()
    modifies vmm.pmem, vmm.pmem.bitmap
    ensures vmm.Valid() && vmm.View() == old(vmm.View()) && vmm.owners == old(vmm.owners)
    ensures match Retried(old(vmm.pmem.Pages()), count, fuel)
            case Nothing => ended && addr == 0 && vmm.pmem.Pages() == old(vmm.pmem.Pages())
            case Again => !ended && vmm.pmem.Pages() == old(vmm.pmem.Pages())
            case Got(first) =>
              && ended && addr == first * PAGE_SIZE && 0 < first && first + count <= vmm.pmem.totalPages
              && vmm.pmem.Pages() == Marked(old(vmm.pmem.Pages()), first, count)
              && forall f :: first <= f < first + count ==>
                   f !in vmm.owners && !vmm.pmem.HoldsBitmap(f) && !old(vmm.pmem.Pages())[f]
  {
    hide IsTree, Used, FreeCount, Holds, Retried;
    RunFacts(vmm.pmem.Pages(), count, fuel);
    addr, ended := vmm.pmem.AllocPages(count, fuel);
  }

  /** What must not be freed: page 0, the page tables and the bitmap. */
  ghost predicate Reserved(vmm: Vmm, f: nat)
    reads vmm
  {
    f == 0 || f in vmm.owners || vmm.pmem.HoldsBitmap(f)
  }

  /** pmem_free_page, called by other kernel code. The page tables stay what they
      are, and the invariant holds exactly if the call does not release a
      reserved frame. */
  method GiveFrame(vmm: Vmm, addr: nat)
    requires vmm.Valid() && addr < U32
    modifies vmm.pmem, vmm.pmem.bitmap
    ensures vmm.pmem.Valid() && vmm.View() == old(vmm.View()) && vmm.owners == old(vmm.owners)
    ensures vmm.pmem.Pages() == Freed(old(vmm.pmem.Pages()), addr)
    ensures vmm.Valid() <==>
      addr == 0 || addr / PAGE_SIZE >= vmm.pmem.totalPages || !Reserved(vmm, addr / PAGE_SIZE)
  {
    hide IsTree, Used, FreeCount, Holds;
    vmm.pmem.FreePage(addr);
  }

  /** pmem_free_pages, called by other kernel code. */
  method GiveRange(vmm: Vmm, addr: nat, count: nat)
    requires vmm.Valid() && addr < U32 && count < U32
    modifies vmm.pmem, vmm.pmem.bitmap
    ensures vmm.pmem.Valid() && vmm.View() == old(vmm.View()) && vmm.owners == old(vmm.owners)
    ensures vmm.pmem.Pages() == FreedRange(old(vmm.pmem.Pages()), addr, count)
    ensures vmm.Valid() <==> forall i :: 0 <= i < count ==>
      var a := RangeAddr(addr, i);
      a == 0 || a / PAGE_SIZE >= vmm.pmem.totalPages || !Reserved(vmm, a / PAGE_SIZE)
  {
    hide IsTree, Used, FreeCount, Holds, FreedRange, RangeAddr;
    ghost var used := vmm.pmem.Pages();
    vmm.pmem.FreePages(addr, count);
    forall p: nat | p < |used|
      ensures vmm.pmem.Pages()[p] <==>
        used[p] && forall i :: 0 <= i < count ==> RangeAddr(addr, i) == 0 || RangeAddr(addr, i) / PAGE_SIZE != p
    {
      FreedRangeAt(used, addr, count, p);
    }
  }

  // ----- Runs -----------------------------------------------------------------------

  /** A call on the memory manager, or kernel code taking frames or giving back
      some that it holds. */
  datatype Call =
    | Map(virt: Word, phys: Word, flags: Word)
    | Unmap(virt: Word)
    | MapRange(virt: Word, phys: Word, count: nat, flags: Word)
    | UnmapRange(virt: Word, count: nat)
    | TakePage
    | TakePages(count: nat, fuel: nat)
    | GivePage(f: nat)
    | GivePages(first: nat, count: nat)

  predicate Legal(c: Call) {
    match c
    case Map(_, _, flags) => FlagsOk(flags)
    case MapRange(_, _, count, flags) => FlagsOk(flags) && count < U32
    case UnmapRange(_, count) => count < U32
    case _ => true
  }

  /** Frames held by other kernel code are marked used, are no page tables and no
      part of the bitmap at address `at`, and are held once each. */
  ghost predicate Held(held: seq<nat>, used: seq<bool>, owners: Owners, at: nat) {
    && Distinct(held)
    && forall f :: f in held ==> 0 < f < |used| && used[f] && f !in owners && !Holds(at, BitmapSize(|used|), f)
  }

  /** No page table is ever made of a held frame. */
  lemma HeldWhileGrowing(held: seq<nat>, used: seq<bool>, used1: seq<bool>, owners: Owners, owners1: Owners, at: nat)
    requires Held(held, used, owners, at) && Vmm.TablesGrew(used, used1, owners, owners1)
    ensures Held(held, used1, owners1, at)
  {
  }

  function Frames(first: nat, count: nat): (s: seq<nat>)
    ensures |s| == count && forall i :: 0 <= i < count ==> s[i] == first + i
  {
    seq(count, i requires 0 <= i => first + i)
  }

  lemma TookRun(held: seq<nat>, used: seq<bool>, owners: Owners, at: nat, first: nat, count: nat)
    requires Held(held, used, owners, at) && 0 < first && first + count <= |used|
    requires forall f :: first <= f < first + count ==>
      !used[f] && f !in owners && !Holds(at, BitmapSize(|used|), f)
    ensures Held(held + Frames(first, count), Marked(used, first, count), owners, at)
  {
    hide Holds;
    var held1 := held + Frames(first, count);
    forall i, j | 0 <= i < j < |held1| ensures held1[i] != held1[j] {
      if i < |held| { assert held[i] in held; }
    }
    forall f | f in held1 ensures f in held || first <= f < first + count {
      var i :| 0 <= i < |held1| && held1[i] == f;
      assert i >= |held| ==> f == first + (i - |held|);
    }
  }

  /** The frames that are not in the range, in the same order. */
  function Without(held: seq<nat>, first: nat, count: nat): (r: seq<nat>)
    ensures forall f :: f in r <==> f in held && !(first <= f < first + count)
    ensures Distinct(held) ==> Distinct(r)
  {
    if held == [] then []
    else
      var rest := Without(held[1..], first, count);
      assert Distinct(held) ==> held[0] !in held[1..];
      if first <= held[0] < first + count then rest else [held[0]] + rest
  }

  /** Held frames that follow each other lie inside. */
  lemma HeldInside(held: seq<nat>, used: seq<bool>, owners: Owners, at: nat, first: nat, count: nat)
    requires Held(held, used, owners, at) && 0 < count && forall f :: first <= f < first + count ==> f in held
    ensures 0 < first && first + count <= |used|
  {
    assert first in held && first + count - 1 in held;
  }

  /** Freeing frames that are held frees these and no others. */
  lemma GaveRun(held: seq<nat>, used: seq<bool>, owners: Owners, at: nat, first: nat, count: nat)
    requires Held(held, used, owners, at) && 0 < first && first + count <= |used| <= 0x10_0000
    ensures Held(Without(held, first, count), FreedRange(used, first * PAGE_SIZE, count), owners, at)
  {
    hide Holds, FreedRange, Without;
    forall p | p in Without(held, first, count) ensures FreedRange(used, first * PAGE_SIZE, count)[p] {
      FreedFrames(used, first, count, p);
    }
  }

  lemma NotReserved(vmm: Vmm, held: seq<nat>, f: nat)
    requires vmm.Valid() && Held(held, vmm.pmem.Pages(), vmm.owners, vmm.pmem.memoryStart) && f in held
    ensures !Reserved(vmm, f) && f < vmm.pmem.totalPages <= 0x10_0000
  {
    hide Holds, IsTree, Used, FreeCount;
  }

  /** Other kernel code takes a run of frames, ... */
  method Take(vmm: Vmm, count: nat, fuel: nat, held: seq<nat>) returns (held1: seq<nat>)
    requires vmm.Valid() && Held(held, vmm.pmem.Pages(), vmm.owners, vmm.pmem.memoryStart)
    modifies vmm.pmem, vmm.pmem.bitmap
    ensures vmm.Valid() && Held(held1, vmm.pmem.Pages(), vmm.owners, vmm.pmem.memoryStart)
    ensures vmm.View() == old(vmm.View())
  {
    hide IsTree, Vmm.TablesInUse, Vmm.BitmapKept, Used, FreeCount, Held, Holds, Retried, Marked;
    held1 := held;
    ghost var used := vmm.pmem.Pages();
    var addr, ended := TakeRun(vmm, count, fuel);
    if ended && addr != 0 {
      assert Retried(used, count, fuel) == Got(addr / PAGE_SIZE);
      held1 := held + Frames(addr / PAGE_SIZE, count);
      TookRun(held, used, vmm.owners, vmm.pmem.memoryStart, addr / PAGE_SIZE, count);
    }
  }

  lemma OneMarked(used: seq<bool>, f: nat)
    requires f < |used|
    ensures Marked(used, f, 1) == used[f := true]
  {
  }

  /** ... a single frame, ... */
  method TakeOne(vmm: Vmm, held: seq<nat>) returns (held1: seq<nat>)
    requires vmm.Valid() && Held(held, vmm.pmem.Pages(), vmm.owners, vmm.pmem.memoryStart)
    modifies vmm.pmem, vmm.pmem.bitmap
    ensures vmm.Valid() && Held(held1, vmm.pmem.Pages(), vmm.owners, vmm.pmem.memoryStart)
    ensures vmm.View() == old(vmm.View())
  {
    hide IsTree, Vmm.TablesInUse, Vmm.BitmapKept, Used, FreeCount, Held, Holds, Marked;
    held1 := held;
    ghost var used := vmm.pmem.Pages();
    var addr := TakeFrame(vmm);
    if addr != 0 {
      held1 := held + Frames(addr / PAGE_SIZE, 1);
      OneMarked(used, addr / PAGE_SIZE);
      TookRun(held, used, vmm.owners, vmm.pmem.memoryStart, addr / PAGE_SIZE, 1);
    }
  }

  /** ... or gives back frames it holds, in a run ... */
  method Give(vmm: Vmm, first: nat, count: nat, held: seq<nat>) returns (held1: seq<nat>)
    requires vmm.Valid() && Held(held, vmm.pmem.Pages(), vmm.owners, vmm.pmem.memoryStart)
    requires 0 < count && forall f :: first <= f < first + count ==> f in held
    modifies vmm.pmem, vmm.pmem.bitmap
    ensures vmm.Valid() && Held(held1, vmm.pmem.Pages(), vmm.owners, vmm.pmem.memoryStart)
    ensures vmm.View() == old(vmm.View())
  {
    hide IsTree, Vmm.TablesInUse, Vmm.BitmapKept, Used, FreeCount, Held, Holds, FreedRange, Reserved, RangeAddr;
    ghost var used := vmm.pmem.Pages();
    HeldInside(held, used, vmm.owners, vmm.pmem.memoryStart, first, count);
    forall f | first <= f < first + count ensures !Reserved(vmm, f) { NotReserved(vmm, held, f); }
    NotReserved(vmm, held, first);
    RangeAddrs(first, count);
    GaveRun(held, used, vmm.owners, vmm.pmem.memoryStart, first, count);
    GiveRange(vmm, first * PAGE_SIZE, count);
    held1 := Without(held, first, count);
  }

  lemma OneFreed(used: seq<bool>, f: nat)
    requires f * PAGE_SIZE < U32
    ensures FreedRange(used, f * PAGE_SIZE, 1) == Freed(used, f * PAGE_SIZE)
  {
    assert FreedRange(used, f * PAGE_SIZE, 0) == used;
  }

  /** ... or one. */
  method GiveOne(vmm: Vmm, f: nat, held: seq<nat>) returns (held1: seq<nat>)
    requires vmm.Valid() && Held(held, vmm.pmem.Pages(), vmm.owners, vmm.pmem.memoryStart) && f in held
    modifies vmm.pmem, vmm.pmem.bitmap
    ensures vmm.Valid() && Held(held1, vmm.pmem.Pages(), vmm.owners, vmm.pmem.memoryStart)
    ensures vmm.View() == old(vmm.View())
  {
    hide IsTree, Vmm.TablesInUse, Vmm.BitmapKept, Used, FreeCount, Held, Holds, FreedRange, Freed, Reserved;
    ghost var used := vmm.pmem.Pages();
    HeldInside(held, used, vmm.owners, vmm.pmem.memoryStart, f, 1);
    NotReserved(vmm, held, f);
    GaveRun(held, used, vmm.owners, vmm.pmem.memoryStart, f, 1);
    OneFreed(used, f);
    GiveFrame(vmm, f * PAGE_SIZE);
    held1 := Without(held, f, 1);
  }

  method Step(vmm: Vmm, c: Call, held: seq<nat>) returns (held1: seq<nat>)
    requires vmm.Valid() && Legal(c) && Held(held, vmm.pmem.Pages(), vmm.owners, vmm.pmem.memoryStart)
    modifies vmm, vmm.frames, vmm.pmem, vmm.pmem.bitmap
    ensures vmm.Valid() && Held(held1, vmm.pmem.Pages(), vmm.owners, vmm.pmem.memoryStart)
    ensures IsStep(old(vmm.View()), vmm.View())
  {
    hide IsTree, Vmm.TablesInUse, Vmm.BitmapKept, Used, FreeCount, IsStep, Held, Vmm.TablesGrew, FlagsOk;
    held1 := held;
    ghost var used, owners := vmm.pmem.Pages(), vmm.owners;
    NoStep(vmm.View());
    match c
    case Map(virt, phys, flags) =>
      var rc := vmm.MapPage(virt, phys, flags);
      HeldWhileGrowing(held, used, vmm.pmem.Pages(), owners, vmm.owners, vmm.pmem.memoryStart);
    case Unmap(virt) =>
      var rc := vmm.UnmapPage(virt);
    case MapRange(virt, phys, count, flags) =>
      var rc := vmm.MapPages(virt, phys, count, flags);
      HeldWhileGrowing(held, used, vmm.pmem.Pages(), owners, vmm.owners, vmm.pmem.memoryStart);
    case UnmapRange(virt, count) =>
      var rc := vmm.UnmapPages(virt, count);
    case TakePage =>
      held1 := TakeOne(vmm, held);
    case TakePages(count, fuel) =>
      held1 := Take(vmm, count, fuel, held);
    case GivePage(f) =>
      if f in held { held1 := GiveOne(vmm, f, held); }
    case GivePages(first, count) =>
      if count > 0 && forall f :: first <= f < first + count ==> f in held {
        held1 := Give(vmm, first, count, held);
      }
  }

  /** Any run of calls, from any frames other kernel code holds: the tables stay a
      tree of used frames, the bitmap's frames stay used, no frame is ever held
      by other code and a page table or a part of the bitmap at once, and exactly
      the 2 MiB pages of the start are mapped at the end, as they were. */
  method Run(vmm: Vmm, calls: seq<Call>, start: seq<nat>) returns (held: seq<nat>)
    requires vmm.Valid() && forall i :: 0 <= i < |calls| ==> Legal(calls[i])
    requires Held(start, vmm.pmem.Pages(), vmm.owners, vmm.pmem.memoryStart)
    modifies vmm, vmm.frames, vmm.pmem, vmm.pmem.bitmap
    ensures vmm.Valid() && Held(held, vmm.pmem.Pages(), vmm.owners, vmm.pmem.memoryStart)
    ensures forall p ::
      (p in vmm.View() && vmm.View()[p].Large? <==> p in old(vmm.View()) && old(vmm.View())[p].Large?)
      && (p in old(vmm.View()) && old(vmm.View())[p].Large? ==> vmm.View()[p] == old(vmm.View())[p])
  {
    hide IsTree, Vmm.TablesInUse, Vmm.BitmapKept, Used, FreeCount, IsStep, Vmm.View, Held;
    held := start;
    ghost var views := [vmm.View()];
    var i := 0;
    while i < |calls|
      invariant 0 <= i <= |calls| && vmm.Valid()
      invariant Held(held, vmm.pmem.Pages(), vmm.owners, vmm.pmem.memoryStart)
      invariant |views| == i + 1 && views[0] == old(vmm.View()) && views[i] == vmm.View()
      invariant forall k :: 0 <= k < |views| - 1 ==> IsStep(views[k], views[k + 1])
    {
      held := Step(vmm, calls[i], held);
      views := views + [vmm.View()];
      i := i + 1;
    }
    forall p
      ensures p in vmm.View() && vmm.View()[p].Large? <==> p in old(vmm.View()) && old(vmm.View())[p].Large?
      ensures p in old(vmm.View()) && old(vmm.View())[p].Large? ==> vmm.View()[p] == old(vmm.View())[p]
    {
      LargePagesSurvive(views, p, i);
    }
  }
}
