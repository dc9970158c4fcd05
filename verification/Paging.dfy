/** The virtual memory manager (src/vmm.c) over the frame allocator: writing
    page-table entries refines a flat map from virtual pages to leaves. */
module Paging {
  import opened Bytes
  import opened Collections
  import opened PageFrames
  import opened PageTables

  class Vmm {
    /** Physical memory, one table of 512 words to a frame; what lies in frames
        of the bitmap is in pmem.bitmap. */
    const frames: array<Table>
    const pmem: FrameAllocator
    /** The frame of the PML4, from CR3. */
    const root: nat
    ghost var owners: Owners

    /** The flat view: what every virtual page is mapped to. */
    ghost function View(): imap<Page, Leaf>
      reads frames
    {
      Flat(frames[..], root)
    }

    /** Every table frame is marked used, so it is never handed out again. */
    ghost predicate TablesInUse()
      requires pmem.Valid()
      reads this, pmem, pmem.bitmap
    {
      forall f :: f in owners ==> 0 < f < pmem.totalPages && pmem.Pages()[f]
    }

    /** No frame of the bitmap is handed out, and none is a table. */
    ghost predicate BitmapKept()
      requires pmem.Valid()
      reads this, pmem, pmem.bitmap
    {
      forall f :: 0 <= f < pmem.totalPages && pmem.HoldsBitmap(f) ==> pmem.Pages()[f] && f !in owners
    }

    /** Page 0 and all tables are marked used, and the tables form a tree. */
    ghost predicate TreeOk()
      reads this, frames, pmem, pmem.bitmap
    {
      && pmem.Valid()
      && frames as object != pmem.bitmap as object
      && pmem.totalPages <= frames.Length
      && 0 < pmem.totalPages && pmem.Pages()[0]
      && IsTree(frames[..], root, owners)
      && TablesInUse()
    }

    ghost predicate Valid()
      reads this, frames, pmem, pmem.bitmap
    {
      TreeOk() && BitmapKept()
    }

    /** The frame allocator and the tree may only change together: every page that
        became used is a new table, and nothing else has changed. */
    static ghost predicate TablesGrew(used: seq<bool>, used1: seq<bool>, owners: Owners, owners1: Owners) {
      && |used1| == |used| && owners.Keys <= owners1.Keys
      && (forall f :: f in owners ==> owners1[f] == owners[f])
      && (forall f :: f in owners1 && f !in owners ==> f < |used| && !used[f])
      && (forall f :: 0 <= f < |used| ==> (used1[f] <==> used[f] || (f in owners1 && f !in owners)))
    }

    static lemma {:induction false} NothingGrew(used: seq<bool>, owners: Owners)
      ensures TablesGrew(used, used, owners, owners)
    {
    }

    static lemma {:induction false} GrewByOne(used: seq<bool>, owners: Owners, f: nat, path: seq<nat>)
      requires f !in owners && f < |used| && !used[f]
      ensures TablesGrew(used, used[f := true], owners, owners[f := path])
      ensures owners[f := path].Values == owners.Values + {path}
    {
      assert owners[f := path][f] == path;
      forall q | q in owners.Values ensures q in owners[f := path].Values {
        var g :| g in owners && owners[g] == q;
        assert owners[f := path][g] == q;
      }
    }

    static lemma {:induction false} SameValues(owners: Owners, f: nat)
      requires f in owners
      ensures owners.Values + {owners[f]} == owners.Values
    {
      assert owners[f] in owners.Values;
    }

    static lemma {:induction false} GrewOn(used: seq<bool>, used1: seq<bool>, used2: seq<bool>, owners: Owners,
            owners1: Owners, owners2: Owners)
      requires TablesGrew(used, used1, owners, owners1) && TablesGrew(used1, used2, owners1, owners2)
      ensures TablesGrew(used, used2, owners, owners2)
    {
    }

    /** The tables boot2.asm leaves: a PML4, a PDPT and one page directory that
        maps the first n times 2 MiB onto themselves. */
    static function BootDirectory(n: nat): Table
      requires n <= ENTRIES
    {
      seq(ENTRIES, i => if i < n then i * 0x20_0000 + 0x83 else 0)
    }

    static ghost predicate BootTables(mem: seq<Table>, n: nat) {
      && 3 < |mem| && n <= ENTRIES && mem[3] == BootDirectory(n)
      && mem[1] == Zeros()[0 := TableEntry(2)] && mem[2] == Zeros()[0 := TableEntry(3)]
    }

    /** The first n times 2 MiB are mapped onto themselves, and nothing else. */
    static ghost predicate IdentityMap(view: imap<Page, Leaf>, n: nat) {
      && (forall p :: p in view <==> p.Valid() && p.i4 == p.i3 == 0 && p.i2 < n)
      && (forall p :: p in view ==> view[p] == Large(p.i2 * 0x20_0000 + 0x83))
    }

    lemma BootInUse()
      requires owners == map[1 := [], 2 := [0], 3 := [0, 0]] && pmem.Valid() && IsTree(frames[..], root, owners)
      requires frames as object != pmem.bitmap as object && pmem.totalPages <= frames.Length
      ensures Valid() <==> BootReady(pmem.Pages(), pmem.memoryStart)
    {
      hide IsTree, Used, FreeCount, Holds, BitmapSize;
      assert forall f :: f in owners <==> 1 <= f <= 3;
      if BootReady(pmem.Pages(), pmem.memoryStart) { assert TablesInUse() && BitmapKept(); }
      if Valid() { assert 1 in owners && 2 in owners && 3 in owners; }
    }

    static lemma {:induction false} DirectoryBits(n: nat, i: nat)
      requires i < ENTRIES && n <= ENTRIES
      ensures Huge(BootDirectory(n)[i]) <==> i < n
      ensures Present(BootDirectory(n)[i]) <==> i < n
    {
      if i < n {
        assert BootDirectory(n)[i] / 0x80 == i * 0x4000 + 1;
      }
    }

    static lemma {:induction false} BootTranslates(mem: seq<Table>, n: nat, p: Page)
      requires BootTables(mem, n) && p.Valid()
      ensures Translate(mem, 1, p) ==
              if p.i4 == p.i3 == 0 && p.i2 < n then Some(Large(p.i2 * 0x20_0000 + 0x83)) else None
    {
      DirectoryBits(n, p.i2);
      assert Reach(mem, 1, p, 1) == if p.i4 == 0 then Some(2) else None;
      assert Reach(mem, 1, p, 2) == if p.i4 == 0 && p.i3 == 0 then Some(3) else None;
    }

    static lemma {:induction false} BootView(mem: seq<Table>, n: nat)
      requires BootTables(mem, n)
      ensures IdentityMap(Flat(mem, 1), n)
    {
      hide Translate, BootDirectory, TableEntry, BootTables;
      forall p: Page | p.Valid()
        ensures Translate(mem, 1, p) ==
                if p.i4 == p.i3 == 0 && p.i2 < n then Some(Large(p.i2 * 0x20_0000 + 0x83)) else None
      {
        BootTranslates(mem, n, p);
      }
    }

    static lemma LargeFrame(i: nat)
      requires i < ENTRIES
      ensures (i * 0x20_0000 + 0x83) / 0x20_0000 % 0x8000_0000 * 0x20_0000 == i * 0x20_0000
    {
    }

    static lemma Beyond(i4: nat, i3: nat, i2: nat, n: nat)
      requires i2 < ENTRIES && n <= ENTRIES && !(i4 == i3 == 0 && i2 < n)
      ensures (i4 * ENTRIES + i3) * ENTRIES + i2 >= n
    {
    }

    /** Through the identity map an address below the end of the map is its own
        translation, and all others have none; bits 48 and up are ignored. */
    static lemma {:induction false} IdentityPhysical(view: imap<Page, Leaf>, n: nat, virt: Word)
      requires IdentityMap(view, n) && n <= ENTRIES
      ensures var low := virt % 0x1_0000_0000_0000;
              Physical(view, virt) == if low < n * 0x20_0000 then low else 0
    {
      hide PageOf;
      var p := PageOf(virt);
      AddressDigits(virt);
      if p.i4 == p.i3 == 0 && p.i2 < n {
        LargeFrame(p.i2);
      } else {
        Beyond(p.i4, p.i3, p.i2, n);
      }
    }

    static lemma {:induction false} BootIsTree(mem: seq<Table>, n: nat)
      requires BootTables(mem, n)
      ensures IsTree(mem, 1, map[1 := [], 2 := [0], 3 := [0, 0]])
    {
      var owners: Owners := map[1 := [], 2 := [0], 3 := [0, 0]];
      forall i | 0 <= i < ENTRIES ensures !Follows(2, mem[3][i]) {
        DirectoryBits(n, i);
      }
      hide BootDirectory;
      assert IsParent(mem, owners, 1, 0, 2) && IsParent(mem, owners, 2, 0, 3);
    }

    constructor (frames: array<Table>, pmem: FrameAllocator, n: nat)
      requires pmem.Valid() && frames as object != pmem.bitmap as object
      requires pmem.totalPages <= frames.Length && BootTables(frames[..], n)
      ensures this.frames == frames && this.pmem == pmem && root == 1 && owners.Keys == {1, 2, 3}
      ensures IsTree(frames[..], root, owners)
      ensures Valid() <==> BootReady(pmem.Pages(), pmem.memoryStart)
      ensures pmem.Pages() == InitiallyUsed(pmem.totalPages) ==>
        (Valid() <==> pmem.totalPages > 98304 && pmem.totalPages * PAGE_SIZE <= pmem.memoryStart)
      ensures IdentityMap(View(), n)
    {
      this.frames, this.pmem, this.root := frames, pmem, 1;
      this.owners := map[1 := [], 2 := [0], 3 := [0, 0]];
      new;
      hide Valid, IsTree, Flat, BootTables, IdentityMap, Used, FreeCount, InitiallyUsed, BootReady;
      BootIsTree(frames[..], n);
      BootInUse();
      BootSafe(pmem.totalPages, pmem.memoryStart);
      BootView(frames[..], n);
    }

    // ----- Tables ------------------------------------------------------------

    /** The zeroing loop, a word at a time, and again for the bytes of the bitmap. */
    method ZeroFrame(f: nat)
      requires f < frames.Length && pmem.totalPages <= 8 * pmem.bitmap.Length
      requires frames as object != pmem.bitmap as object
      modifies frames, pmem.bitmap
      ensures frames[..] == old(frames[..])[f := Zeros()]
      ensures pmem.Pages() == Wiped(old(pmem.Pages()), pmem.memoryStart, f)
    {
      pmem.ZeroFrame(f);
      ghost var used := pmem.Pages();
      var i := 0;
      while i < ENTRIES
        invariant 0 <= i <= ENTRIES && pmem.Pages() == used
        invariant frames[..] == old(frames[..])[f := frames[f]]
        invariant forall j :: 0 <= j < i ==> frames[f][j] == 0
      {
        frames[f] := frames[f][i := 0];
        i := i + 1;
      }
      assert frames[f] == Zeros();
    }

    /** alloc_page_table: a free page, zeroed; 0 when there is none. Should the
        page hold a part of the bitmap, the pages whose bits lie there read as
        free; that does not happen while no frame of the bitmap is free. */
    method AllocTable() returns (f: nat)
      requires TreeOk()
      modifies pmem, pmem.bitmap, frames
      ensures old(pmem.freePages) == 0 ==>
        f == 0 && TreeOk() && frames[..] == old(frames[..]) && pmem.freePages == 0 && pmem.Pages() == old(pmem.Pages())
      ensures old(pmem.freePages) > 0 ==>
        && f !in owners && 0 < f < pmem.totalPages <= 0x10_0000 && f == FirstFreePage(old(pmem.Pages()), 0)
        && !old(pmem.Pages())[f] && pmem.Pages() == Wiped(old(pmem.Pages())[f := true], pmem.memoryStart, f)
        && pmem.freePages == old(pmem.freePages) - 1 && frames[..] == old(frames[..])[f := Zeros()]
      ensures old(pmem.freePages) > 0 && old(BitmapKept()) ==>
        !pmem.HoldsBitmap(f) && pmem.Valid() && pmem.Pages() == old(pmem.Pages())[f := true]
    {
      hide IsTree, Used, FreeCount, Flat, Zeros, Holds, Wiped;
      ghost var used := pmem.Pages();
      ghost var page := FirstFreePage(used, 0);
      assert page < |used| ==> page > 0 && page * PAGE_SIZE / PAGE_SIZE == page;
      var addr := pmem.AllocPage();
      if addr == 0 { return 0; }
      f := addr / PAGE_SIZE;
      ZeroFrame(f);
      if !pmem.HoldsBitmap(f) { WipedElsewhere(used[f := true], pmem.memoryStart, f); }
    }

    /** A store to an entry of a table. It must not hit the bitmap. */
    method Store(g: nat, i: nat, e: Word)
      requires g < frames.Length && i < ENTRIES && !pmem.HoldsBitmap(g)
      modifies frames
      ensures frames[..] == old(frames[..])[g := old(frames[..])[g][i := e]]
    {
      frames[g] := frames[g][i := e];
    }

    /** parent[index] = new_table | PAGE_PRESENT | PAGE_WRITE. */
    method SetEntry(ghost mem: seq<Table>, g: nat, i: nat, f: nat)
      requires g < |mem| && i < ENTRIES && f < |mem| && f < 0x10_0000 && !pmem.HoldsBitmap(g)
      requires frames[..] == mem[f := Zeros()]
      modifies frames
      ensures frames[..] == WithTable(mem, g, i, f)
    {
      Store(g, i, TableEntry(f));
    }

    /** get_or_create_table. The child of a present entry, or a new empty table
        when one is asked for; 0 on failure. Neither changes a translation. */
    method GetOrCreate(g: nat, i: nat, create: bool, ghost p: Page) returns (child: nat)
      requires Valid() && g in owners && |owners[g]| < 3 && p.Valid()
      requires owners[g] == p.Path(|owners[g]|) && i == p.At(|owners[g]|)
      requires |owners[g]| == 2 ==> !Huge(frames[..][g][i])
      modifies this, pmem, pmem.bitmap, frames
      ensures Valid() && View() == old(View())
      ensures TablesGrew(old(pmem.Pages()), pmem.Pages(), old(owners), owners)
      ensures owners.Values == old(owners).Values + if child == 0 then {} else {p.Path(|old(owners)[g]| + 1)}
      ensures var level, present := |old(owners)[g]|, Present(old(frames[..])[g][i]);
        && (!create ==> frames[..] == old(frames[..]) && owners == old(owners)
                        && pmem.freePages == old(pmem.freePages) && pmem.Pages() == old(pmem.Pages()))
        && (child == 0 <==> !present && (!create || old(pmem.freePages) == 0))
        && (child == 0 ==> frames[..] == old(frames[..]) && pmem.freePages == old(pmem.freePages)
                           && Missing(frames[..], g, p, level) > 0)
        && (child != 0 ==>
              && child < frames.Length && child in owners && owners[child] == p.Path(level + 1)
              && pmem.freePages + (if present then 0 else 1) == old(pmem.freePages)
              && Missing(frames[..], child, p, level + 1) + (if present then 0 else 1)
                 == Missing(old(frames[..]), g, p, level))
    {
      hide IsTree, Used, FreeCount, Flat, Present, Huge, Frame, Missing, WithTable, TableEntry, Zeros, Holds, Wiped;
      ghost var mem, level := frames[..], |owners[g]|;
      hide TablesGrew;
      FollowEntry(mem, root, owners, g, p, level);
      NothingGrew(pmem.Pages(), owners);
      assert owners.Values + {} == owners.Values;
      if Present(frames[g][i]) {
        SameValues(owners, Frame(frames[g][i]));
        return Frame(frames[g][i]);
      }
      if !create { return 0; }
      ghost var used := pmem.Pages();
      var f := AllocTable();
      if f == 0 { return 0; }
      TableAdded(mem, root, owners, g, i, f);
      TableAddedFlat(mem, root, owners, g, i, f);
      MissingAfterAdd(mem, g, f, p, level);
      PathStep(p, level + 1);
      SetEntry(mem, g, i, f);
      GrewByOne(used, owners, f, owners[g] + [i]);
      owners := owners[f := owners[g] + [i]];
      return f;
    }

    // ----- Single pages --------------------------------------------------------

    static lemma {:induction false} NeededIs(p: Page)
      ensures Needed(p) == PathsFrom(p, 1)
    {
    }

    lemma TreeRoot(p: Page)
      requires Valid()
      ensures root < frames.Length && root in owners && owners[root] == p.Path(0) == []
    {
    }

    lemma CountMissing(p: Page)
      requires Valid() && p.Valid()
      ensures p !in View() ==> Missing(frames[..], root, p, 0) == TablesMissing(Needed(p), owners.Values)
      ensures IsStep(View(), View())
    {
      hide IsTree, Translate, Missing, Needed, PathsFrom, Used, FreeCount, RangeMapped, RangeUnmapped;
      TreeRoot(p);
      if p !in View() {
        MissingCounts(frames[..], root, owners, root, p, 0);
        NeededIs(p);
      }
    }

    lemma FlatSays(p: Page)
      requires p.Valid()
      ensures p in View() <==> Translate(frames[..], root, p).Some?
      ensures p in View() ==> View()[p] == Translate(frames[..], root, p).value
    {
      hide Translate;
    }

    static lemma {:induction false} AllNeeded(p: Page, paths: set<seq<nat>>)
      ensures paths + {p.Path(1)} + {p.Path(2)} + {p.Path(3)} == paths + Needed(p)
    {
      assert PathsFrom(p, 4) == {} && PathsFrom(p, 3) == {p.Path(3)} && PathsFrom(p, 2) == {p.Path(2), p.Path(3)};
    }

    lemma {:induction false} NoneMissing(mem: seq<Table>, pt: nat, p: Page)
      ensures Missing(mem, pt, p, 3) == 0
    {
    }

    lemma TablesMissBitmap(f: nat)
      requires Valid() && f in owners
      ensures f < frames.Length && !pmem.HoldsBitmap(f)
    {
    }

    /** A store to the entry of a page table that maps page p. */
    method PutLeaf(pt: nat, ghost p: Page, i: nat, e: Word)
      requires Valid() && p.Valid() && i == p.i1 && pt in owners && owners[pt] == p.Path(3)
      modifies frames
      ensures Valid() && View() == if Present(e) then old(View())[p := Small(e)] else old(View()) - {p}
    {
      hide IsTree, Used, FreeCount, Present, Huge, Frame, Flat, Holds;
      AtTable(frames[..], root, owners, pt, p);
      LeafWritten(frames[..], root, owners, pt, p, e);
      TablesMissBitmap(pt);
      Store(pt, i, e);
    }

    /** vmm_map_page. It succeeds exactly when the page is not mapped yet, by a
        4 KiB or a 2 MiB page, and there is memory for the missing tables; then
        the flat map has one page more. A failed call changes no translation,
        even if it created some tables. */
    method MapPage(virt: Word, phys: Word, flags: Word) returns (rc: int)
      requires Valid() && FlagsOk(flags)
      modifies this, pmem, pmem.bitmap, frames
      ensures Valid()
      ensures var p := PageOf(virt);
        var needed := TablesMissing(Needed(p), old(owners).Values);
        && (rc == 0 || rc == -1)
        && (rc == 0 <==> p !in old(View()) && needed <= old(pmem.freePages))
        && (rc == 0 ==> View() == old(View())[p := Small(LeafEntry(phys, flags))]
                        && pmem.freePages + needed == old(pmem.freePages)
                        && owners.Values == old(owners).Values + Needed(p))
        && (rc == -1 ==> View() == old(View()))
      ensures TablesGrew(old(pmem.Pages()), pmem.Pages(), old(owners), owners)
      ensures IsStep(old(View()), View())
    {
      hide IsTree, TablesInUse, Used, FreeCount, Present, Huge, Frame, Missing, LeafEntry, PageOf, FlagsOk, TablesGrew,
           IsStep,
           BitmapKept, PathsFrom, Needed, Flat, TablesMissing, Page.Path, GoesThrough, Translate, Reach;
      ghost var view, p, used, tables := View(), PageOf(virt), pmem.Pages(), owners;
      ghost var free, needed := pmem.freePages, Missing(frames[..], root, p, 0);
      TreeRoot(p);
      CountMissing(p);
      var pdpt := GetOrCreate(root, PageOf(virt).i4, true, p);
      if pdpt == 0 { return -1; }
      ghost var used1, tables1 := pmem.Pages(), owners;
      var pd := GetOrCreate(pdpt, PageOf(virt).i3, true, p);
      GrewOn(used, used1, pmem.Pages(), tables, tables1, owners);
      if pd == 0 { return -1; }
      ghost var used2, tables2 := pmem.Pages(), owners;
      AtDirectory(frames[..], root, owners, pd, p);
      FollowEntry(frames[..], root, owners, pd, p, 2);
      FlatSays(p);
      if Huge(frames[pd][PageOf(virt).i2]) { return -1; }
      var pt := GetOrCreate(pd, PageOf(virt).i2, true, p);
      GrewOn(used, used2, pmem.Pages(), tables, tables2, owners);
      if pt == 0 { return -1; }
      AtTable(frames[..], root, owners, pt, p);
      FlatSays(p);
      NoneMissing(frames[..], pt, p);
      if Present(frames[pt][PageOf(virt).i1]) { return -1; }
      AllNeeded(p, tables.Values);
      MapIsStep(view, virt, phys, flags);
      LeafEntryBits(phys, flags);
      PutLeaf(pt, p, PageOf(virt).i1, LeafEntry(phys, flags));
      return 0;
    }

    lemma ZeroIsClear()
      ensures !Present(0)
    {
    }

    /** vmm_unmap_page: removes the page if it is a 4 KiB page, and fails
        without any change otherwise. */
    method UnmapPage(virt: Word) returns (rc: int)
      requires Valid()
      modifies this, pmem, pmem.bitmap, frames
      ensures Valid() && owners == old(owners) && pmem.freePages == old(pmem.freePages)
      ensures pmem.Pages() == old(pmem.Pages())
      ensures var p := PageOf(virt);
        && (rc == 0 || rc == -1)
        && (rc == 0 <==> p in old(View()) && old(View())[p].Small?)
        && (rc == 0 ==> View() == old(View()) - {p})
        && (rc == -1 ==> View() == old(View()))
      ensures IsStep(old(View()), View())
    {
      hide IsTree, TablesInUse, Used, FreeCount, Present, Huge, Frame, Missing, PageOf, IsStep, Flat, Needed, PathsFrom,
           TablesGrew,
           BitmapKept, Page.Path;
      ghost var view, p := View(), PageOf(virt);
      TreeRoot(p);
      FlatSays(p);
      CountMissing(p);
      var pdpt := GetOrCreate(root, PageOf(virt).i4, false, p);
      if pdpt == 0 {
        AtMissing(frames[..], root, owners, root, p, 0);
        return -1;
      }
      var pd := GetOrCreate(pdpt, PageOf(virt).i3, false, p);
      if pd == 0 {
        AtMissing(frames[..], root, owners, pdpt, p, 1);
        return -1;
      }
      AtDirectory(frames[..], root, owners, pd, p);
      FlatSays(p);
      if Huge(frames[pd][PageOf(virt).i2]) { return -1; }
      var pt := GetOrCreate(pd, PageOf(virt).i2, false, p);
      if pt == 0 { return -1; }
      AtTable(frames[..], root, owners, pt, p);
      if !Present(frames[pt][PageOf(virt).i1]) { return -1; }
      ZeroIsClear();
      UnmapIsStep(view, virt);
      PutLeaf(pt, p, PageOf(virt).i1, 0);
      return 0;
    }

    /** vmm_get_physical. */
    method GetPhysical(virt: Word) returns (phys: nat)
      requires Valid()
      ensures phys == Physical(View(), virt)
    {
      hide IsTree, TablesInUse, Used, FreeCount, Present, Huge, Frame, PageOf;
      ghost var p := PageOf(virt);
      TreeRoot(p);
      FollowEntry(frames[..], root, owners, root, p, 0);
      if !Present(frames[root][PageOf(virt).i4]) {
        AtMissing(frames[..], root, owners, root, p, 0);
        return 0;
      }
      var pdpt := Frame(frames[root][PageOf(virt).i4]);
      FollowEntry(frames[..], root, owners, pdpt, p, 1);
      if !Present(frames[pdpt][PageOf(virt).i3]) {
        AtMissing(frames[..], root, owners, pdpt, p, 1);
        return 0;
      }
      var pd := Frame(frames[pdpt][PageOf(virt).i3]);
      FollowEntry(frames[..], root, owners, pd, p, 2);
      AtDirectory(frames[..], root, owners, pd, p);
      var e2: int := frames[pd][PageOf(virt).i2];
      if Huge(e2) {
        return e2 / 0x20_0000 % 0x8000_0000 * 0x20_0000 + virt % 0x20_0000;
      }
      if !Present(e2) { return 0; }
      var pt := Frame(e2);
      AtTable(frames[..], root, owners, pt, p);
      if !Present(frames[pt][PageOf(virt).i1]) { return 0; }
      return Frame(frames[pt][PageOf(virt).i1]) * PAGE_SIZE + virt % PAGE_SIZE;
    }

    // ----- Ranges ----------------------------------------------------------------

    /** The unmapping loop of a failed vmm_map_pages. */
    method Rollback(virt: Word, n: nat)
      requires Valid()
      modifies this, pmem, pmem.bitmap, frames
      ensures Valid() && View() == RangeUnmapped(old(View()), virt, n)
      ensures owners == old(owners) && pmem.freePages == old(pmem.freePages) && pmem.Pages() == old(pmem.Pages())
    {
      hide View, IsTree, TablesInUse, PageOf, RangePage, RangeUnmapped, IsStep, Used, FreeCount;
      ghost var view := View();
      RangeUnmappedStep(view, virt, 0);
      var j := 0;
      while j < n
        invariant 0 <= j <= n && Valid()
        invariant owners == old(owners) && pmem.freePages == old(pmem.freePages) && pmem.Pages() == old(pmem.Pages())
        invariant View() == RangeUnmapped(view, virt, j)
      {
        RangeUnmappedStep(view, virt, j);
        var r := UnmapPage((virt + j * PAGE_SIZE) % U64);
        j := j + 1;
      }
    }

    /** vmm_map_pages: all or nothing. It succeeds exactly when nothing of the range
        is mapped and there is memory for all the tables it needs. Where it
        fails, what it had mapped is unmapped again and the flat map is the one
        before the call. */
    method MapPages(virt: Word, phys: Word, count: nat, flags: Word) returns (rc: int)
      requires Valid() && FlagsOk(flags) && count < U32
      modifies this, pmem, pmem.bitmap, frames
      ensures Valid()
      ensures rc == 0 || rc == -1
      ensures rc == 0 <==>
        && (forall i :: 0 <= i < count ==> RangePage(virt, i) !in old(View()))
        && TablesMissing(RangeNeeded(virt, count), old(owners).Values) <= old(pmem.freePages)
      ensures rc == 0 ==>
        && View() == RangeMapped(old(View()), virt, phys, flags, count)
        && pmem.freePages + TablesMissing(RangeNeeded(virt, count), old(owners).Values) == old(pmem.freePages)
      ensures rc == -1 ==> View() == old(View())
      ensures TablesGrew(old(pmem.Pages()), pmem.Pages(), old(owners), owners)
      ensures IsStep(old(View()), View())
    {
      hide View, IsTree, TablesInUse, Flat, PageOf, LeafEntry, FlagsOk, RangePage, RangePages, RangeMapped,
           RangeUnmapped, RangeNeeded, Needed,
           PathsFrom, TablesGrew, IsStep, TablesMissing, Used, FreeCount;
      ghost var view, used, tables, free := View(), pmem.Pages(), owners, pmem.freePages;
      StartRange(view, virt, phys, flags, tables.Values);
      NothingGrew(used, tables);
      var i := 0;
      while i < count
        invariant 0 <= i <= count && Valid()
        invariant View() == RangeMapped(view, virt, phys, flags, i)
        invariant forall k :: 0 <= k < i ==> RangePage(virt, k) !in view
        invariant owners.Values == tables.Values + RangeNeeded(virt, i)
        invariant pmem.freePages + TablesMissing(RangeNeeded(virt, i), tables.Values) == free
        invariant TablesGrew(used, pmem.Pages(), tables, owners)
      {
        ghost var usedNow, tablesNow, freeNow := pmem.Pages(), owners, pmem.freePages;
        RangeRound(view, virt, phys, flags, i, tables.Values, owners.Values);
        var r := MapPage((virt + i * PAGE_SIZE) % U64, (phys + i * PAGE_SIZE) % U64, flags);
        GrewOn(used, usedNow, pmem.Pages(), tables, tablesNow, owners);
        if r != 0 {
          RangeFails(virt, i, count, tables.Values);
          Rollback(virt, i);
          RollbackRestores(view, virt, phys, flags, i);
          NoStep(view);
          return -1;
        }
        i := i + 1;
      }
      RangeIsStep(view, virt, phys, flags, count);
      return 0;
    }

    /** vmm_unmap_pages: unmaps what it can, and reports whether all of the
        range was 4 KiB pages. */
    method UnmapPages(virt: Word, count: nat) returns (result: int)
      requires Valid() && count < U32
      modifies this, pmem, pmem.bitmap, frames
      ensures Valid() && View() == RangeUnmapped(old(View()), virt, count)
      ensures owners == old(owners) && pmem.freePages == old(pmem.freePages) && pmem.Pages() == old(pmem.Pages())
      ensures IsStep(old(View()), View())
      ensures result == 0 || result == -1
      ensures result == 0 <==>
        forall i :: 0 <= i < count ==> RangePage(virt, i) in old(View()) && old(View())[RangePage(virt, i)].Small?
    {
      hide View, IsTree, TablesInUse, PageOf, RangePage, RangePages, RangeUnmapped, IsStep, Used, FreeCount;
      ghost var view := View();
      RangeUnmappedStep(view, virt, 0);
      result := 0;
      var i := 0;
      while i < count
        invariant 0 <= i <= count && Valid() && View() == RangeUnmapped(view, virt, i)
        invariant owners == old(owners) && pmem.freePages == old(pmem.freePages) && pmem.Pages() == old(pmem.Pages())
        invariant result == 0 || result == -1
        invariant result == 0 <==>
          forall k :: 0 <= k < i ==> RangePage(virt, k) in view && view[RangePage(virt, k)].Small?
      {
        RangeUnmappedFacts(view, virt, i);
        RangeUnmappedStep(view, virt, i);
        NotYet(virt, i);
        var r := UnmapPage((virt + i * PAGE_SIZE) % U64);
        if r != 0 { result := -1; }
        i := i + 1;
      }
      UnmappedIsStep(view, virt, count);
    }
  }
}
