/** Four-level page tables as values (src/vmm.c, include/vmm.h; Intel SDM
    volume 3A section 4.5): what the walk finds, and the tree the tables form. */
module PageTables {
  import opened Bytes
  import opened Collections
  import opened PageFrames

  const ENTRIES := 512

  type Word = w: int | 0 <= w < U64

  type Table = t: seq<Word> | |t| == 512 witness seq(512, i => 0)

  // ----- Entries ---------------------------------------------------------

  /** Bit 0. */
  predicate Present(e: Word) { e % 2 == 1 }

  /** Bit 7. */
  predicate Huge(e: Word) { e / 0x80 % 2 == 1 }

  /** Bits 12 to 51, as a frame number. */
  function Frame(e: Word): nat { e / PAGE_SIZE % 0x100_0000_0000 }

  /** The entry for a new table: address, present, writable. */
  function TableEntry(frame: nat): (e: Word)
    requires frame < 0x10_0000
    ensures Present(e) && !Huge(e) && Frame(e) == frame
  {
    frame * PAGE_SIZE + 3
  }

  /** Besides the address, exactly the present and the writable bit are set. */
  lemma TableEntryBits(frame: nat)
    requires frame < 0x10_0000
    ensures TableEntry(frame) - Frame(TableEntry(frame)) * PAGE_SIZE == 1 + 2
  {
  }

  /** Flags keep clear of the address bits. */
  predicate FlagsOk(flags: Word) { Frame(flags) == 0 }

  /** The entry for a mapped page: address bits, flags, and the present bit
      whether or not the flags had it. */
  function LeafEntry(phys: Word, flags: Word): (e: Word)
    requires FlagsOk(flags)
  {
    Frame(phys) * PAGE_SIZE + (if Present(flags) then flags else flags + 1)
  }

  lemma Quotient(k: nat, r: nat)
    requires r < PAGE_SIZE
    ensures (PAGE_SIZE * k + r) / PAGE_SIZE == k && (PAGE_SIZE * k + r) % 2 == r % 2
  {
  }

  lemma Remainder(x: nat, q: nat)
    requires x < 0x100_0000_0000
    ensures (x + q * 0x100_0000_0000) % 0x100_0000_0000 == x
  {
  }

  lemma AddFrame(x: nat, f: nat, q: nat)
    requires x < 0x100_0000_0000 && f / PAGE_SIZE == q * 0x100_0000_0000
    ensures (x * PAGE_SIZE + f) / PAGE_SIZE % 0x100_0000_0000 == x
    ensures (x * PAGE_SIZE + f) % 2 == f % 2
  {
    var k, r := x + q * 0x100_0000_0000, f % PAGE_SIZE;
    assert f == PAGE_SIZE * (q * 0x100_0000_0000) + r;
    Quotient(q * 0x100_0000_0000, r);
    Quotient(k, r);
    assert x * PAGE_SIZE + f == PAGE_SIZE * k + r;
    Remainder(x, q);
  }

  /** The bits outside the address field are the flags. */
  lemma {:induction false} LeafEntryBits(phys: Word, flags: Word)
    requires FlagsOk(flags)
    ensures var e := LeafEntry(phys, flags);
            && Present(e) && Frame(e) == Frame(phys)
            && e - Frame(e) * PAGE_SIZE == (if Present(flags) then flags else flags + 1)
  {
    var f := if Present(flags) then flags else flags + 1;
    var x, q := Frame(phys), flags / PAGE_SIZE / 0x100_0000_0000;
    assert flags / PAGE_SIZE == q * 0x100_0000_0000;
    assert f / PAGE_SIZE == flags / PAGE_SIZE;
    AddFrame(x, f, q);
  }

  // ----- Virtual pages -----------------------------------------------------

  /** A virtual page: one index per level, from the PML4 down. */
  datatype Page = Page(i4: nat, i3: nat, i2: nat, i1: nat) {
    predicate Valid() { i4 < ENTRIES && i3 < ENTRIES && i2 < ENTRIES && i1 < ENTRIES }

    function At(level: nat): nat
      requires level < 4
    {
      if level == 0 then i4 else if level == 1 then i3 else if level == 2 then i2 else i1
    }

    /** The indices that lead to the page's table at this level. */
    function Path(level: nat): (p: seq<nat>)
      requires level < 4
      ensures |p| == level
    {
      [i4, i3, i2][..level]
    }
  }

  /** The index macros of vmm.h; bits 48 and up are ignored. */
  function PageOf(virt: Word): (p: Page)
    ensures p.Valid()
  {
    Page(virt / 0x80_0000_0000 % ENTRIES, virt / 0x4000_0000 % ENTRIES, virt / 0x20_0000 % ENTRIES,
         virt / PAGE_SIZE % ENTRIES)
  }

  lemma Shifts(a: nat)
    ensures a / 0x20_0000 == a / PAGE_SIZE / ENTRIES
    ensures a / 0x4000_0000 == a / PAGE_SIZE / ENTRIES / ENTRIES
    ensures a / 0x80_0000_0000 == a / PAGE_SIZE / ENTRIES / ENTRIES / ENTRIES
  {
  }

  lemma LastDigit(n: nat)
    ensures n % 0x10_0000_0000 == n / ENTRIES % 0x800_0000 * ENTRIES + n % ENTRIES
  {
  }

  lemma MiddleDigit(n: nat)
    ensures n % 0x800_0000 == n / ENTRIES % 0x4_0000 * ENTRIES + n % ENTRIES
  {
  }

  lemma FirstDigits(n: nat)
    ensures n % 0x4_0000 == n / ENTRIES % ENTRIES * ENTRIES + n % ENTRIES
  {
  }

  lemma {:induction false} Digits(a: Word)
    ensures var p := PageOf(a);
            a / PAGE_SIZE % 0x10_0000_0000 == ((p.i4 * ENTRIES + p.i3) * ENTRIES + p.i2) * ENTRIES + p.i1
  {
    var n := a / PAGE_SIZE;
    Shifts(a);
    LastDigit(n);
    MiddleDigit(n / ENTRIES);
    FirstDigits(n / ENTRIES / ENTRIES);
  }

  lemma SameDigits(x: nat, y: nat, u: nat, v: nat)
    requires y < ENTRIES && v < ENTRIES
    ensures x * ENTRIES + y == u * ENTRIES + v <==> x == u && y == v
  {
  }

  lemma SamePage(p: Page, q: Page)
    requires p.Valid() && q.Valid()
    ensures p == q <==>
      ((p.i4 * ENTRIES + p.i3) * ENTRIES + p.i2) * ENTRIES + p.i1
      == ((q.i4 * ENTRIES + q.i3) * ENTRIES + q.i2) * ENTRIES + q.i1
  {
    SameDigits((p.i4 * ENTRIES + p.i3) * ENTRIES + p.i2, p.i1, (q.i4 * ENTRIES + q.i3) * ENTRIES + q.i2, q.i1);
    SameDigits(p.i4 * ENTRIES + p.i3, p.i2, q.i4 * ENTRIES + q.i3, q.i2);
    SameDigits(p.i4, p.i3, q.i4, q.i3);
  }

  /** Two addresses are on one page exactly when they agree in bits 12 to 47. */
  lemma {:induction false} PageOfExact(a: Word, b: Word)
    ensures PageOf(a) == PageOf(b) <==> a / PAGE_SIZE % 0x10_0000_0000 == b / PAGE_SIZE % 0x10_0000_0000
  {
    hide PageOf;
    Digits(a);
    Digits(b);
    SamePage(PageOf(a), PageOf(b));
  }

  // ----- The walk -----------------------------------------------------------

  /** An entry the walk follows to another table: present, and in a page
      directory not a 2 MiB page. */
  predicate Follows(level: nat, e: Word) {
    Present(e) && !(level == 2 && Huge(e))
  }

  /** The entry of table f at index i; outside memory nothing is present. */
  function EntryAt(mem: seq<Table>, f: nat, i: nat): Word {
    if f < |mem| && i < ENTRIES then mem[f][i] else 0
  }

  /** The table of this level on the way to the page. */
  function Reach(mem: seq<Table>, root: nat, p: Page, level: nat): Option<nat>
    requires level < 4
  {
    if level == 0 then Some(root)
    else
      match Reach(mem, root, p, level - 1)
      case None => None
      case Some(f) =>
        var e := EntryAt(mem, f, p.At(level - 1));
        if Follows(level - 1, e) then Some(Frame(e)) else None
  }

  datatype Leaf = Small(entry: Word) | Large(entry: Word)

  /** What a virtual page is mapped to. As in the source, a page-directory entry
      is tested for its size bit first. */
  function Translate(mem: seq<Table>, root: nat, p: Page): Option<Leaf> {
    match Reach(mem, root, p, 2)
    case None => None
    case Some(pd) =>
      var e2 := EntryAt(mem, pd, p.i2);
      if Huge(e2) then Some(Large(e2))
      else if !Present(e2) then None
      else
        var e1 := EntryAt(mem, Frame(e2), p.i1);
        if Present(e1) then Some(Small(e1)) else None
  }

  /** The whole address space as one flat map. */
  ghost function Flat(mem: seq<Table>, root: nat): imap<Page, Leaf> {
    imap p: Page | p.Valid() && Translate(mem, root, p).Some? :: Translate(mem, root, p).value
  }

  // ----- The tree -------------------------------------------------------------

  /** Which frames hold tables, and the path of indices that leads to each. */
  type Owners = map<nat, seq<nat>>

  ghost predicate IsParent(mem: seq<Table>, owners: Owners, g: nat, i: nat, f: nat) {
    && g in owners && g < |mem| && |owners[g]| < 3 && i < ENTRIES
    && Follows(|owners[g]|, mem[g][i]) && Frame(mem[g][i]) == f
  }

  ghost predicate HasParent(mem: seq<Table>, owners: Owners, f: nat)
    requires f in owners
  {
    exists g, i :: IsParent(mem, owners, g, i, f)
  }

  ghost predicate IsTree(mem: seq<Table>, root: nat, owners: Owners) {
    && root in owners && owners[root] == []
    && (forall f :: f in owners ==> f < |mem| && |owners[f]| <= 3)
    && (forall f, g :: f in owners && g in owners && owners[f] == owners[g] ==> f == g)
    && (forall f, i :: f in owners && |owners[f]| < 3 && 0 <= i < ENTRIES && Follows(|owners[f]|, mem[f][i]) ==>
          Frame(mem[f][i]) in owners && owners[Frame(mem[f][i])] == owners[f] + [i])
    && (forall f :: f in owners && f != root ==> HasParent(mem, owners, f))
  }

  /** Every table but the root has exactly one entry pointing to it. */
  lemma {:induction false} OneParent(mem: seq<Table>, root: nat, owners: Owners, f: nat, g: nat, i: nat, h: nat, j: nat)
    requires IsTree(mem, root, owners) && f in owners
    requires IsParent(mem, owners, g, i, f) && IsParent(mem, owners, h, j, f)
    ensures g == h && i == j && f != root
  {
    assert owners[f] == owners[g] + [i] == owners[h] + [j];
    assert (owners[g] + [i])[|owners[g]|] == i && (owners[h] + [j])[|owners[h]|] == j;
    assert (owners[g] + [i])[..|owners[g]|] == owners[g];
    assert (owners[h] + [j])[..|owners[h]|] == owners[h];
  }

  lemma PathStep(p: Page, level: nat)
    requires 0 < level < 4
    ensures p.Path(level) == p.Path(level - 1) + [p.At(level - 1)]
  {
  }

  /** The walk stays in the tree. */
  lemma {:induction false} ReachOwned(mem: seq<Table>, root: nat, owners: Owners, p: Page, level: nat)
    requires IsTree(mem, root, owners) && p.Valid() && level < 4
    ensures var r := Reach(mem, root, p, level);
            r.Some? ==> r.value in owners && owners[r.value] == p.Path(level)
  {
    hide Present, Huge, Frame, Follows, HasParent;
    if level > 0 {
      ReachOwned(mem, root, owners, p, level - 1);
      PathStep(p, level);
    }
  }

  /** Memory after entry i of table g, and perhaps a frame that is no table,
      were written. */
  ghost predicate Wrote(mem: seq<Table>, mem1: seq<Table>, owners: Owners, g: nat, i: nat) {
    && |mem1| == |mem| && g in owners && g < |mem| && i < ENTRIES
    && (forall f :: f in owners && f != g && f < |mem| ==> mem1[f] == mem[f])
    && (forall j :: 0 <= j < ENTRIES && j != i ==> mem1[g][j] == mem[g][j])
  }

  /** The walk to this page reads entry i of table g. */
  ghost predicate GoesThrough(p: Page, path: seq<nat>, i: nat) {
    |path| < 4 && p.Path(|path|) == path && p.At(|path|) == i
  }

  /** Writing one entry cannot alter any other path: the tables on the way to a
      page whose walk does not read that entry stay the same. */
  lemma {:induction false} OtherPaths(mem: seq<Table>, mem1: seq<Table>, root: nat, owners: Owners, g: nat, i: nat,
                                      p: Page, level: nat)
    requires IsTree(mem, root, owners) && Wrote(mem, mem1, owners, g, i)
    requires p.Valid() && level < 4 && !GoesThrough(p, owners[g], i)
    ensures Reach(mem1, root, p, level) == Reach(mem, root, p, level)
    ensures var r := Reach(mem, root, p, level);
            r.Some? ==> EntryAt(mem1, r.value, p.At(level)) == EntryAt(mem, r.value, p.At(level))
  {
    hide Present, Huge, Frame, Follows, HasParent;
    ReachOwned(mem, root, owners, p, level);
    if level > 0 {
      OtherPaths(mem, mem1, root, owners, g, i, p, level - 1);
    }
  }

  lemma {:induction false} OtherTranslations(mem: seq<Table>, mem1: seq<Table>, root: nat, owners: Owners, g: nat,
          i: nat, p: Page)
    requires IsTree(mem, root, owners) && Wrote(mem, mem1, owners, g, i)
    requires p.Valid() && !GoesThrough(p, owners[g], i)
    ensures Translate(mem1, root, p) == Translate(mem, root, p)
  {
    hide IsTree, Wrote, GoesThrough;
    OtherPaths(mem, mem1, root, owners, g, i, p, 2);
    OtherPaths(mem, mem1, root, owners, g, i, p, 3);
  }

  lemma LastOfPath(a: seq<nat>, i: nat, b: seq<nat>, j: nat)
    requires a + [i] == b + [j]
    ensures a == b && i == j
  {
    assert (a + [i])[|a|] == i && (b + [j])[|b|] == j;
    assert (a + [i])[..|a|] == a && (b + [j])[..|b|] == b;
  }

  lemma {:induction false} OnlyRoot(mem: seq<Table>, root: nat, owners: Owners, f: nat)
    requires IsTree(mem, root, owners) && f in owners && owners[f] == []
    ensures f == root && f < |mem|
  {
  }

  lemma {:induction false} ParentOf(mem: seq<Table>, root: nat, owners: Owners, f: nat) returns (g: nat, i: nat)
    requires IsTree(mem, root, owners) && f in owners && owners[f] != []
    ensures IsParent(mem, owners, g, i, f) && owners[f] == owners[g] + [i]
  {
    hide Follows, Frame, Present, Huge;
    assert f != root && HasParent(mem, owners, f);
    g, i :| IsParent(mem, owners, g, i, f);
  }

  lemma {:induction false} ParentOnPath(mem: seq<Table>, root: nat, owners: Owners, f: nat, p: Page,
          level: nat) returns (g: nat)
    requires IsTree(mem, root, owners) && f in owners && 0 < level < 4 && p.Valid() && owners[f] == p.Path(level)
    ensures g in owners && owners[g] == p.Path(level - 1) && g < |mem|
    ensures Follows(level - 1, mem[g][p.At(level - 1)]) && Frame(mem[g][p.At(level - 1)]) == f
  {
    hide IsTree, Follows, Frame, Page.Path, Page.At;
    PathStep(p, level);
    var i;
    g, i := ParentOf(mem, root, owners, f);
    LastOfPath(owners[g], i, p.Path(level - 1), p.At(level - 1));
  }

  /** The walk to a page gets to every table on the page's path. */
  lemma {:induction false} Reached(mem: seq<Table>, root: nat, owners: Owners, f: nat, p: Page, level: nat)
    requires IsTree(mem, root, owners) && f in owners && level < 4 && p.Valid() && owners[f] == p.Path(level)
    ensures Reach(mem, root, p, level) == Some(f)
    decreases level
  {
    hide Present, Huge, Frame, Follows, IsTree;
    if level == 0 {
      OnlyRoot(mem, root, owners, f);
    } else {
      var g := ParentOnPath(mem, root, owners, f, p, level);
      Reached(mem, root, owners, g, p, level - 1);
    }
  }

  // ----- A page directory entry or a page table entry decides --------------------

  lemma {:induction false} AtDirectory(mem: seq<Table>, root: nat, owners: Owners, pd: nat, p: Page)
    requires IsTree(mem, root, owners) && pd in owners && p.Valid() && owners[pd] == p.Path(2)
    ensures pd < |mem|
    ensures Huge(mem[pd][p.i2]) ==> Translate(mem, root, p) == Some(Large(mem[pd][p.i2]))
    ensures !Huge(mem[pd][p.i2]) && !Present(mem[pd][p.i2]) ==> Translate(mem, root, p) == None
  {
    hide Present, Huge, Frame, Follows, HasParent;
    Reached(mem, root, owners, pd, p, 2);
  }

  lemma {:induction false} AtTable(mem: seq<Table>, root: nat, owners: Owners, pt: nat, p: Page)
    requires IsTree(mem, root, owners) && pt in owners && p.Valid() && owners[pt] == p.Path(3)
    ensures pt < |mem|
    ensures Translate(mem, root, p) == if Present(mem[pt][p.i1]) then Some(Small(mem[pt][p.i1])) else None
  {
    hide Present, Huge, Frame, HasParent;
    Reached(mem, root, owners, pt, p, 3);
  }

  /** Nothing is mapped behind an upper-level entry that is not present. */
  lemma {:induction false} AtMissing(mem: seq<Table>, root: nat, owners: Owners, f: nat, p: Page, level: nat)
    requires IsTree(mem, root, owners) && f in owners && level < 3 && p.Valid() && owners[f] == p.Path(level)
    requires f < |mem| && !Present(mem[f][p.At(level)])
    requires level == 2 ==> !Huge(mem[f][p.At(level)])
    ensures Translate(mem, root, p) == None
  {
    if level == 2 {
      AtDirectory(mem, root, owners, f, p);
    } else {
      Reached(mem, root, owners, f, p, level);
      assert Reach(mem, root, p, level + 1) == None;
    }
  }

  // ----- Adding a table ------------------------------------------------------------

  function Zeros(): Table {
    seq(ENTRIES, i => 0)
  }

  function WithTable(mem: seq<Table>, g: nat, i: nat, f: nat): seq<Table>
    requires g < |mem| && i < ENTRIES && f < |mem| && f < 0x10_0000
  {
    var zeroed := mem[f := Zeros()];
    zeroed[g := zeroed[g][i := TableEntry(f)]]
  }

  lemma {:induction false} NewPath(mem: seq<Table>, root: nat, owners: Owners, g: nat, i: nat)
    requires IsTree(mem, root, owners) && g in owners && |owners[g]| < 3 && i < ENTRIES && g < |mem|
    requires !Present(mem[g][i])
    ensures forall h :: h in owners ==> owners[h] != owners[g] + [i]
  {
    forall h | h in owners && owners[h] == owners[g] + [i] ensures false {
      assert h != root;
      var k, j :| IsParent(mem, owners, k, j, h);
      LastOfPath(owners[k], j, owners[g], i);
    }
  }

  lemma {:induction false} ParentKept(mem: seq<Table>, owners: Owners, g: nat, i: nat, f: nat, h: nat)
    requires g in owners && |owners[g]| < 3 && i < ENTRIES && g < |mem| && !Present(mem[g][i])
    requires f !in owners && f < |mem| && f < 0x10_0000
    requires h == f || (h in owners && HasParent(mem, owners, h))
    ensures HasParent(WithTable(mem, g, i, f), owners[f := owners[g] + [i]], h)
  {
    var mem1, owners1 := WithTable(mem, g, i, f), owners[f := owners[g] + [i]];
    if h == f {
      assert IsParent(mem1, owners1, g, i, f);
    } else {
      var k, j :| IsParent(mem, owners, k, j, h);
      assert IsParent(mem1, owners1, k, j, h);
    }
  }

  lemma {:induction false} TableAdded(mem: seq<Table>, root: nat, owners: Owners, g: nat, i: nat, f: nat)
    requires IsTree(mem, root, owners) && g in owners && |owners[g]| < 3 && i < ENTRIES
    requires g < |mem| && !Present(mem[g][i])
    requires f !in owners && f < |mem| && f < 0x10_0000
    ensures IsTree(WithTable(mem, g, i, f), root, owners[f := owners[g] + [i]])
  {
    hide Huge, HasParent;
    var mem1, owners1 := WithTable(mem, g, i, f), owners[f := owners[g] + [i]];
    NewPath(mem, root, owners, g, i);
    assert mem1[g] == mem[g][i := TableEntry(f)] && mem1[f] == Zeros();
    forall h, j | h in owners1 && |owners1[h]| < 3 && 0 <= j < ENTRIES && Follows(|owners1[h]|, mem1[h][j])
      ensures Frame(mem1[h][j]) in owners1 && owners1[Frame(mem1[h][j])] == owners1[h] + [j]
    {
      assert h != f;
      if h == g && j == i {
        assert Frame(mem1[h][j]) == f;
      } else {
        assert mem1[h][j] == mem[h][j];
      }
    }
    forall h | h in owners1 && h != root ensures HasParent(mem1, owners1, h) {
      ParentKept(mem, owners, g, i, f, h);
    }
  }

  lemma {:induction false} TreeFrames(mem: seq<Table>, root: nat, owners: Owners)
    requires IsTree(mem, root, owners)
    ensures forall f :: f in owners ==> f < |mem|
  {
  }

  lemma {:induction false} BehindNewTable(mem: seq<Table>, root: nat, owners: Owners, g: nat, i: nat, f: nat, p: Page)
    requires IsTree(mem, root, owners) && g in owners && |owners[g]| < 3 && i < ENTRIES
    requires g < |mem| && !Present(mem[g][i]) && p.Valid() && GoesThrough(p, owners[g], i)
    requires f !in owners && f < |mem| && f < 0x10_0000
    ensures Translate(WithTable(mem, g, i, f), root, p) == None
  {
    hide IsTree, Translate, TableEntry;
    var mem1, owners1 := WithTable(mem, g, i, f), owners[f := owners[g] + [i]];
    var level := |owners[g]| + 1;
    TableAdded(mem, root, owners, g, i, f);
    PathStep(p, level);
    assert mem1[f] == Zeros() && !Present(mem1[f][p.At(level)]) && !Huge(mem1[f][p.At(level)]);
    if level == 3 {
      AtTable(mem1, root, owners1, f, p);
    } else {
      AtMissing(mem1, root, owners1, f, p, level);
    }
  }

  /** A new table is empty: it changes no translation. */
  lemma {:induction false} TableAddedSame(mem: seq<Table>, root: nat, owners: Owners, g: nat, i: nat, f: nat, p: Page)
    requires IsTree(mem, root, owners) && g in owners && |owners[g]| < 3 && i < ENTRIES
    requires g < |mem| && !Present(mem[g][i]) && (|owners[g]| == 2 ==> !Huge(mem[g][i]))
    requires f !in owners && f < |mem| && f < 0x10_0000 && p.Valid()
    ensures Translate(WithTable(mem, g, i, f), root, p) == Translate(mem, root, p)
  {
    hide IsTree, Translate, TableEntry;
    if GoesThrough(p, owners[g], i) {
      AtMissing(mem, root, owners, g, p, |owners[g]|);
      BehindNewTable(mem, root, owners, g, i, f, p);
    } else {
      assert Wrote(mem, WithTable(mem, g, i, f), owners, g, i) by { TreeFrames(mem, root, owners); }
      OtherTranslations(mem, WithTable(mem, g, i, f), root, owners, g, i, p);
    }
  }

  lemma {:induction false} TableAddedFlat(mem: seq<Table>, root: nat, owners: Owners, g: nat, i: nat, f: nat)
    requires IsTree(mem, root, owners) && g in owners && |owners[g]| < 3 && i < ENTRIES
    requires g < |mem| && !Present(mem[g][i]) && (|owners[g]| == 2 ==> !Huge(mem[g][i]))
    requires f !in owners && f < |mem| && f < 0x10_0000
    ensures Flat(WithTable(mem, g, i, f), root) == Flat(mem, root)
  {
    hide IsTree, Translate, WithTable;
    forall p: Page | p.Valid()
      ensures Translate(WithTable(mem, g, i, f), root, p) == Translate(mem, root, p)
    {
      TableAddedSame(mem, root, owners, g, i, f, p);
    }
  }

  // ----- Writing a leaf ---------------------------------------------------------------

  lemma DifferentPages(p: Page, q: Page)
    requires p != q
    ensures !GoesThrough(q, p.Path(3), p.i1)
  {
    if q.Path(3) == p.Path(3) {
      assert q.Path(3)[0] == p.Path(3)[0] && q.Path(3)[1] == p.Path(3)[1] && q.Path(3)[2] == p.Path(3)[2];
    }
  }

  lemma {:induction false} LeafKeepsParent(mem: seq<Table>, owners: Owners, pt: nat, i: nat, e: Word, f: nat)
    requires pt in owners && |owners[pt]| == 3 && pt < |mem| && i < ENTRIES
    requires f in owners && HasParent(mem, owners, f)
    ensures HasParent(mem[pt := mem[pt][i := e]], owners, f)
  {
    var g, j :| IsParent(mem, owners, g, j, f);
    assert IsParent(mem[pt := mem[pt][i := e]], owners, g, j, f);
  }

  lemma {:induction false} LeafKeepsTree(mem: seq<Table>, root: nat, owners: Owners, pt: nat, i: nat, e: Word)
    requires IsTree(mem, root, owners) && pt in owners && |owners[pt]| == 3 && pt < |mem| && i < ENTRIES
    ensures IsTree(mem[pt := mem[pt][i := e]], root, owners)
  {
    hide Present, Huge, Frame, Follows, HasParent;
    forall f | f in owners && f != root ensures HasParent(mem[pt := mem[pt][i := e]], owners, f) {
      LeafKeepsParent(mem, owners, pt, i, e, f);
    }
  }

  lemma {:induction false} LeafTranslation(mem: seq<Table>, root: nat, owners: Owners, pt: nat, p: Page, e: Word,
          q: Page)
    requires IsTree(mem, root, owners) && pt in owners && p.Valid() && owners[pt] == p.Path(3) && pt < |mem|
    requires q.Valid()
    ensures Translate(mem[pt := mem[pt][p.i1 := e]], root, q) ==
            if q == p then (if Present(e) then Some(Small(e)) else None) else Translate(mem, root, q)
  {
    hide IsTree, Translate, Present, GoesThrough;
    var mem1 := mem[pt := mem[pt][p.i1 := e]];
    if q == p {
      LeafKeepsTree(mem, root, owners, pt, p.i1, e);
      AtTable(mem1, root, owners, pt, p);
    } else {
      DifferentPages(p, q);
      assert Wrote(mem, mem1, owners, pt, p.i1);
      OtherTranslations(mem, mem1, root, owners, pt, p.i1, q);
    }
  }

  /** Writing one page-table entry changes one page of the flat map. */
  lemma {:induction false} LeafWritten(mem: seq<Table>, root: nat, owners: Owners, pt: nat, p: Page, e: Word)
    requires IsTree(mem, root, owners) && pt in owners && p.Valid() && owners[pt] == p.Path(3) && pt < |mem|
    ensures var mem1 := mem[pt := mem[pt][p.i1 := e]];
            && IsTree(mem1, root, owners)
            && Flat(mem1, root) == if Present(e) then Flat(mem, root)[p := Small(e)] else Flat(mem, root) - {p}
  {
    hide IsTree, Translate, Present;
    LeafKeepsTree(mem, root, owners, pt, p.i1, e);
    forall q: Page | q.Valid()
      ensures Translate(mem[pt := mem[pt][p.i1 := e]], root, q) ==
              if q == p then (if Present(e) then Some(Small(e)) else None) else Translate(mem, root, q)
    {
      LeafTranslation(mem, root, owners, pt, p, e, q);
    }
  }

  // ----- Missing tables ------------------------------------------------------------------

  /** How many tables mapping a page has to create below table f. */
  function Missing(mem: seq<Table>, f: nat, p: Page, level: nat): nat
    requires level < 4
    decreases 4 - level
  {
    if level == 3 then 0
    else
      var e := EntryAt(mem, f, p.At(level));
      if level == 2 && Huge(e) then 0
      else if Present(e) then Missing(mem, Frame(e), p, level + 1)
      else 3 - level
  }

  lemma {:induction false} MissingAfterAdd(mem: seq<Table>, g: nat, f: nat, p: Page, level: nat)
    requires level < 3 && p.Valid() && g < |mem| && f < |mem| && f < 0x10_0000 && g != f
    requires !Present(mem[g][p.At(level)]) && (level == 2 ==> !Huge(mem[g][p.At(level)]))
    ensures Missing(mem, g, p, level) == 3 - level
    ensures Missing(WithTable(mem, g, p.At(level), f), f, p, level + 1) == 3 - level - 1
  {
    assert WithTable(mem, g, p.At(level), f)[f] == Zeros();
  }

  /** The child of a present entry is a table on the longer path. */
  lemma {:induction false} FollowEntry(mem: seq<Table>, root: nat, owners: Owners, g: nat, p: Page, level: nat)
    requires IsTree(mem, root, owners) && g in owners && level < 3 && p.Valid() && owners[g] == p.Path(level)
    ensures g < |mem|
    ensures var e := mem[g][p.At(level)];
            && (Present(e) && (level == 2 ==> !Huge(e)) ==>
                  && Frame(e) in owners && owners[Frame(e)] == p.Path(level + 1)
                  && Missing(mem, Frame(e), p, level + 1) == Missing(mem, g, p, level))
            && (!Present(e) && (level == 2 ==> !Huge(e)) ==> Missing(mem, g, p, level) == 3 - level)
            && (level == 2 && Huge(e) ==> Missing(mem, g, p, level) == 0)
  {
    hide Present, Huge, Frame, HasParent, IsParent;
    PathStep(p, level + 1);
  }

  // ----- Counting tables -----------------------------------------------------------------

  /** The paths of the tables from this level down that lead to a page. */
  function PathsFrom(p: Page, level: nat): set<seq<nat>>
    requires 1 <= level <= 4
    decreases 4 - level
  {
    if level == 4 then {} else {p.Path(level)} + PathsFrom(p, level + 1)
  }

  /** All tables a mapping of the page needs below the root. */
  function Needed(p: Page): set<seq<nat>> { PathsFrom(p, 1) }

  lemma {:induction false} PathsSize(p: Page, level: nat)
    requires 1 <= level <= 4
    ensures |PathsFrom(p, level)| == 4 - level
    ensures forall path :: path in PathsFrom(p, level) ==> level <= |path| < 4 && path == p.Path(|path|)
    decreases 4 - level
  {
    if level < 4 { PathsSize(p, level + 1); }
  }

  lemma {:induction false} ReachUpwards(mem: seq<Table>, root: nat, p: Page, level: nat, deeper: nat)
    requires level <= deeper < 4 && Reach(mem, root, p, deeper).Some?
    ensures Reach(mem, root, p, level).Some?
  {
    if level < deeper { ReachUpwards(mem, root, p, level, deeper - 1); }
  }

  lemma {:induction false} ReachStops(mem: seq<Table>, root: nat, p: Page, level: nat, g: nat)
    requires level < 3 && p.Valid() && Reach(mem, root, p, level) == Some(g)
    requires g < |mem| && !Follows(level, mem[g][p.At(level)])
    ensures Reach(mem, root, p, level + 1) == None
  {
    hide Follows;
  }

  /** Below an entry that leads nowhere there is no table on the page's path. */
  lemma {:induction false} NoDeeperTable(mem: seq<Table>, root: nat, owners: Owners, g: nat, p: Page, level: nat)
    requires IsTree(mem, root, owners) && g in owners && level < 3 && p.Valid() && owners[g] == p.Path(level)
    requires g < |mem| && !Follows(level, mem[g][p.At(level)])
    ensures PathsFrom(p, level + 1) !! owners.Values
  {
    hide IsTree, Follows, Reach, Page.Path, Page.At, PathsFrom, EntryAt;
    PathsSize(p, level + 1);
    Reached(mem, root, owners, g, p, level);
    ReachStops(mem, root, p, level, g);
    forall path | path in PathsFrom(p, level + 1) ensures path !in owners.Values {
      if f :| f in owners && owners[f] == path {
        Reached(mem, root, owners, f, p, |path|);
        ReachUpwards(mem, root, p, level + 1, |path|);
      }
    }
  }

  lemma {:induction false} DirectoryEntry(mem: seq<Table>, root: nat, owners: Owners, g: nat, p: Page)
    requires IsTree(mem, root, owners) && g in owners && p.Valid() && owners[g] == p.Path(2)
    requires Translate(mem, root, p) == None
    ensures g < |mem| && !Huge(mem[g][p.At(2)])
  {
    hide IsTree, Huge, Translate;
    AtDirectory(mem, root, owners, g, p);
  }

  /** How many of these tables do not exist yet. */
  function TablesMissing(paths: set<seq<nat>>, existing: set<seq<nat>>): nat {
    |paths - existing|
  }

  lemma PathPresent(p: Page, level: nat, paths: set<seq<nat>>)
    requires level < 3 && p.Path(level + 1) in paths
    ensures PathsFrom(p, level + 1) - paths == PathsFrom(p, level + 2) - paths
  {
    hide Page.Path;
  }

  lemma PathsAbsent(p: Page, level: nat, paths: set<seq<nat>>)
    requires level <= 3 && PathsFrom(p, level + 1) !! paths
    ensures |PathsFrom(p, level + 1) - paths| == 3 - level
  {
    PathsSize(p, level + 1);
    assert PathsFrom(p, level + 1) - paths == PathsFrom(p, level + 1);
  }

  lemma {:induction false} LastLevel(mem: seq<Table>, g: nat, p: Page, paths: set<seq<nat>>)
    ensures Missing(mem, g, p, 3) == 0 == |PathsFrom(p, 4) - paths|
  {
    assert PathsFrom(p, 4) - paths == {};
  }

  lemma {:induction false} NotFollowed(level: nat, e: Word)
    requires !Present(e)
    ensures !Follows(level, e)
  {
  }

  /** The tables a mapping has to create are those of its paths that do not exist. */
  lemma {:induction false} MissingCounts(mem: seq<Table>, root: nat, owners: Owners, g: nat, p: Page, level: nat)
    requires IsTree(mem, root, owners) && g in owners && level < 4 && p.Valid() && owners[g] == p.Path(level)
    requires Translate(mem, root, p) == None
    ensures Missing(mem, g, p, level) == |PathsFrom(p, level + 1) - owners.Values|
    decreases 4 - level
  {
    hide IsTree, Present, Huge, Frame, Missing, Page.Path, Translate, Follows, PathsFrom;
    if level == 3 {
      LastLevel(mem, g, p, owners.Values);
    } else {
      FollowEntry(mem, root, owners, g, p, level);
      var e := mem[g][p.At(level)];
      if level == 2 { DirectoryEntry(mem, root, owners, g, p); }
      if Present(e) {
        assert owners[Frame(e)] in owners.Values;
        PathPresent(p, level, owners.Values);
        MissingCounts(mem, root, owners, Frame(e), p, level + 1);
      } else {
        NotFollowed(level, e);
        NoDeeperTable(mem, root, owners, g, p, level);
        PathsAbsent(p, level, owners.Values);
      }
    }
  }

  /** vmm_get_physical, said of the flat map: frame plus offset, 0 if unmapped. */
  ghost function Physical(view: imap<Page, Leaf>, virt: Word): nat {
    var p := PageOf(virt);
    if p !in view then 0
    else
      match view[p]
      case Large(e) => e / 0x20_0000 % 0x8000_0000 * 0x20_0000 + virt % 0x20_0000
      case Small(e) => Frame(e) * PAGE_SIZE + virt % PAGE_SIZE
  }

  // ----- Ranges ------------------------------------------------------------------------

  /** The i-th page of a range; addresses wrap at 64 bits. */
  function RangePage(virt: Word, i: nat): (p: Page)
    ensures p.Valid()
  {
    PageOf((virt + i * PAGE_SIZE) % U64)
  }

  lemma Wraps(m: int, q: int)
    ensures (m - q * 0x10_0000_0000_0000) % 0x10_0000_0000 == m % 0x10_0000_0000
  {
    var d := 0x10_0000_0000;
    assert m - q * 0x10_0000_0000_0000 == d * (m / d - q * 0x1_0000) + m % d;
  }

  lemma {:induction false} RangeNumber(virt: Word, i: nat)
    ensures (virt + i * PAGE_SIZE) % U64 / PAGE_SIZE % 0x10_0000_0000 == (virt / PAGE_SIZE + i) % 0x10_0000_0000
  {
    var n := virt + i * PAGE_SIZE;
    assert n / PAGE_SIZE == virt / PAGE_SIZE + i;
    var q := n / U64;
    assert n % U64 == n - q * U64;
    assert (n - q * U64) / PAGE_SIZE == n / PAGE_SIZE - q * 0x10_0000_0000_0000;
    Wraps(n / PAGE_SIZE, q);
  }

  lemma DifferentNumbers(v: nat, i: nat, j: nat)
    requires i < j < 0x10_0000_0000
    ensures (v + i) % 0x10_0000_0000 != (v + j) % 0x10_0000_0000
  {
  }

  /** Pages of one range are distinct as long as there are at most 2^36. */
  lemma {:induction false} RangeDistinct(virt: Word, i: nat, j: nat)
    requires i < j < 0x10_0000_0000
    ensures RangePage(virt, i) != RangePage(virt, j)
  {
    var a, b := (virt + i * PAGE_SIZE) % U64, (virt + j * PAGE_SIZE) % U64;
    PageOfExact(a, b);
    RangeNumber(virt, i);
    RangeNumber(virt, j);
    DifferentNumbers(virt / PAGE_SIZE, i, j);
  }

  ghost function RangePages(virt: Word, n: nat): set<Page> {
    set i | 0 <= i < n :: RangePage(virt, i)
  }

  /** The flat map with the first n pages of a range mapped. */
  ghost function RangeMapped(view: imap<Page, Leaf>, virt: Word, phys: Word, flags: Word, n: nat): imap<Page, Leaf>
    requires FlagsOk(flags)
  {
    if n == 0 then view
    else RangeMapped(view, virt, phys, flags, n - 1)
         [RangePage(virt, n - 1) := Small(LeafEntry((phys + (n - 1) * PAGE_SIZE) % U64, flags))]
  }

  /** The flat map with the 4 KiB pages among the first n of a range gone. */
  ghost function RangeUnmapped(view: imap<Page, Leaf>, virt: Word, n: nat): imap<Page, Leaf> {
    if n == 0 then view
    else
      var v, p := RangeUnmapped(view, virt, n - 1), RangePage(virt, n - 1);
      if p in v && v[p].Small? then v - {p} else v
  }

  lemma {:induction false} RangeStep(view: imap<Page, Leaf>, virt: Word, phys: Word, flags: Word, n: nat)
    requires FlagsOk(flags)
    ensures RangePage(virt, n) == PageOf((virt + n * PAGE_SIZE) % U64)
    ensures RangeMapped(view, virt, phys, flags, 0) == view
    ensures RangeMapped(view, virt, phys, flags, n + 1)
         == RangeMapped(view, virt, phys, flags, n)
            [RangePage(virt, n) := Small(LeafEntry((phys + n * PAGE_SIZE) % U64, flags))]
  {
  }

  lemma {:induction false} RangeUnmappedStep(view: imap<Page, Leaf>, virt: Word, n: nat)
    ensures RangePage(virt, n) == PageOf((virt + n * PAGE_SIZE) % U64)
    ensures RangeUnmapped(view, virt, 0) == view
    ensures var v, p := RangeUnmapped(view, virt, n), RangePage(virt, n);
            RangeUnmapped(view, virt, n + 1) == if p in v && v[p].Small? then v - {p} else v
  {
  }

  /** Page i of a mapped range goes to frame i. */
  lemma {:induction false} RangeMappedAt(view: imap<Page, Leaf>, virt: Word, phys: Word, flags: Word, n: nat, i: nat)
    requires FlagsOk(flags) && i < n <= 0x10_0000_0000
    ensures var m := RangeMapped(view, virt, phys, flags, n);
            RangePage(virt, i) in m && m[RangePage(virt, i)] == Small(LeafEntry((phys + i * PAGE_SIZE) % U64, flags))
    decreases n
  {
    hide RangePage, LeafEntry, FlagsOk;
    if i < n - 1 {
      RangeMappedAt(view, virt, phys, flags, n - 1, i);
      RangeDistinct(virt, i, n - 1);
    }
  }

  lemma {:induction false} LastIndex(virt: Word)
    ensures PageOf(virt).i1 == virt / PAGE_SIZE % ENTRIES
  {
  }

  lemma Low48(v: nat)
    ensures v % 0x1_0000_0000_0000 == v / PAGE_SIZE % 0x10_0000_0000 * PAGE_SIZE + v % PAGE_SIZE
  {
    var n, m := v / PAGE_SIZE, 0x10_0000_0000;
    assert v == 0x1_0000_0000_0000 * (n / m) + (n % m * PAGE_SIZE + v % PAGE_SIZE);
  }

  lemma Low21(v: nat)
    ensures v % 0x20_0000 == v / PAGE_SIZE % ENTRIES * PAGE_SIZE + v % PAGE_SIZE
  {
    var n := v / PAGE_SIZE;
    assert v == 0x20_0000 * (n / ENTRIES) + (n % ENTRIES * PAGE_SIZE + v % PAGE_SIZE);
  }

  /** The 48 bits that a walk looks at, from the indices and the place in the page. */
  lemma {:induction false} AddressDigits(virt: Word)
    ensures var p, low := PageOf(virt), virt % 0x1_0000_0000_0000;
            && low == (((p.i4 * ENTRIES + p.i3) * ENTRIES + p.i2) * ENTRIES + p.i1) * PAGE_SIZE + virt % PAGE_SIZE
            && virt % 0x20_0000 == p.i1 * PAGE_SIZE + virt % PAGE_SIZE
  {
    hide PageOf;
    Digits(virt);
    LastIndex(virt);
    Low48(virt);
    Low21(virt);
  }

  lemma {:induction false} UnmappedPhysical(view: imap<Page, Leaf>, virt: Word)
    requires PageOf(virt) !in view
    ensures Physical(view, virt) == 0
  {
  }

  /** The 52 address bits of a page-aligned part of an address. */
  lemma FrameOf(a: nat)
    requires a < U64
    ensures Frame(a) * PAGE_SIZE == a % 0x10_0000_0000_0000 / PAGE_SIZE * PAGE_SIZE
  {
    var m := 0x10_0000_0000_0000;
    assert a == m * (a / m) + a % m;
    assert a / PAGE_SIZE == 0x100_0000_0000 * (a / m) + a % m / PAGE_SIZE;
  }

  /** An address on a page just mapped goes to the page-aligned physical address plus
      its distance from the start of the page. */
  lemma {:induction false} MappedPhysical(view: imap<Page, Leaf>, virt: Word, phys: Word, flags: Word, w: Word)
    requires FlagsOk(flags) && PageOf(w) == PageOf(virt)
    ensures Physical(view[PageOf(virt) := Small(LeafEntry(phys, flags))], w)
         == phys % 0x10_0000_0000_0000 / PAGE_SIZE * PAGE_SIZE + w % PAGE_SIZE
  {
    hide PageOf, Frame, LeafEntry, FlagsOk;
    LeafEntryBits(phys, flags);
    FrameOf(phys);
  }

  lemma InPage(base: nat, k: nat)
    requires base % PAGE_SIZE == 0
    ensures (base + k) % PAGE_SIZE == k % PAGE_SIZE
    ensures (base + k) / PAGE_SIZE == (base + k / PAGE_SIZE * PAGE_SIZE) / PAGE_SIZE
    ensures (base + k / PAGE_SIZE * PAGE_SIZE) % PAGE_SIZE == 0
    ensures (base + k) == (base + k / PAGE_SIZE * PAGE_SIZE) + k % PAGE_SIZE
  {
  }

  lemma PageWrap64(a: nat, r: nat)
    requires a % PAGE_SIZE == 0 && r < PAGE_SIZE
    ensures (a + r) % U64 == a % U64 + r && a % U64 % PAGE_SIZE == 0
  {
    var x, q := a / PAGE_SIZE, a / U64;
    var y := x - 0x10_0000_0000_0000 * q;
    assert a == PAGE_SIZE * x && a % U64 == PAGE_SIZE * y;
    assert y < 0x10_0000_0000_0000;
    assert a + r == U64 * q + (PAGE_SIZE * y + r);
  }

  lemma PageWrap52(a: nat, r: nat)
    requires a % PAGE_SIZE == 0 && r < PAGE_SIZE
    ensures (a + r) % 0x10_0000_0000_0000 == a % 0x10_0000_0000_0000 + r
  {
    var x, q := a / PAGE_SIZE, a / 0x10_0000_0000_0000;
    var y := x - 0x100_0000_0000 * q;
    assert a == PAGE_SIZE * x && a % 0x10_0000_0000_0000 == PAGE_SIZE * y;
    assert y < 0x100_0000_0000;
    assert a + r == 0x10_0000_0000_0000 * q + (PAGE_SIZE * y + r);
  }

  lemma {:induction false} SamePageOf(at: Word, r: nat)
    requires at % PAGE_SIZE == 0 && r < PAGE_SIZE
    ensures at + r < U64 && PageOf(at + r) == PageOf(at) && (at + r) % PAGE_SIZE == r
  {
    hide PageOf;
    assert at <= U64 - PAGE_SIZE;
    assert (at + r) / PAGE_SIZE == at / PAGE_SIZE;
    PageOfExact(at, at + r);
  }

  lemma AddressBits(a: nat)
    requires a % PAGE_SIZE == 0
    ensures a % U64 % 0x10_0000_0000_0000 / PAGE_SIZE * PAGE_SIZE == a % 0x10_0000_0000_0000
  {
    var m, r := 0x10_0000_0000_0000, a % U64;
    assert a == m * (0x1000 * (a / U64) + r / m) + r % m;
    assert a % m == r % m;
    assert a % m == PAGE_SIZE * (a / PAGE_SIZE - 0x100_0000_0000 * (a / m));
  }

  /** Address k of a mapped range goes to address k of its frames, for page-aligned
      ranges of at most 2^36 pages. */
  lemma {:induction false} RangePhysical(view: imap<Page, Leaf>, virt: Word, phys: Word, flags: Word, n: nat, k: nat)
    requires FlagsOk(flags) && n <= 0x10_0000_0000 && k < n * PAGE_SIZE
    requires virt % PAGE_SIZE == 0 && phys % PAGE_SIZE == 0
    ensures Physical(RangeMapped(view, virt, phys, flags, n), (virt + k) % U64) == (phys + k) % 0x10_0000_0000_0000
  {
    hide PageOf, Frame, LeafEntry, FlagsOk, RangeMapped;
    var i, r := k / PAGE_SIZE, k % PAGE_SIZE;
    var at, w, a := (virt + i * PAGE_SIZE) % U64, (virt + k) % U64, (phys + i * PAGE_SIZE) % U64;
    InPage(virt, k);
    InPage(phys, k);
    PageWrap64(virt + i * PAGE_SIZE, r);
    PageWrap52(phys + i * PAGE_SIZE, r);
    SamePageOf(at, r);
    RangeMappedAt(view, virt, phys, flags, n, i);
    LeafEntryBits(a, flags);
    FrameOf(a);
    AddressBits(phys + i * PAGE_SIZE);
  }

  lemma {:induction false} RangeMappedFacts(view: imap<Page, Leaf>, virt: Word, phys: Word, flags: Word, n: nat)
    requires FlagsOk(flags)
    ensures var m := RangeMapped(view, virt, phys, flags, n);
            && (forall p :: p in m <==> p in view || p in RangePages(virt, n))
            && (forall p :: p in view && p !in RangePages(virt, n) ==> m[p] == view[p])
            && (forall p :: p in RangePages(virt, n) ==> m[p].Small?)
  {
    if n > 0 {
      RangeMappedFacts(view, virt, phys, flags, n - 1);
      assert RangePages(virt, n) == RangePages(virt, n - 1) + {RangePage(virt, n - 1)};
    }
  }

  lemma {:induction false} RangeUnmappedFacts(view: imap<Page, Leaf>, virt: Word, n: nat)
    ensures var m := RangeUnmapped(view, virt, n);
            && (forall p :: p in m <==> p in view && !(p in RangePages(virt, n) && view[p].Small?))
            && (forall p :: p in m ==> m[p] == view[p])
  {
    if n > 0 {
      RangeUnmappedFacts(view, virt, n - 1);
      assert RangePages(virt, n) == RangePages(virt, n - 1) + {RangePage(virt, n - 1)};
    }
  }

  /** Unmapping a range that was mapped over nothing restores the map before. */
  lemma {:induction false} RollbackRestores(view: imap<Page, Leaf>, virt: Word, phys: Word, flags: Word, n: nat)
    requires FlagsOk(flags) && forall i :: 0 <= i < n ==> RangePage(virt, i) !in view
    ensures RangeUnmapped(RangeMapped(view, virt, phys, flags, n), virt, n) == view
  {
    RangeMappedFacts(view, virt, phys, flags, n);
    RangeUnmappedFacts(RangeMapped(view, virt, phys, flags, n), virt, n);
  }

  lemma {:induction false} NotYet(virt: Word, i: nat)
    requires i < U32
    ensures RangePage(virt, i) !in RangePages(virt, i)
  {
    hide RangePage;
    forall k | 0 <= k < i ensures RangePage(virt, k) != RangePage(virt, i) {
      RangeDistinct(virt, k, i);
    }
  }

  /** The tables the first n pages of a range need. */
  function RangeNeeded(virt: Word, n: nat): set<seq<nat>> {
    if n == 0 then {} else RangeNeeded(virt, n - 1) + Needed(RangePage(virt, n - 1))
  }

  lemma {:induction false} RangeNeededGrows(virt: Word, m: nat, n: nat)
    requires m <= n
    ensures RangeNeeded(virt, m) <= RangeNeeded(virt, n)
  {
    hide Needed, RangePage;
    if m < n { RangeNeededGrows(virt, m, n - 1); }
  }

  /** A range needs at least the tables its front needs. */
  lemma {:induction false} RangeFails(virt: Word, i: nat, n: nat, existing: set<seq<nat>>)
    requires i < n
    ensures TablesMissing(RangeNeeded(virt, i + 1), existing) <= TablesMissing(RangeNeeded(virt, n), existing)
  {
    hide RangeNeeded;
    RangeNeededGrows(virt, i + 1, n);
    var a, b := RangeNeeded(virt, i + 1) - existing, RangeNeeded(virt, n) - existing;
    assert b == a + (b - a);
  }

  lemma {:induction false} StartRange(view: imap<Page, Leaf>, virt: Word, phys: Word, flags: Word,
          existing: set<seq<nat>>)
    requires FlagsOk(flags)
    ensures RangeMapped(view, virt, phys, flags, 0) == view
    ensures existing + RangeNeeded(virt, 0) == existing && TablesMissing(RangeNeeded(virt, 0), existing) == 0
  {
    assert {} - existing == {} && existing + {} == existing;
  }

  /** One page more: it is mapped already only if it was before the range, and it
      needs the tables that neither existed nor were made for the pages before. */
  lemma {:induction false} RangeRound(view: imap<Page, Leaf>, virt: Word, phys: Word, flags: Word, i: nat,
                                      existing: set<seq<nat>>, now: set<seq<nat>>)
    requires FlagsOk(flags) && i < U32 && now == existing + RangeNeeded(virt, i)
    ensures RangePage(virt, i) == PageOf((virt + i * PAGE_SIZE) % U64)
    ensures RangeMapped(view, virt, phys, flags, i + 1)
         == RangeMapped(view, virt, phys, flags, i)
            [RangePage(virt, i) := Small(LeafEntry((phys + i * PAGE_SIZE) % U64, flags))]
    ensures RangePage(virt, i) in RangeMapped(view, virt, phys, flags, i) <==> RangePage(virt, i) in view
    ensures now + Needed(RangePage(virt, i)) == existing + RangeNeeded(virt, i + 1)
    ensures TablesMissing(RangeNeeded(virt, i + 1), existing)
         == TablesMissing(RangeNeeded(virt, i), existing) + TablesMissing(Needed(RangePage(virt, i)), now)
  {
    hide RangePage, PageOf, LeafEntry, FlagsOk, Needed, RangeMapped;
    RangeStep(view, virt, phys, flags, i);
    RangeMappedFacts(view, virt, phys, flags, i);
    NotYet(virt, i);
    var before, more := RangeNeeded(virt, i) - existing, Needed(RangePage(virt, i)) - now;
    assert RangeNeeded(virt, i + 1) - existing == before + more && before !! more;
  }

  // ----- Runs -----------------------------------------------------------------------------

  /** What one call may do to the flat map: nothing, a range mapped over nothing,
      or the 4 KiB pages of a range gone. */
  ghost predicate IsStep(view: imap<Page, Leaf>, view1: imap<Page, Leaf>) {
    || view1 == view
    || (exists virt: Word, phys: Word, flags: Word, n: nat ::
          && FlagsOk(flags) && (forall i :: 0 <= i < n ==> RangePage(virt, i) !in view)
          && view1 == RangeMapped(view, virt, phys, flags, n))
    || (exists virt: Word, n: nat :: view1 == RangeUnmapped(view, virt, n))
  }

  lemma {:induction false} StepKeepsLarge(view: imap<Page, Leaf>, view1: imap<Page, Leaf>, p: Page)
    requires IsStep(view, view1)
    ensures p in view && view[p].Large? <==> p in view1 && view1[p].Large?
    ensures p in view && view[p].Large? ==> view1[p] == view[p]
  {
    hide RangePage, FlagsOk, LeafEntry, RangeMapped, RangeUnmapped;
    if virt: Word, phys: Word, flags: Word, n: nat :|
      && FlagsOk(flags) && (forall i :: 0 <= i < n ==> RangePage(virt, i) !in view)
      && view1 == RangeMapped(view, virt, phys, flags, n)
    {
      RangeMappedFacts(view, virt, phys, flags, n);
    } else if virt: Word, n: nat :| view1 == RangeUnmapped(view, virt, n) {
      RangeUnmappedFacts(view, virt, n);
    }
  }

  /** The 2 MiB pages of the boot map survive every run, and none is added. */
  lemma {:induction false} LargePagesSurvive(run: seq<imap<Page, Leaf>>, p: Page, n: nat)
    requires n < |run| && forall i :: 0 <= i < |run| - 1 ==> IsStep(run[i], run[i + 1])
    ensures p in run[n] && run[n][p].Large? <==> p in run[0] && run[0][p].Large?
    ensures p in run[0] && run[0][p].Large? ==> run[n][p] == run[0][p]
  {
    if n > 0 {
      LargePagesSurvive(run, p, n - 1);
      assert IsStep(run[n - 1], run[n - 1 + 1]);
      StepKeepsLarge(run[n - 1], run[n], p);
    }
  }

  lemma {:induction false} MapIsStep(view: imap<Page, Leaf>, virt: Word, phys: Word, flags: Word)
    requires FlagsOk(flags) && PageOf(virt) !in view
    ensures IsStep(view, view[PageOf(virt) := Small(LeafEntry(phys, flags))])
  {
    hide PageOf, LeafEntry, FlagsOk;
    RangeStep(view, virt, phys, flags, 0);
    assert RangePage(virt, 0) !in view;
    assert view[PageOf(virt) := Small(LeafEntry(phys, flags))] == RangeMapped(view, virt, phys, flags, 1);
  }

  lemma {:induction false} UnmapIsStep(view: imap<Page, Leaf>, virt: Word)
    requires PageOf(virt) in view && view[PageOf(virt)].Small?
    ensures IsStep(view, view - {PageOf(virt)})
  {
    hide PageOf;
    RangeUnmappedStep(view, virt, 0);
    assert view - {PageOf(virt)} == RangeUnmapped(view, virt, 1);
  }

  lemma {:induction false} NoStep(view: imap<Page, Leaf>)
    ensures IsStep(view, view)
  {
  }

  lemma {:induction false} RangeIsStep(view: imap<Page, Leaf>, virt: Word, phys: Word, flags: Word, n: nat)
    requires FlagsOk(flags) && forall i :: 0 <= i < n ==> RangePage(virt, i) !in view
    ensures IsStep(view, RangeMapped(view, virt, phys, flags, n))
  {
  }

  lemma {:induction false} UnmappedIsStep(view: imap<Page, Leaf>, virt: Word, n: nat)
    ensures IsStep(view, RangeUnmapped(view, virt, n))
  {
  }
}
