/** The FAT12 driver (src/fat12.c): its global state as a class, every
    operation proved to compute the function of module Volumes. */
module Fat12Driver {
  import opened Bytes
  import opened Collections
  import opened Floppy
  import opened FatTable
  import opened Directory
  import opened Volumes

  /** fat12_file_t, without the printable name. */
  datatype File = File(size: nat, firstCluster: nat, isDirectory: bool)

  /** The scan for a free cluster stays inside the memory at fat_buffer. */
  predicate ScanFits(fat: seq<byte>, scanEnd: nat) {
    0 < scanEnd <= SCAN_LIMIT && scanEnd - 1 + (scanEnd - 1) / 2 + 1 < |fat|
  }

  /** Where the parts of the volume lie on the disk. */
  datatype Geometry = Geometry(fatStart: nat, fatSectors: nat, rootStart: nat, dataStart: nat) {

    /** fat12_init's arithmetic on the boot sector. */
    static function Of(boot: Sector): Geometry
      requires Le16(boot, 11) != 0
    {
      var fatStart, fatSectors, rootEntries := Le16(boot, 14), Le16(boot, 22), Le16(boot, 17);
      var rootStart := fatStart + boot[16] * fatSectors;
      Geometry(fatStart, fatSectors, rootStart, rootStart + CeilDiv(rootEntries * ENTRY_SIZE, Le16(boot, 11)))
    }

    /** The first sector of copy i of the FAT, or behind the last one: the copies
        follow each other. */
    static function CopyStart(first: nat, sectors: nat, i: nat): nat {
      if i == 0 then first else CopyStart(first, sectors, i - 1) + sectors
    }

    /** The layout said in bytes of the boot sector: bytes 11 and 12 are the sector
        size, 14 and 15 the reserved sectors, 16 the number of FAT copies, 17 and
        18 the number of rows in the root directory, 22 and 23 the sectors of one
        copy. The root follows the last copy, holds its rows with less than a
        sector to spare, and the data follow the root. */
    ghost predicate LaidOut(boot: Sector) {
      var b: seq<int> := boot;
      var sectorSize, rows := b[11] + 0x100 * b[12], b[17] + 0x100 * b[18];
      && fatStart == b[14] + 0x100 * b[15] && fatSectors == b[22] + 0x100 * b[23]
      && rootStart == CopyStart(fatStart, fatSectors, boot[16]) && rootStart <= dataStart
      && 32 * rows <= (dataStart - rootStart) * sectorSize < 32 * rows + sectorSize
    }

    static lemma {:induction false} CopiesFollow(first: nat, sectors: nat, i: nat)
      ensures CopyStart(first, sectors, i) == first + i * sectors
    {
      if i > 0 {
        CopiesFollow(first, sectors, i - 1);
        assert i * sectors == (i - 1) * sectors + sectors;
      }
    }

    static lemma {:induction false} RoundedUp(size: nat, n: nat)
      requires n > 0
      ensures size <= CeilDiv(size, n) * n < size + n
    {
      var x := size + n - 1;
      assert x == x / n * n + x % n;
    }

    static lemma {:induction false} OfIsLaidOut(boot: Sector)
      requires Le16(boot, 11) != 0
      ensures Of(boot).LaidOut(boot)
    {
      hide CeilDiv;
      CopiesFollow(Le16(boot, 14), Le16(boot, 22), boot[16]);
      RoundedUp(Le16(boot, 17) * ENTRY_SIZE, Le16(boot, 11));
    }

    /** A 1.44 MB floppy: one reserved sector, two FATs of nine sectors, 224 rows. */
    static lemma {:induction false} StandardFloppy(boot: Sector)
      requires boot[11] == 0 && boot[12] == 2 && boot[13] == 1 && boot[14] == 1 && boot[15] == 0 && boot[16] == 2
      requires boot[17] == 224 && boot[18] == 0 && boot[22] == 9 && boot[23] == 0
      ensures Le16(boot, 11) == 512 && Of(boot) == Geometry(1, 9, 19, 33)
      ensures Of(boot).From(boot) && Of(boot).Supported()
    {
    }

    /** This is the geometry the boot sector describes, with the sector and
        cluster sizes the driver works with. */
    predicate From(boot: Sector) {
      Le16(boot, 11) == SECTOR_SIZE && boot[13] == 1 && this == Of(boot)
    }

    /** The three areas follow each other behind the boot sector, and the FAT
        has an entry for every cluster. */
    predicate Supported() {
      && 1 <= fatStart && 1 <= fatSectors <= 9
      && fatStart + fatSectors <= rootStart <= dataStart <= TOTAL_SECTORS
      && var last := TOTAL_SECTORS - dataStart + FIRST_CLUSTER - 1; last + last / 2 + 1 < SECTOR_SIZE * fatSectors
    }

    /** The volume stored on a disk, seen through an in-memory FAT. */
    function View(disk: seq<Sector>, fat: seq<byte>, scanEnd: nat): Volume
      requires Supported() && |disk| == TOTAL_SECTORS && ScanFits(fat, scanEnd)
    {
      Volume(Entries(fat, scanEnd), Table(disk[rootStart..dataStart]), disk[dataStart..])
    }

    /** Where things are: cluster c of the data in sector dataStart + c - 2, row i of
        the root in sector rootStart + i / 16 at byte 32 * (i % 16). */
    lemma {:induction false} ViewAt(disk: seq<Sector>, fat: seq<byte>, scanEnd: nat, c: nat, i: nat)
      requires Supported() && |disk| == TOTAL_SECTORS && ScanFits(fat, scanEnd)
      ensures var v := View(disk, fat, scanEnd);
              && (c < scanEnd ==> c < |v.fat| && v.fat[c] == Get(fat, c))
              && (v.InVolume(c) <==> 2 <= c < TOTAL_SECTORS - dataStart + 2)
              && (v.InVolume(c) ==> v.data[c - 2] == disk[dataStart + (c - 2)])
              && (i < 16 * (dataStart - rootStart) <==> i < |v.dir|)
              && (i < |v.dir| ==> v.dir[i] == disk[rootStart + i / 16][32 * (i % 16)..32 * (i % 16) + 32])
    {
      var root := disk[rootStart..dataStart];
      assert |Table(root)| == 16 * |root|;
      if i < |Table(root)| { TableRows(root, i / 16); }
    }

    lemma {:induction false} PatchData(disk: seq<Sector>, fat: seq<byte>, scanEnd: nat, c: nat, s: Sector)
      requires Supported() && |disk| == TOTAL_SECTORS && ScanFits(fat, scanEnd)
      requires FIRST_CLUSTER <= c < TOTAL_SECTORS - dataStart + FIRST_CLUSTER
      ensures var v := View(disk, fat, scanEnd);
              var v1 := v.(data := v.data[c - FIRST_CLUSTER := s]);
              View(disk[dataStart + c - FIRST_CLUSTER := s], fat, scanEnd) == v1 && (v.Sound() ==> v1.Sound())
    {
      var disk1 := disk[dataStart + c - FIRST_CLUSTER := s];
      assert disk1[rootStart..dataStart] == disk[rootStart..dataStart];
      assert disk1[dataStart..] == disk[dataStart..][c - FIRST_CLUSTER := s];
    }

    lemma {:induction false} EntrySet(disk: seq<Sector>, fat: seq<byte>, scanEnd: nat, c: nat, value: Entry)
      requires Supported() && |disk| == TOTAL_SECTORS && ScanFits(fat, scanEnd)
      requires var v := View(disk, fat, scanEnd); v.Sound() && v.InVolume(c) && v.LinkOk(value)
      ensures c < scanEnd && scanEnd - 1 + (scanEnd - 1) / 2 + 1 < |fat|
      ensures var v := View(disk, fat, scanEnd); c < |v.fat| && v.(fat := v.fat[c := value]).Sound()
    {
    }

    lemma {:induction false} SameEntries(disk: seq<Sector>, fat: seq<byte>, fat1: seq<byte>, scanEnd: nat, c: nat,
            value: Entry)
      requires Supported() && |disk| == TOTAL_SECTORS && ScanFits(fat, scanEnd) && |fat1| == |fat|
      requires c < scanEnd && scanEnd - 1 + (scanEnd - 1) / 2 + 1 < |fat|
      requires Entries(fat1, scanEnd) == Entries(fat, scanEnd)[c := value]
      ensures ScanFits(fat1, scanEnd)
      ensures var v := View(disk, fat, scanEnd);
              c < |v.fat| && View(disk, fat1, scanEnd) == v.(fat := v.fat[c := value])
    {
    }

    lemma {:induction false} PatchRoot(disk: seq<Sector>, fat: seq<byte>, scanEnd: nat, k: nat, idx: nat, e: RawEntry)
      requires Supported() && |disk| == TOTAL_SECTORS && ScanFits(fat, scanEnd)
      requires k < dataStart - rootStart && idx < ENTRIES_PER_SECTOR
      ensures var v, s := View(disk, fat, scanEnd), Splice(disk[rootStart + k], ENTRY_SIZE * idx, e);
              View(disk[rootStart + k := s], fat, scanEnd) == v.(dir := v.dir[ENTRIES_PER_SECTOR * k + idx := e])
    {
      var root := disk[rootStart..dataStart];
      var s := Splice(root[k], ENTRY_SIZE * idx, e);
      var disk1 := disk[rootStart + k := s];
      PatchTable(root, k, idx, e);
      assert disk1[rootStart..dataStart] == root[k := s];
      assert disk1[dataStart..] == disk[dataStart..];
    }
  }

  // ----- Searching the root directory -----------------------------------------

  /** fdc_read_sectors of one directory sector. */
  method LoadSector(disk: array<Sector>, lba: nat, buffer: array<byte>)
    requires disk.Length == TOTAL_SECTORS && lba < TOTAL_SECTORS && buffer.Length == SECTOR_SIZE
    modifies buffer
    ensures buffer[..] == disk[lba]
  {
    ReadSectors(disk, lba, 1, buffer, 0);
    assert disk[..][lba..lba + 1] == [disk[lba]];
    assert Flatten([disk[lba]]) == disk[lba] + Flatten([]);
  }

  /** The search loops of open, update_size and delete: sector by sector, entry
      by entry, up to the end mark. On success the entry's sector is in the
      buffer. */
  method Search(disk: array<Sector>, root: nat, n: nat, name: Name, skipDeleted: bool)
    returns (k: nat, idx: nat, buffer: array<byte>, ghost found: Option<nat>)
    requires disk.Length == TOTAL_SECTORS && root + n <= TOTAL_SECTORS
    ensures fresh(buffer) && buffer.Length == SECTOR_SIZE
    ensures found == Lookup(Table(disk[..][root..root + n]), name, skipDeleted, 0)
    ensures k <= n && found.Some? == (k < n)
    ensures k < n ==> idx < ENTRIES_PER_SECTOR && buffer[..] == disk[root + k]
                      && found == Some(ENTRIES_PER_SECTOR * k + idx)
  {
    hide Table, EntryIn, Passes, Lookup;
    buffer := new byte[SECTOR_SIZE];
    k, idx := 0, 0;
    ghost var sectors := disk[..][root..root + n];
    ghost var dir := Table(sectors);
    while k < n
      invariant k <= n && fresh(buffer)
      invariant forall r :: 0 <= r < ENTRIES_PER_SECTOR * k ==> Passes(dir[r], name, skipDeleted)
    {
      LoadSector(disk, root + k, buffer);
      idx := ScanFor(buffer[..], name, skipDeleted);
      TableRows(sectors, k);
      if idx < ENTRIES_PER_SECTOR {
        LookupSkips(dir, name, skipDeleted, 0, ENTRIES_PER_SECTOR * k + idx);
        found := Lookup(dir, name, skipDeleted, 0);
        if EntryIn(buffer[..], idx)[0] == NEVER_USED { k := n; }
        return;
      }
      k := k + 1;
    }
    LookupSkips(dir, name, skipDeleted, 0, |dir|);
    found := None;
  }

  /** The search loop of fat12_create: the first slot that can be taken. */
  method SearchFree(disk: array<Sector>, root: nat, n: nat)
    returns (k: nat, idx: nat, buffer: array<byte>, ghost found: Option<nat>)
    requires disk.Length == TOTAL_SECTORS && root + n <= TOTAL_SECTORS
    ensures fresh(buffer) && buffer.Length == SECTOR_SIZE
    ensures found == FreeSlot(Table(disk[..][root..root + n]), 0)
    ensures k <= n && found.Some? == (k < n)
    ensures k < n ==> idx < ENTRIES_PER_SECTOR && buffer[..] == disk[root + k]
                      && found == Some(ENTRIES_PER_SECTOR * k + idx)
  {
    hide Table, EntryIn, Live, FreeSlot;
    buffer := new byte[SECTOR_SIZE];
    k, idx := 0, 0;
    ghost var sectors := disk[..][root..root + n];
    ghost var dir := Table(sectors);
    while k < n
      invariant k <= n && fresh(buffer)
      invariant forall r :: 0 <= r < ENTRIES_PER_SECTOR * k ==> Live(dir[r])
    {
      LoadSector(disk, root + k, buffer);
      idx := ScanForFree(buffer[..]);
      TableRows(sectors, k);
      if idx < ENTRIES_PER_SECTOR {
        FreeSlotSkips(dir, 0, ENTRIES_PER_SECTOR * k + idx);
        found := FreeSlot(dir, 0);
        return;
      }
      k := k + 1;
    }
    FreeSlotSkips(dir, 0, |dir|);
    found := None;
  }

  /** An entry of a loaded directory sector is a row of the table. */
  lemma {:induction false} RowOf(sectors: seq<Sector>, k: nat, idx: nat)
    requires k < |sectors| && idx < ENTRIES_PER_SECTOR
    ensures Table(sectors)[ENTRIES_PER_SECTOR * k + idx] == EntryIn(sectors[k], idx)
  {
    TableRows(sectors, k);
  }

  // ----- The steps of the chain loops -------------------------------------------

  lemma {:induction false} Whole(data: seq<byte>)
    ensures data[0..] == data
  {
  }

  lemma {:induction false} DropMore(data: seq<byte>, i: nat, n: nat)
    requires i < |data| && n == Min(SECTOR_SIZE, |data[i..]|)
    ensures 1 <= n && i + n <= |data| && data[i..][n..] == data[i + n..]
  {
  }

  lemma {:induction false} LinkOks(v: Volume, c: nat, n: nat)
    requires v.Sound() && v.InVolume(c) && v.InVolume(n)
    ensures c < |v.fat| && n < |v.fat| && n < 0x1000 && v.LinkOk(n)
    ensures var v1 := v.(fat := v.fat[c := n]); v1.InVolume(n) && v1.LinkOk(LAST)
  {
  }

  lemma {:induction false} ClusterLink(v: Volume, c: nat)
    requires v.Sound() && Follows(c) && v.Start(c)
    ensures v.InVolume(c) && c < |v.fat| && v.Start(v.fat[c])
  {
  }

  /** The byte loops that fill and pad the sector buffer. */
  method FillSector(data: seq<byte>, at: nat) returns (s: Sector, amount: nat)
    requires at < |data|
    ensures s == Block(data[at..]) && amount == Min(SECTOR_SIZE, |data[at..]|)
    ensures forall i :: 0 <= i < SECTOR_SIZE ==> s[i] == if at + i < |data| then data[at + i] else 0
  {
    var buffer := new byte[SECTOR_SIZE](i => 0);
    amount := if |data| - at > SECTOR_SIZE then SECTOR_SIZE else |data| - at;
    var j := 0;
    while j < amount
      invariant j <= amount
      invariant forall i :: 0 <= i < j ==> buffer[i] == data[at + i]
    {
      buffer[j] := data[at + j];
      j := j + 1;
    }
    while j < SECTOR_SIZE
      invariant amount <= j <= SECTOR_SIZE
      invariant forall i :: 0 <= i < amount ==> buffer[i] == data[at + i]
      invariant forall i :: amount <= i < j ==> buffer[i] == 0
    {
      buffer[j] := 0;
      j := j + 1;
    }
    s := buffer[..];
  }

  lemma {:induction false} RunInside(v: Volume, c: nat, n: nat)
    requires v.Sound() && IsRun(v, c, n)
    ensures v.InVolume(c) && v.Start(c) && c + n - 1 < |v.fat| && v.Start(v.fat[c + n - 1])
  {
  }

  /** What one round of the reading loop asks of the disk. */
  lemma {:induction false} RoundAsks(v: Volume, c: nat, n: nat, remaining: nat, total: nat, amount: nat)
    requires v.Sound() && IsRun(v, c, n) && n <= 250 && 0 < remaining < U32
    requires total == if n > NeededSectors(remaining) then NeededSectors(remaining) else n
    requires amount == if total * SECTOR_SIZE > remaining then remaining else total * SECTOR_SIZE
    ensures v.InVolume(c) && v.Start(c) && c + n - 1 < |v.fat| && v.Start(v.fat[c + n - 1])
    ensures var at := c - FIRST_CLUSTER;
            && total <= 250 && at + total <= |v.data| && amount <= SECTOR_SIZE * total
            && |Flatten(v.data[at..at + total])| == Touched(amount) <= Touched(|ReadLoop(v, c, remaining)|)
            && (remaining > U32 - 512 ==> total == 0 && amount == 0)
            && (remaining <= U32 - 512 ==>
                  && 1 <= amount <= remaining && (amount == remaining || amount % SECTOR_SIZE == 0)
                  && Walk(v, c, remaining)
                     == Flatten(v.data[at..at + total])[..amount] + Walk(v, v.fat[c + n - 1], remaining - amount))
  {
    hide Walk, Flatten, Volume.Sound, NeededSectors;
    RunInside(v, c, n);
    if remaining > U32 - 512 {
      NeededSectorsExact(remaining);
    } else {
      RoundReads(v, c, n, remaining);
      TouchedGrows(Min(SECTOR_SIZE * Min(n, NeededSectors(remaining)), remaining), |Walk(v, c, remaining)|);
    }
  }

  lemma {:induction false} RoundCopied(was: seq<byte>, now: seq<byte>, at: nat, d: seq<byte>, amount: nat)
    requires at + |d| <= |was| && now == Splice(was, at, d) && amount <= |d| == Touched(amount)
    ensures |now| == |was| && now[..at] == was[..at] && now[at..at + amount] == d[..amount]
    ensures now[at + Touched(amount)..] == was[at + Touched(amount)..]
    ensures amount == 0 ==> now == was
  {
    SplicedPart(was, at, d, amount);
  }

  /** The state of the reading loop: what is in the buffer and what is still to
      come, or, above 2^32 - 512 bytes, how many links are left to skip. */
  ghost predicate StillToRead(v: Volume, bytes: seq<byte>, size: nat, done: nat, c: nat, links: nat, was: seq<byte>,
          now: seq<byte>)
    requires v.Sound() && v.Start(c)
  {
    && done <= size < U32 && |now| == |was| && Touched(|bytes|) <= |was|
    && now[Touched(|bytes|)..] == was[Touched(|bytes|)..]
    && if size <= U32 - 512 then
         && (done == size || done % SECTOR_SIZE == 0) && done <= |now|
         && bytes == now[..done] + Walk(v, c, size - done)
       else
         done == 0 && bytes == [] && now == was && Ends(v, c, links)
  }

  lemma {:induction false} StartReading(v: Volume, c: nat, size: nat, was: seq<byte>) returns (links: nat)
    requires v.Sound() && v.Start(c) && size < U32 && Touched(|ReadLoop(v, c, size)|) <= |was|
    requires size > U32 - 512 ==> exists n :: Ends(v, c, n)
    ensures StillToRead(v, ReadLoop(v, c, size), size, 0, c, links, was, was)
  {
    links := 0;
    if size > U32 - 512 { links :| Ends(v, c, links); }
  }

  lemma {:induction false} RoundFits(v: Volume, bytes: seq<byte>, size: nat, done: nat, c: nat, links: nat,
          was: seq<byte>, now: seq<byte>)
    requires v.Sound() && v.Start(c) && StillToRead(v, bytes, size, done, c, links, was, now) && done < size
    requires Follows(c)
    ensures v.InVolume(c) && 0 < size - done < U32
    ensures done + Touched(|ReadLoop(v, c, size - done)|) == Touched(|bytes|) <= |now|
  {
    TouchedMore(done, |ReadLoop(v, c, size - done)|);
  }

  lemma {:induction false} RunsAreNotEmpty(v: Volume, c: nat, run: nat)
    requires v.Sound() && IsRun(v, c, run)
    ensures run >= 1
  {
  }

  lemma {:induction false} ReadMore(bytes: seq<byte>, b: seq<byte>, i: nat, n: nat, rest: seq<byte>)
    requires i + n <= |b| && bytes == b[..i] + (b[i..i + n] + rest)
    ensures bytes == b[..i + n] + rest
  {
    assert b[..i + n] == b[..i] + b[i..i + n];
  }

  lemma {:induction false} RoundDone(v: Volume, bytes: seq<byte>, size: nat, done: nat, c: nat, links: nat,
          was: seq<byte>, before: seq<byte>, now: seq<byte>, amount: nat, run: nat)
    returns (links1: nat)
    requires v.Sound() && v.Start(c) && StillToRead(v, bytes, size, done, c, links, was, before) && done < size
    requires Follows(c)
    requires IsRun(v, c, run) && c + run - 1 < |v.fat| && v.Start(v.fat[c + run - 1]) && |now| == |before|
    requires var remaining := size - done;
      && (remaining > U32 - 512 ==> amount == 0 && now == before)
      && (remaining <= U32 - 512 ==>
            && 1 <= amount <= remaining && done + Touched(amount) <= |now|
            && (amount == remaining || amount % SECTOR_SIZE == 0)
            && done + amount <= |now| && now[..done] == before[..done]
            && now[done + Touched(amount)..] == before[done + Touched(amount)..]
            && Walk(v, c, remaining) == now[done..done + amount] + Walk(v, v.fat[c + run - 1], remaining - amount))
    ensures StillToRead(v, bytes, size, done + amount, v.fat[c + run - 1], links1, was, now)
    ensures amount > 0 || links1 < links
  {
    hide Walk, Volume.Sound, Ends, Touched;
    links1 := links;
    var next := v.fat[c + run - 1];
    if size > U32 - 512 {
      EndsAfterRun(v, c, run, links);
      RunsAreNotEmpty(v, c, run);
      links1 := links - run;
    } else {
      var rest := Walk(v, next, size - done - amount);
      ReadMore(bytes, now, done, amount, rest);
      TouchedMore(done, |Walk(v, c, size - done)|);
      TouchedGrows(amount, |Walk(v, c, size - done)|);
      var t, u := Touched(|bytes|), done + Touched(amount);
      assert now[t..] == now[u..][t - u..] && before[t..] == before[u..][t - u..];
    }
  }

  lemma {:induction false} WalkEnds(v: Volume, c: nat, size: nat)
    requires v.Sound() && v.Start(c) && (size == 0 || !Follows(c))
    ensures Walk(v, c, size) == []
  {
  }

  lemma {:induction false} ReadingDone(v: Volume, bytes: seq<byte>, size: nat, done: nat, c: nat, links: nat,
          was: seq<byte>, now: seq<byte>)
    requires v.Sound() && v.Start(c) && StillToRead(v, bytes, size, done, c, links, was, now)
    requires done >= size || !Follows(c)
    ensures done <= |now| && Touched(done) <= |now| && now[..done] == bytes
    ensures now[Touched(done)..] == was[Touched(done)..]
  {
    WalkEnds(v, c, size - done);
  }

  // ----- What the searches find -------------------------------------------------

  /** What the driver relies on once it has searched for a name. */
  lemma {:induction false} FoundForDelete(v: Volume, name: Name)
    requires v.Sound()
    ensures match Lookup(v.dir, name, true, 0)
            case None => Volumes.Delete(v, name) == None
            case Some(i) =>
              var e, end := v.dir[i], v.End();
              && v.Start(FirstCluster(e))
              && v.(fat := FreeChain(v.fat, end, FirstCluster(e))).Start(FirstCluster(AsDeleted(e)))
              && Volumes.Delete(v, name)
                 == Some(v.(fat := FreeChain(v.fat, end, FirstCluster(e)), dir := v.dir[i := AsDeleted(e)]))
  {
  }

  lemma {:induction false} FoundForResize(v: Volume, name: Name, size: nat)
    requires v.Sound() && size < U32
    ensures match Lookup(v.dir, name, true, 0)
            case None => Volumes.UpdateSize(v, name, size) == None
            case Some(i) =>
              var e := WithSize(v.dir[i], size);
              v.Start(FirstCluster(e)) && Volumes.UpdateSize(v, name, size) == Some(v.(dir := v.dir[i := e]))
  {
    var r := Lookup(v.dir, name, true, 0);
    if r.Some? {
      WithSizeKeeps(v.dir[r.value], size);
    }
  }

  lemma {:induction false} FoundSlot(v: Volume, name: Name)
    requires v.Sound()
    ensures var slot, c := FreeSlot(v.dir, 0), FirstFree(v.fat, FIRST_CLUSTER);
            if slot == None || c == 0 then Volumes.Create(v, name) == None
            else
              c < U16 && v.InVolume(c) && v.LinkOk(LAST) &&
              var e, v1 := NewEntry(v.dir[slot.value], name, c), v.(fat := v.fat[c := LAST]);
              && v1.Start(FirstCluster(e))
              && Volumes.Create(v, name) == Some((v1.(dir := v1.dir[slot.value := e]), c))
  {
  }

  // ----- The driver ---------------------------------------------------------------

  class Fat12 {
    const disk: array<Sector>
    /** fat_buffer, with as much memory behind it as the scan reads. */
    const fatBuffer: array<byte>
    /** 0xFF0 in the source. */
    const scanEnd: nat
    var geo: Geometry

    ghost predicate Fits()
      reads this, fatBuffer
    {
      disk.Length == TOTAL_SECTORS && geo.Supported() && ScanFits(fatBuffer[..], scanEnd)
    }

    /** The volume, once mounted. */
    ghost function Vol(): Volume
      reads this, fatBuffer, disk
    {
      if Fits() then geo.View(disk[..], fatBuffer[..], scanEnd) else Volume([], [], [])
    }

    ghost predicate Mounted()
      reads this, fatBuffer, disk
    {
      && Fits()
      && geo.From(disk[0])
      && SECTOR_SIZE * geo.fatSectors <= fatBuffer.Length
      && Vol().Sound()
    }

    /** The disk's first FAT copy is the FAT in memory. */
    ghost predicate Saved()
      requires Mounted()
      reads this, fatBuffer, disk
    {
      Flatten(disk[..][geo.fatStart..geo.fatStart + geo.fatSectors]) == fatBuffer[..SECTOR_SIZE * geo.fatSectors]
    }

    ghost predicate Valid()
      reads this, fatBuffer, disk
    {
      Mounted() && Saved()
    }

    constructor (disk: array<Sector>, fatBuffer: array<byte>, scanEnd: nat)
      ensures this.disk == disk && this.fatBuffer == fatBuffer && this.scanEnd == scanEnd
    {
      this.disk, this.fatBuffer, this.scanEnd := disk, fatBuffer, scanEnd;
      this.geo := Geometry(0, 0, 0, 0);
    }

    lemma GeoFacts()
      requires Mounted()
      ensures disk.Length == TOTAL_SECTORS && SECTOR_SIZE * geo.fatSectors <= fatBuffer.Length
      ensures 0 < geo.fatStart && geo.fatStart + geo.fatSectors <= geo.rootStart <= TOTAL_SECTORS
    {
    }

    /** What the methods below use of the state while definitions are hidden. */
    lemma Facts()
      requires Valid()
      ensures Mounted() && disk.Length == TOTAL_SECTORS
      ensures geo.rootStart <= geo.dataStart && geo.rootStart + (geo.dataStart - geo.rootStart) <= TOTAL_SECTORS
      ensures Vol().Sound()
      ensures Vol().dir == Table(disk[..][geo.rootStart..geo.rootStart + (geo.dataStart - geo.rootStart)])
      ensures Vol().fat == Entries(fatBuffer[..], scanEnd)
      ensures 0 < scanEnd && scanEnd - 1 + (scanEnd - 1) / 2 + 1 < fatBuffer.Length
    {
    }

    lemma {:induction false} SameFront(b: seq<byte>, d: seq<byte>)
      requires d <= b
      ensures Splice(b, 0, d) == b
    {
    }

    /** Loading what is there already changes nothing. */
    lemma Remount()
      ensures Valid() ==>
        && Le16(disk[0], 11) != 0 && disk[0][13] != 0
        && geo == Geometry.Of(disk[0]) && geo.fatSectors % 0x100 == geo.fatSectors
        && geo.fatStart + geo.fatSectors <= TOTAL_SECTORS == disk.Length
        && SECTOR_SIZE * geo.fatSectors <= fatBuffer.Length
        && Splice(fatBuffer[..], 0, Flatten(disk[..][geo.fatStart..geo.fatStart + geo.fatSectors])) == fatBuffer[..]
    {
      hide Volume.Sound, Entries, Table, Geometry.View, Geometry.Of, ScanFits, Vol, Flatten, Splice;
      if Valid() {
        SameFront(fatBuffer[..], Flatten(disk[..][geo.fatStart..geo.fatStart + geo.fatSectors]));
      }
    }

    lemma FewSectors()
      requires Mounted()
      ensures geo.fatSectors % 0x100 == geo.fatSectors && disk.Length == TOTAL_SECTORS
    {
    }

    lemma {:induction false} LoadedIsSaved(was: seq<byte>)
      requires Mounted() && geo.fatStart + geo.fatSectors % 0x100 <= TOTAL_SECTORS
      requires SECTOR_SIZE * (geo.fatSectors % 0x100) <= |was|
      requires var fat := Flatten(disk[..][geo.fatStart..geo.fatStart + geo.fatSectors % 0x100]);
               fatBuffer[..] == Splice(was, 0, fat)
      ensures Valid()
    {
      hide Volume.Sound, Entries, Table, Geometry.View, Geometry.Supported, Geometry.From, ScanFits, Vol, Flatten,
           Splice;
      FewSectors();
      var fat := Flatten(disk[..][geo.fatStart..geo.fatStart + geo.fatSectors]);
      SplicedPart(was, 0, fat, |fat|);
      assert fat[..|fat|] == fat;
    }

    /** fat12_init: parse the boot sector and load the first FAT copy. The only
        checks are those for zero; the FAT must lie on the disk and fit the
        memory at fat_buffer, of whose sectors the floppy driver counts 8 bits. */
    method Init() returns (rc: int)
      requires disk.Length == TOTAL_SECTORS
      requires Le16(disk[0], 11) != 0 && disk[0][13] != 0 ==>
        var g := Geometry.Of(disk[0]);
        g.fatStart + g.fatSectors % 0x100 <= TOTAL_SECTORS && SECTOR_SIZE * (g.fatSectors % 0x100) <= fatBuffer.Length
      modifies this, fatBuffer
      ensures rc == if Le16(disk[0], 11) == 0 || disk[0][13] == 0 then -1 else 0
      ensures rc == -1 ==> geo == old(geo) && fatBuffer[..] == old(fatBuffer[..])
      ensures rc == 0 ==>
        && geo == Geometry.Of(disk[0]) && geo.LaidOut(disk[0])
        && var n := geo.fatSectors % 0x100;
           geo.fatStart + n <= TOTAL_SECTORS && SECTOR_SIZE * n <= fatBuffer.Length
           && fatBuffer[..] == Splice(old(fatBuffer[..]), 0, Flatten(disk[..][geo.fatStart..geo.fatStart + n]))
      ensures rc == 0 && Mounted() ==> Valid()
      ensures old(Valid()) ==> rc == 0 && Valid() && geo == old(geo) && Vol() == old(Vol())
    {
      hide Volume.Sound, Entries, Table, Geometry.View, Geometry.Supported, Geometry.From, Geometry.Of, ScanFits,
           Flatten, Splice, Geometry.LaidOut;
      Remount();
      var buffer := new byte[SECTOR_SIZE];
      LoadSector(disk, 0, buffer);
      var boot: Sector := buffer[..];
      if Le16(boot, 11) == 0 || boot[13] == 0 { return -1; }
      ghost var was := fatBuffer[..];
      geo := Geometry.Of(boot);
      Geometry.OfIsLaidOut(boot);
      ReadSectors(disk, geo.fatStart, geo.fatSectors % 0x100, fatBuffer, 0);
      if Mounted() { LoadedIsSaved(was); }
      return 0;
    }

    // ----- Disk accesses --------------------------------------------------

    lemma {:induction false} SameAreas(was: seq<Sector>, now: seq<Sector>)
      requires geo.Supported() && |was| == |now| == TOTAL_SECTORS && ScanFits(fatBuffer[..], scanEnd)
      requires forall k :: geo.rootStart <= k < TOTAL_SECTORS ==> now[k] == was[k]
      ensures geo.View(now, fatBuffer[..], scanEnd) == geo.View(was, fatBuffer[..], scanEnd)
    {
      assert now[geo.rootStart..geo.dataStart] == was[geo.rootStart..geo.dataStart];
      assert now[geo.dataStart..] == was[geo.dataStart..];
    }

    /** write_fat_table: only the first copy, sector by sector. */
    method WriteFatTable()
      requires Mounted()
      modifies disk
      ensures Valid() && Vol() == old(Vol())
      ensures forall k :: geo.rootStart <= k < TOTAL_SECTORS ==> disk[k] == old(disk[k])
    {
      hide Table, Entries, Flatten, Volume.Sound, Geometry.Supported, ScanFits, Geometry.View, Geometry.From;
      GeoFacts();
      var i := 0;
      ghost var fat, was := fatBuffer[..], disk[..];
      NothingWritten(was, geo.fatStart, fat);
      while i < geo.fatSectors
        invariant i <= geo.fatSectors
        invariant forall k :: geo.fatStart + geo.fatSectors <= k < TOTAL_SECTORS ==> disk[k] == was[k]
        invariant disk[0] == was[0]
        invariant Flatten(disk[..][geo.fatStart..geo.fatStart + i]) == fat[..SECTOR_SIZE * i]
      {
        var s: Sector := fatBuffer[SECTOR_SIZE * i..SECTOR_SIZE * i + SECTOR_SIZE];
        OneMoreWritten(disk[..], geo.fatStart, i, s);
        assert fat[..SECTOR_SIZE * i] + s == fat[..SECTOR_SIZE * (i + 1)];
        WriteSector(disk, geo.fatStart + i, s);
        i := i + 1;
      }
      SameAreas(was, disk[..]);
    }

    lemma {:induction false} StillSaved(was: seq<Sector>, now: seq<Sector>)
      requires geo.Supported() && |was| == |now| == TOTAL_SECTORS
      requires now[..geo.rootStart] == was[..geo.rootStart]
      ensures now[geo.fatStart..geo.fatStart + geo.fatSectors] == was[geo.fatStart..geo.fatStart + geo.fatSectors]
    {
      assert now[..geo.rootStart][geo.fatStart..geo.fatStart + geo.fatSectors]
          == was[..geo.rootStart][geo.fatStart..geo.fatStart + geo.fatSectors];
    }

    /** Write one data cluster; each cluster is one sector. */
    method WriteCluster(c: nat, s: Sector)
      requires Valid() && Vol().InVolume(c)
      modifies disk
      ensures Valid() && Vol() == old(Vol().(data := Vol().data[c - FIRST_CLUSTER := s]))
    {
      hide Volume.Sound, Entries, Table, Geometry.From, Flatten;
      ghost var was := disk[..];
      WriteSector(disk, geo.dataStart + c - FIRST_CLUSTER, s);
      geo.PatchData(was, fatBuffer[..], scanEnd, c, s);
      StillSaved(was, disk[..]);
    }

    /** Patch entry `idx` of a directory sector held in `buffer` and write it. */
    method WriteEntry(k: nat, idx: nat, e: RawEntry, buffer: array<byte>)
      requires Valid() && k < geo.dataStart - geo.rootStart && idx < ENTRIES_PER_SECTOR
      requires buffer != fatBuffer && buffer.Length == SECTOR_SIZE && buffer[..] == disk[geo.rootStart + k]
      requires e[0] == NEVER_USED || Vol().Start(FirstCluster(e))
      modifies disk, buffer
      ensures Valid() && Vol() == old(Vol().(dir := Vol().dir[ENTRIES_PER_SECTOR * k + idx := e]))
    {
      hide Entries, Table, Geometry.From, Flatten;
      ghost var was := disk[..];
      CopyOut(e, buffer, ENTRY_SIZE * idx);
      WriteSector(disk, geo.rootStart + k, buffer[..]);
      geo.PatchRoot(was, fatBuffer[..], scanEnd, k, idx, e);
      StillSaved(was, disk[..]);
    }

    /** set_fat_entry on the driver's table. */
    method SetEntry(c: nat, value: Entry)
      requires Mounted() && Vol().InVolume(c) && Vol().LinkOk(value)
      modifies fatBuffer
      ensures c < |old(Vol()).fat| && Vol() == old(Vol()).(fat := old(Vol()).fat[c := value])
      ensures Mounted() && Vol().Sound()
    {
      hide Volume.Sound, Entries, Geometry.View, Geometry.Supported, ScanFits, Flatten, Geometry.From;
      ghost var was := fatBuffer[..];
      geo.EntrySet(disk[..], was, scanEnd, c, value);
      Set(fatBuffer, c, value, scanEnd);
      geo.SameEntries(disk[..], was, fatBuffer[..], scanEnd, c, value);
    }

    // ----- Opening and resizing ----------------------------------------------

    /** fat12_open. */
    method Open(filename: CString) returns (rc: int, file: File)
      requires Valid()
      ensures match Lookup(Vol().dir, Name83(filename), false, 0)
              case None => rc == -1
              case Some(i) =>
                var e := Vol().dir[i];
                rc == 0 && file == File(SizeOf(e), FirstCluster(e), e[11] / 0x10 % 2 == 1)
    {
      hide *;
      Facts();
      var name := ConvertName(filename);
      var n := geo.dataStart - geo.rootStart;
      var k, idx, buffer, found := Search(disk, geo.rootStart, n, name, false);
      if k == n { return -1, File(0, 0, false); }
      RowOf(disk[..][geo.rootStart..geo.rootStart + n], k, idx);
      var e := EntryIn(buffer[..], idx);
      return 0, File(SizeOf(e), FirstCluster(e), e[11] / 0x10 % 2 == 1);
    }

    /** fat12_update_size. */
    method UpdateSize(filename: CString, size: nat) returns (rc: int)
      requires Valid() && size < U32
      modifies disk
      ensures Valid()
      ensures match Volumes.UpdateSize(old(Vol()), Name83(filename), size)
              case None => rc == -1 && Vol() == old(Vol())
              case Some(v1) => rc == 0 && Vol() == v1
    {
      hide *;
      Facts();
      ghost var v := Vol();
      var name := ConvertName(filename);
      var n := geo.dataStart - geo.rootStart;
      var k, idx, buffer, found := Search(disk, geo.rootStart, n, name, true);
      FoundForResize(v, name, size);
      if k == n { return -1; }
      RowOf(disk[..][geo.rootStart..geo.rootStart + n], k, idx);
      WriteEntry(k, idx, WithSize(EntryIn(buffer[..], idx), size), buffer);
      return 0;
    }

    // ----- Creating and deleting ---------------------------------------------

    /** fat12_create. */
    method Create(filename: CString) returns (rc: int, file: File)
      requires Valid()
      modifies disk, fatBuffer
      ensures Valid()
      ensures match Volumes.Create(old(Vol()), Name83(filename))
              case None => rc == -1 && Vol() == old(Vol())
              case Some((v1, c)) => rc == 0 && Vol() == v1 && file == File(0, c, false)
    {
      hide *;
      Facts();
      ghost var v := Vol();
      var name := ConvertName(filename);
      file := File(0, 0, false);
      var n := geo.dataStart - geo.rootStart;
      var k, idx, buffer, found := SearchFree(disk, geo.rootStart, n);
      FoundSlot(v, name);
      if k == n { return -1, file; }
      var c := FindFreeCluster(fatBuffer, scanEnd);
      if c == 0 { return -1, file; }
      RowOf(disk[..][geo.rootStart..geo.rootStart + n], k, idx);
      SetEntry(c, LAST);
      WriteFatTable();
      WriteEntry(k, idx, NewEntry(EntryIn(buffer[..], idx), name, c), buffer);
      return 0, File(0, c, false);
    }

    /** The loop of fat12_delete that gives a chain's clusters back. */
    method FreeClusters(first: nat)
      requires Mounted() && Vol().Start(first)
      modifies fatBuffer
      ensures Mounted() && Vol() == old(Vol().(fat := FreeChain(Vol().fat, Vol().End(), first)))
    {
      ghost var v := Vol();
      var c: nat := first;
      while FIRST_CLUSTER <= c < END_OF_CHAIN
        invariant Mounted() && Vol().Start(c) && geo == old(geo)
        invariant Vol() == v.(fat := Vol().fat)
        invariant FreeChain(v.fat, v.End(), first) == FreeChain(Vol().fat, v.End(), c)
        decreases InUse(Vol().fat), c
      {
        var next := Get(fatBuffer[..], c);
        InUseDrops(Vol().fat, c);
        SetEntry(c, FREE);
        c := next;
      }
    }

    /** fat12_delete. */
    method Delete(filename: CString) returns (rc: int)
      requires Valid()
      modifies disk, fatBuffer
      ensures Valid()
      ensures match Volumes.Delete(old(Vol()), Name83(filename))
              case None => rc == -1 && Vol() == old(Vol())
              case Some(v1) => rc == 0 && Vol() == v1
    {
      hide *;
      Facts();
      ghost var v := Vol();
      var name := ConvertName(filename);
      var n := geo.dataStart - geo.rootStart;
      var k, idx, buffer, found := Search(disk, geo.rootStart, n, name, true);
      FoundForDelete(v, name);
      if k == n { return -1; }
      RowOf(disk[..][geo.rootStart..geo.rootStart + n], k, idx);
      var e := EntryIn(buffer[..], idx);
      FreeClusters(FirstCluster(e));
      WriteFatTable();
      WriteEntry(k, idx, AsDeleted(e), buffer);
      return 0;
    }

    // ----- Reading and writing contents ----------------------------------------

    /** get_fat_entry on the driver's table. */
    method GetEntry(c: nat) returns (e: Entry)
      requires Mounted() && Vol().InVolume(c)
      ensures c < |Vol().fat| && e == Vol().fat[c]
    {
      e := Get(fatBuffer[..], c);
    }

    /** The inner loop of fat12_read: how far the chain stays consecutive. */
    method FindRun(c: nat) returns (n: nat, next: nat)
      requires Valid() && Vol().InVolume(c)
      ensures Vol().Sound() && IsRun(Vol(), c, n) && Vol().InVolume(c + n - 1)
      ensures n <= 250 && c + n - 1 < |Vol().fat| && next == Vol().fat[c + n - 1]
      ensures n == 250 || next != c + n || !Follows(next)
    {
      hide *;
      Facts();
      ghost var v := Vol();
      next := GetEntry(c);
      n := 1;
      FirstOfRun(v, c);
      while next == c + n && Follows(next) && n < 250
        invariant 1 <= n <= 250 && c + n - 1 < |v.fat| && next == v.fat[c + n - 1]
        invariant IsRun(v, c, n) && v.InVolume(c + n - 1)
        decreases 250 - n
      {
        RunGrows(v, c, n);
        n := n + 1;
        next := GetEntry(c + n - 1);
      }
    }

    lemma DataSectors(i: nat, n: nat)
      requires Mounted() && i + n <= |Vol().data|
      ensures geo.dataStart + i + n <= TOTAL_SECTORS
      ensures disk[..][geo.dataStart + i..geo.dataStart + i + n] == Vol().data[i..i + n]
    {
      hide Volume.Sound, Entries, ScanFits, Geometry.From, Table;
    }

    /** One round of fat12_read's loop: the longest run, or what is still wanted
        of it, in one transfer. Above 2^32 - 512 bytes the transfer is empty. */
    method ReadRun(c: nat, buffer: array<byte>, at: nat, remaining: nat) returns (amount: nat, next: nat,
            ghost run: nat)
      requires Valid() && Vol().InVolume(c) && buffer != fatBuffer && 0 < remaining < U32
      requires at + Touched(|ReadLoop(Vol(), c, remaining)|) <= buffer.Length
      modifies buffer
      ensures Valid() && Vol() == old(Vol()) && Vol().Sound() && Vol().Start(next)
      ensures IsRun(Vol(), c, run) && next == Vol().fat[c + run - 1]
      ensures remaining > U32 - 512 ==> amount == 0 && buffer[..] == old(buffer[..])
      ensures remaining <= U32 - 512 ==>
        && 1 <= amount <= remaining && at + amount <= buffer.Length
        && (amount == remaining || amount % SECTOR_SIZE == 0)
        && at + Touched(amount) <= buffer.Length
        && buffer[..at] == old(buffer[..at])
        && buffer[at + Touched(amount)..] == old(buffer[at + Touched(amount)..])
        && Walk(Vol(), c, remaining) == buffer[at..at + amount] + Walk(Vol(), next, remaining - amount)
    {
      hide Volume.Sound, Walk, Flatten, Geometry.View, Geometry.Supported, Geometry.From, ScanFits, Splice, Touched,
           NeededSectors,
           ReadLoop, IsRun, Entries, Table, Mounted, Saved, Vol, Fits;
      Facts();
      ghost var v, was := Vol(), buffer[..];
      var n;
      n, next := FindRun(c);
      run := n;
      var total := n;
      if total > NeededSectors(remaining) { total := NeededSectors(remaining); }
      amount := total * SECTOR_SIZE;
      if amount > remaining { amount := remaining; }
      RoundAsks(v, c, run, remaining, total, amount);
      DataSectors(c - FIRST_CLUSTER, total);
      ReadSectors(disk, geo.dataStart + (c - FIRST_CLUSTER), total, buffer, at);
      RoundCopied(was, buffer[..], at, Flatten(v.data[c - FIRST_CLUSTER..c - FIRST_CLUSTER + total]), amount);
    }

    /** fat12_read: runs of up to 250 clusters in one transfer. It reads what a
        walk cluster by cluster reads, on any FAT whose links stay in the
        volume, cyclic ones too, and writes nothing behind the last sector it
        copies. Above 2^32 - 512 bytes it reads nothing, and ends if the chain
        does. */
    method Read(file: File, buffer: array<byte>, wanted: nat) returns (bytesRead: nat)
      requires Valid() && Vol().Sound() && Vol().Start(file.firstCluster) && buffer != fatBuffer
      requires Min(wanted, file.size) < U32
      requires Min(wanted, file.size) > U32 - 512 ==> exists n :: Ends(Vol(), file.firstCluster, n)
      requires Touched(|ReadLoop(Vol(), file.firstCluster, Min(wanted, file.size))|) <= buffer.Length
      modifies buffer
      ensures Valid() && Vol() == old(Vol()) && Vol().Sound()
      ensures bytesRead <= buffer.Length && Touched(bytesRead) <= buffer.Length
              && buffer[..bytesRead] == ReadLoop(Vol(), file.firstCluster, Min(wanted, file.size))
              && buffer[Touched(bytesRead)..] == old(buffer[Touched(bytesRead)..])
    {
      hide Volume.Sound, Walk, Mounted, Saved, Vol, Valid, ReadLoop, Touched, StillToRead, Ends, IsRun;
      var size := if wanted > file.size then file.size else wanted;
      bytesRead := 0;
      var c: nat := file.firstCluster;
      ghost var v, was, bytes := Vol(), buffer[..], ReadLoop(Vol(), c, size);
      ghost var links := StartReading(v, c, size, was);
      while bytesRead < size && FIRST_CLUSTER <= c < END_OF_CHAIN
        invariant Valid() && Vol() == v && v.Start(c) && |buffer[..]| == |was|
        invariant StillToRead(v, bytes, size, bytesRead, c, links, was, buffer[..])
        decreases size - bytesRead, links
      {
        ghost var before := buffer[..];
        RoundFits(v, bytes, size, bytesRead, c, links, was, before);
        var amount, next;
        ghost var run;
        amount, next, run := ReadRun(c, buffer, bytesRead, size - bytesRead);
        RunInside(v, c, run);
        links := RoundDone(v, bytes, size, bytesRead, c, links, was, before, buffer[..], amount, run);
        bytesRead := bytesRead + amount;
        c := next;
      }
      ReadingDone(v, bytes, size, bytesRead, c, links, was, buffer[..]);
    }

    /** find_free_cluster on the driver's table. */
    method FindFree() returns (c: nat)
      requires Valid()
      ensures c == FirstFree(Vol().fat, FIRST_CLUSTER)
      ensures c != 0 ==> Vol().InVolume(c)
    {
      c := FindFreeCluster(fatBuffer, scanEnd);
    }

    /** Chain c goes on with the new cluster n, which ends it. */
    method LinkTo(c: nat, n: nat)
      requires Valid() && Vol().InVolume(c) && Vol().InVolume(n)
      modifies disk, fatBuffer
      ensures Valid() && c < |old(Vol()).fat| && n < |old(Vol()).fat| && n < 0x1000
      ensures Vol() == old(Vol()).(fat := old(Vol()).fat[c := n][n := LAST])
    {
      hide *;
      Facts();
      LinkOks(Vol(), c, n);
      SetEntry(c, n);
      SetEntry(n, LAST);
      WriteFatTable();
    }

    /** One round of fat12_write's loop. */
    method WriteRound(c: nat, data: seq<byte>, at: nat) returns (ok: bool, next: nat, amount: nat)
      requires Valid() && Vol().Sound() && Vol().InVolume(c) && Follows(c) && at < |data|
      modifies disk, fatBuffer
      ensures Valid() && Vol() == WriteOne(old(Vol()), c, data[at..]).0
      ensures amount == Min(SECTOR_SIZE, |data[at..]|)
      ensures WriteOne(old(Vol()), c, data[at..]).1 == if ok then Some(next) else None
    {
      hide Mounted, Saved, Vol, Volume.Sound, Block, FirstFree, Volume.SameShape;
      ghost var v := Vol();
      ClusterLink(v, c);
      var s;
      s, amount := FillSector(data, at);
      WriteCluster(c, s);
      next := GetEntry(c);
      if at + amount < |data| && (next >= END_OF_CHAIN || next == FREE) {
        next := FindFree();
        if next == 0 { return false, 0, amount; }
        LinkTo(c, next);
      }
      return true, next, amount;
    }

    /** fat12_write: cluster by cluster, taking a free cluster whenever the chain
        is too short, and storing the FAT each time it grows. */
    method Write(first: nat, data: seq<byte>) returns (rc: int)
      requires Valid() && Vol().Sound() && Vol().Start(first)
      modifies disk, fatBuffer
      ensures Valid()
      ensures var (v1, end) := WriteChain(old(Vol()), first, data);
              Vol() == v1 && rc == if end.DiskFull? then -1 else |data| - end.rest
    {
      hide *;
      ghost var v := Vol();
      var written := 0;
      var c: nat := first;
      Whole(data);
      WriteUnfolds(v, c, data);
      while written < |data| && Follows(c)
        invariant Valid() && Vol().Sound() && Vol().Start(c) && written <= |data|
        invariant WriteChain(v, first, data) == WriteChain(Vol(), c, data[written..])
        decreases |data| - written
      {
        ghost var v0 := Vol();
        WriteUnfolds(v0, c, data[written..]);
        var ok, next, amount := WriteRound(c, data, written);
        DropMore(data, written, amount);
        if !ok { return -1; }
        written := written + amount;
        c := next;
      }
      WriteUnfolds(Vol(), c, data[written..]);
      return written;
    }
  }
}
