/** A FAT12 volume as a value: the unpacked FAT, the root directory and the
    data clusters, with the operations of src/fat12.c as functions on it. The
    class Fat12 is proved to compute exactly these functions; what they mean
    for files is proved in modules VolumeInvariant and Files. */
module Volumes {
  import opened Bytes
  import opened Collections
  import opened Floppy
  import opened FatTable
  import opened Directory

  /** The source's bound on cluster numbers when it scans for a free one. */
  const SCAN_LIMIT := 0xFF0

  /** The guard of every chain loop in the driver. */
  predicate Follows(c: int) {
    FIRST_CLUSTER <= c < END_OF_CHAIN
  }

  datatype Volume = Volume(fat: seq<Entry>, dir: seq<RawEntry>, data: seq<Sector>) {

    /** The first cluster number behind the volume. */
    function End(): nat { |data| + FIRST_CLUSTER }

    predicate InVolume(c: int) { FIRST_CLUSTER <= c < End() }

    /** A cluster number a loop would follow is one the volume has. */
    predicate Start(c: nat) { Follows(c) ==> InVolume(c) }

    predicate LinkOk(e: Entry) {
      e == FREE || e >= END_OF_CHAIN || InVolume(e)
    }

    /** What the driver relies on without checking. */
    ghost predicate Sound() {
      && End() <= |fat| <= SCAN_LIMIT
      && (forall c :: InVolume(c) ==> LinkOk(fat[c]))
      && (forall c :: End() <= c < |fat| ==> fat[c] != FREE)
      && (forall i :: 0 <= i < |dir| && dir[i][0] != NEVER_USED ==> Start(FirstCluster(dir[i])))
    }

    ghost predicate SameShape(other: Volume) {
      |fat| == |other.fat| && |dir| == |other.dir| && |data| == |other.data|
    }
  }

  // ----- Reading ---------------------------------------------------------

  /** The plain meaning of reading: one cluster after the other along the
      links, until `size` bytes are there or the chain ends. */
  function Walk(v: Volume, c: nat, size: nat): (bytes: seq<byte>)
    requires v.Sound() && v.Start(c)
    ensures |bytes| <= size
    decreases size
  {
    if size == 0 || !Follows(c) then []
    else
      var k := Min(SECTOR_SIZE, size);
      v.data[c - FIRST_CLUSTER][..k] + Walk(v, v.fat[c], size - k)
  }

  /** n consecutive clusters, each linked to the next. */
  ghost predicate IsRun(v: Volume, c: nat, n: nat)
    requires v.Sound()
  {
    && n >= 1 && v.InVolume(c) && v.InVolume(c + n - 1)
    && forall x :: c <= x < c + n - 1 ==> v.fat[x] == x + 1
  }

  /** Sectors a read asks for: no more than needed, no more than the run has. */
  function RunSectors(n: nat, size: nat): nat {
    Min(n, CeilDiv(size, SECTOR_SIZE))
  }

  lemma {:induction false} WalkStep(v: Volume, c: nat, size: nat)
    requires v.Sound() && v.InVolume(c)
    ensures c < |v.fat| && v.Start(v.fat[c])
    ensures size > SECTOR_SIZE ==>
              Walk(v, c, size) == v.data[c - FIRST_CLUSTER] + Walk(v, v.fat[c], size - SECTOR_SIZE)
    ensures size <= SECTOR_SIZE ==> Walk(v, c, size) == v.data[c - FIRST_CLUSTER][..size]
  {
  }

  lemma {:induction false} WalkNothing(v: Volume, c: nat)
    requires v.Sound() && v.Start(c)
    ensures Walk(v, c, 0) == []
  {
  }

  lemma {:induction false} FlattenHead(sectors: seq<Sector>, at: nat, n: nat)
    requires 1 <= n && at + n <= |sectors|
    ensures Flatten(sectors[at..at + n]) == sectors[at] + Flatten(sectors[at + 1..at + n])
    ensures n == 1 ==> Flatten(sectors[at + 1..at + n]) == []
  {
    assert sectors[at..at + n] == [sectors[at]] + sectors[at + 1..at + n];
  }

  lemma {:induction false} TakeAcross(a: seq<byte>, b: seq<byte>, n: nat, c: seq<byte>)
    requires |a| <= n <= |a| + |b|
    ensures (a + b)[..n] + c == a + (b[..n - |a|] + c)
  {
    assert (a + b)[..n] == a + b[..n - |a|];
  }

  /** Reading a run of consecutive clusters in one piece is reading them one by
      one. */
  lemma {:induction false} RunWalk(v: Volume, c: nat, n: nat, size: nat)
    requires v.Sound() && IsRun(v, c, n) && size > 0
    ensures v.Start(v.fat[c + n - 1])
    ensures var total, at := RunSectors(n, size), c - FIRST_CLUSTER;
            var amount := Min(SECTOR_SIZE * total, size);
            && 1 <= total && at + total <= |v.data|
            && Walk(v, c, size)
               == Flatten(v.data[at..at + total])[..amount] + Walk(v, v.fat[c + n - 1], size - amount)
    decreases n
  {
    hide Walk, Flatten, Volume.Sound;
    var at, total := c - FIRST_CLUSTER, RunSectors(n, size);
    WalkStep(v, c, size);
    WalkStep(v, c + n - 1, size);
    FlattenHead(v.data, at, total);
    if n > 1 && size > SECTOR_SIZE {
      RunWalk(v, c + 1, n - 1, size - SECTOR_SIZE);
      var amount := Min(SECTOR_SIZE * total, size);
      assert CeilDiv(size, SECTOR_SIZE) == 1 + CeilDiv(size - SECTOR_SIZE, SECTOR_SIZE);
      TakeAcross(v.data[at], Flatten(v.data[at + 1..at + total]), amount, Walk(v, v.fat[c + n - 1], size - amount));
    } else if size <= SECTOR_SIZE {
      WalkNothing(v, v.fat[c + n - 1]);
    }
  }

  lemma {:induction false} FirstOfRun(v: Volume, c: nat)
    requires v.Sound() && v.InVolume(c)
    ensures c < |v.fat| && IsRun(v, c, 1)
  {
  }

  lemma {:induction false} RunGrows(v: Volume, c: nat, n: nat)
    requires v.Sound() && IsRun(v, c, n) && v.fat[c + n - 1] == c + n && Follows(c + n)
    ensures c + n < |v.fat| && v.InVolume(c + n) && IsRun(v, c, n + 1)
  {
    assert v.LinkOk(v.fat[c + n - 1]);
  }

  /** The chain from c ends within n links. */
  ghost predicate Ends(v: Volume, c: nat, n: nat)
    requires v.Sound() && v.Start(c)
    decreases n
  {
    Follows(c) ==> n > 0 && Ends(v, v.fat[c], n - 1)
  }

  lemma {:induction false} FirstLink(v: Volume, c: nat, r: nat)
    requires v.Sound() && IsRun(v, c, r)
    ensures Follows(c) && c < |v.fat| && v.Start(c) && v.Start(v.fat[c])
    ensures r > 1 ==> v.fat[c] == c + 1 && IsRun(v, c + 1, r - 1)
  {
  }

  lemma {:induction false} EndsAfterRun(v: Volume, c: nat, r: nat, n: nat)
    requires v.Sound() && IsRun(v, c, r) && Ends(v, c, n)
    ensures r <= n && v.Start(v.fat[c + r - 1]) && Ends(v, v.fat[c + r - 1], n - r)
    decreases r
  {
    hide Volume.Sound;
    FirstLink(v, c, r);
    if r > 1 { EndsAfterRun(v, c + 1, r - 1, n - 1); }
  }

  /** The source computes the needed sectors in 32 bits; for sizes in the last
      511 bytes below 4 GiB they come out as zero, and the run is skipped unread. */
  function NeededSectors(remaining: nat): nat {
    (remaining + 511) % U32 / SECTOR_SIZE
  }

  lemma NeededSectorsExact(remaining: nat)
    requires 0 < remaining < U32
    ensures NeededSectors(remaining) == CeilDiv(remaining, SECTOR_SIZE) <==> remaining <= U32 - 512
    ensures remaining > U32 - 512 ==> NeededSectors(remaining) == 0
  {
  }

  lemma RunAmount(n: nat, remaining: nat)
    requires n >= 1 && 0 < remaining <= U32 - 512
    ensures var total := RunSectors(n, remaining);
            var amount := Min(SECTOR_SIZE * total, remaining);
            && total == Min(n, NeededSectors(remaining)) && total <= CeilDiv(remaining, SECTOR_SIZE)
            && 1 <= amount && (amount == remaining || amount % SECTOR_SIZE == 0)
  {
  }

  /** Whole sectors are copied: these bytes of the buffer are written for n
      bytes read. */
  function Touched(n: nat): nat { SECTOR_SIZE * CeilDiv(n, SECTOR_SIZE) }

  /** A read stays inside a buffer of `room` bytes exactly when the last sector it
      copies fits, too; it always does when `room` is whole sectors. */
  lemma TouchedFits(n: nat, room: nat)
    requires n <= room
    ensures Touched(n) <= room <==> n <= room - room % SECTOR_SIZE
    ensures room % SECTOR_SIZE == 0 ==> Touched(n) <= room
  {
    assert room == SECTOR_SIZE * (room / SECTOR_SIZE) + room % SECTOR_SIZE;
  }

  lemma TouchedMore(done: nat, n: nat)
    requires done % SECTOR_SIZE == 0
    ensures Touched(done + n) == done + Touched(n)
  {
    assert CeilDiv(done + n, SECTOR_SIZE) == done / SECTOR_SIZE + CeilDiv(n, SECTOR_SIZE);
  }

  lemma TouchedGrows(m: nat, n: nat)
    requires m <= n
    ensures Touched(m) <= Touched(n)
  {
  }

  /** One round that asks for sectors, said of the walk. */
  lemma {:induction false} RoundReads(v: Volume, c: nat, n: nat, remaining: nat)
    requires v.Sound() && IsRun(v, c, n) && 0 < remaining <= U32 - 512
    ensures v.Start(v.fat[c + n - 1])
    ensures var total, at := Min(n, NeededSectors(remaining)), c - FIRST_CLUSTER;
            var amount := Min(SECTOR_SIZE * total, remaining);
            && 1 <= amount && (amount == remaining || amount % SECTOR_SIZE == 0)
            && SECTOR_SIZE * total == Touched(amount) && at + total <= |v.data|
            && amount <= |Walk(v, c, remaining)|
            && Walk(v, c, remaining)
               == Flatten(v.data[at..at + total])[..amount] + Walk(v, v.fat[c + n - 1], remaining - amount)
  {
    hide Walk, Flatten, Volume.Sound;
    RunAmount(n, remaining);
    RunWalk(v, c, n, remaining);
  }

  // ----- Writing ---------------------------------------------------------

  /** The bytes of `data` that fit one sector, padded with zeros. */
  function Block(data: seq<byte>): Sector {
    var k := Min(SECTOR_SIZE, |data|);
    data[..k] + seq(SECTOR_SIZE - k, i => 0)
  }

  /** How fat12_write ends: the number of bytes not written (0 unless there
      was no chain to write to), or no free cluster left. */
  datatype Ending = Finished(rest: nat) | DiskFull

  /** One round of fat12_write's loop: a sector of data to cluster c, then on to
      the next cluster, which is allocated if data is left and there is none. */
  function WriteOne(v: Volume, c: nat, data: seq<byte>): (r: (Volume, Option<nat>))
    requires v.Sound() && v.InVolume(c)
    ensures r.0.Sound() && r.0.SameShape(v) && r.0.dir == v.dir
    ensures r.1.Some? ==> r.0.Start(r.1.value)
  {
    var v1 := v.(data := v.data[c - FIRST_CLUSTER := Block(data)]);
    var next := v.fat[c];
    if |data| > SECTOR_SIZE && (next >= END_OF_CHAIN || next == FREE) then
      var n := FirstFree(v.fat, FIRST_CLUSTER);
      if n == 0 then (v1, None)
      else (v1.(fat := v1.fat[c := n][n := LAST]), Some(n))
    else (v1, Some(next))
  }

  function WriteChain(v: Volume, c: nat, data: seq<byte>): (r: (Volume, Ending))
    requires v.Sound() && v.Start(c)
    ensures r.0.Sound() && r.0.SameShape(v) && r.0.dir == v.dir
    decreases |data|
  {
    if data == [] || !Follows(c) then (v, Finished(|data|))
    else
      match WriteOne(v, c, data)
      case (v1, None) => (v1, DiskFull)
      case (v1, Some(next)) => WriteChain(v1, next, data[Min(SECTOR_SIZE, |data|)..])
  }

  lemma {:induction false} WriteUnfolds(v: Volume, c: nat, data: seq<byte>)
    requires v.Sound() && v.Start(c)
    ensures data == [] || !Follows(c) ==> WriteChain(v, c, data) == (v, Finished(|data|))
    ensures data != [] && Follows(c) ==>
              v.InVolume(c) &&
              var (v1, next) := WriteOne(v, c, data);
              if next.None? then WriteChain(v, c, data) == (v1, DiskFull)
              else v1.Start(next.value)
                   && WriteChain(v, c, data) == WriteChain(v1, next.value, data[Min(SECTOR_SIZE, |data|)..])
  {
  }

  // ----- Directory operations --------------------------------------------

  /** fat12_update_size. */
  function UpdateSize(v: Volume, name: Name, size: nat): Option<Volume>
    requires size < U32
  {
    match Lookup(v.dir, name, true, 0)
    case None => None
    case Some(i) => Some(v.(dir := v.dir[i := WithSize(v.dir[i], size)]))
  }

  /** fat12_create: the first slot never used or deleted gets the first free
      cluster. The name is not looked for. */
  function Create(v: Volume, name: Name): (r: Option<(Volume, nat)>)
    requires v.Sound()
    ensures r.Some? ==> r.value.0.Sound() && r.value.0.SameShape(v) && v.InVolume(r.value.1)
  {
    match FreeSlot(v.dir, 0)
    case None => None
    case Some(i) =>
      var c := FirstFree(v.fat, FIRST_CLUSTER);
      if c == 0 then None
      else Some((v.(fat := v.fat[c := LAST], dir := v.dir[i := NewEntry(v.dir[i], name, c)]), c))
  }

  /** The number of entries in use; freeing one makes it smaller. */
  function InUse(fat: seq<Entry>): nat {
    if fat == [] then 0 else (if fat[0] == FREE then 0 else 1) + InUse(fat[1..])
  }

  lemma {:induction false} InUseDrops(fat: seq<Entry>, c: nat)
    requires c < |fat|
    ensures InUse(fat[c := FREE]) == InUse(fat) - (if fat[c] == FREE then 0 else 1)
  {
    if c == 0 {
      assert fat[c := FREE][1..] == fat[1..];
    } else {
      assert fat[c := FREE][1..] == fat[1..][c - 1 := FREE];
      InUseDrops(fat[1..], c - 1);
    }
  }

  ghost predicate LinksOk(fat: seq<Entry>, end: nat) {
    && end <= |fat|
    && forall c :: FIRST_CLUSTER <= c < end ==>
         fat[c] == FREE || fat[c] >= END_OF_CHAIN || fat[c] < end
  }

  /** The freeing loop of fat12_delete. It ends on any FAT whose links stay in
      the volume, cyclic ones too: a cluster met again reads as free. */
  function FreeChain(fat: seq<Entry>, end: nat, c: nat): (r: seq<Entry>)
    requires LinksOk(fat, end) && (Follows(c) ==> c < end)
    ensures |r| == |fat|
    ensures forall x :: 0 <= x < |fat| ==> r[x] == fat[x] || (r[x] == FREE && FIRST_CLUSTER <= x < end)
    decreases InUse(fat), c
  {
    if !Follows(c) then fat
    else
      InUseDrops(fat, c);
      FreeChain(fat[c := FREE], end, fat[c])
  }

  /** fat12_delete. */
  function Delete(v: Volume, name: Name): (r: Option<Volume>)
    requires v.Sound()
    ensures r.Some? ==> r.value.Sound() && r.value.SameShape(v)
  {
    match Lookup(v.dir, name, true, 0)
    case None => None
    case Some(i) =>
      Some(v.(fat := FreeChain(v.fat, v.End(), FirstCluster(v.dir[i])),
              dir := v.dir[i := AsDeleted(v.dir[i])]))
  }

  // ----- System calls ----------------------------------------------------

  /** What fat12_read's loop delivers. Above 2^32 - 512 bytes it asks for no
      sectors at all and skips run after run. */
  function ReadLoop(v: Volume, c: nat, size: nat): (bytes: seq<byte>)
    requires v.Sound() && v.Start(c)
    ensures |bytes| <= size
  {
    if size <= U32 - 512 then Walk(v, c, size) else []
  }

  /** It delivers what the walk reads exactly up to that size, or when there is
      no chain to read. */
  lemma {:induction false} ReadLoopExact(v: Volume, c: nat, size: nat)
    requires v.Sound() && v.Start(c)
    ensures ReadLoop(v, c, size) == Walk(v, c, size) <==> size <= U32 - 512 || !Follows(c)
  {
    if size > U32 - 512 && Follows(c) {
      WalkStep(v, c, size);
    }
  }

  /** SYSCALL_READ_FILE: at most the file's size and the caller's buffer size. */
  function ReadFile(v: Volume, name: Name, room: nat): Option<seq<byte>>
    requires v.Sound()
  {
    match Lookup(v.dir, name, false, 0)
    case None => None
    case Some(i) => Some(ReadLoop(v, FirstCluster(v.dir[i]), Min(SizeOf(v.dir[i]), room)))
  }

  /** A read of this size under this name comes to an end. */
  ghost predicate ReadEnds(v: Volume, name: Name, room: nat)
    requires v.Sound()
  {
    match Lookup(v.dir, name, false, 0)
    case None => true
    case Some(i) =>
      Min(SizeOf(v.dir[i]), room) > U32 - 512 ==> exists n :: Ends(v, FirstCluster(v.dir[i]), n)
  }

  /** The byte count is an int, so a count from 2^31 on reads as an error. */
  function WriteAndResize(v: Volume, first: nat, name: Name, data: seq<byte>): (r: (Volume, nat))
    requires v.Sound() && v.Start(first) && |data| < U32
    ensures r.0.Sound() && r.0.SameShape(v)
  {
    match WriteChain(v, first, data)
    case (v1, DiskFull) => (v1, 0)
    case (v1, Finished(rest)) =>
      if rest >= |data| || |data| - rest >= 0x8000_0000 then (v1, 0)
      else
        match UpdateSize(v1, name, |data| - rest)
        case None => (v1, 0)
        case Some(v2) => (v2, |data| - rest)
  }

  /** SYSCALL_WRITE_FILE: open or else create, write, and on a positive byte
      count record it as the size. The number is the syscall's result. */
  function WriteFile(v: Volume, name: Name, data: seq<byte>): (r: (Volume, nat))
    requires v.Sound() && |data| < U32
    ensures r.0.Sound() && r.0.SameShape(v)
  {
    match Lookup(v.dir, name, false, 0)
    case Some(i) => WriteAndResize(v, FirstCluster(v.dir[i]), name, data)
    case None =>
      match Create(v, name)
      case None => (v, 0)
      case Some((v1, first)) => WriteAndResize(v1, first, name, data)
  }
}
