/** The floppy driver's sector transfers (src/fdc.c).

    The medium is an array of sectors in track order; the drive itself only
    understands (cylinder, head, sector) addresses, so every transfer goes
    through LbaToChs. */
module Floppy {
  import opened Bytes

  const SECTORS_PER_TRACK := 18
  const HEADS := 2
  const CYLINDERS := 80
  const TOTAL_SECTORS := 2880
  const SECTOR_SIZE := 512

  type Sector = s: seq<byte> | |s| == 512 witness seq(512, i => 0)

  datatype Chs = Chs(cylinder: nat, head: nat, sector: nat) {
    predicate Valid() {
      cylinder < CYLINDERS && head < HEADS && 1 <= sector <= SECTORS_PER_TRACK
    }

    /** The place of this address on the medium: tracks follow each other,
        head by head and cylinder by cylinder; sectors count from 1. */
    function Position(): (p: int) {
      (cylinder * HEADS + head) * SECTORS_PER_TRACK + sector - 1
    }
  }

  /** The three results are stored through uint8_t pointers. */
  function LbaToChs(lba: nat): Chs {
    Chs(lba / (HEADS * SECTORS_PER_TRACK) % 0x100,
        lba / SECTORS_PER_TRACK % HEADS,
        lba % SECTORS_PER_TRACK + 1)
  }

  lemma PositionOfLba(lba: nat)
    requires lba < TOTAL_SECTORS
    ensures LbaToChs(lba).Valid() && LbaToChs(lba).Position() == lba
  {
    assert lba / 36 == lba / 18 / 2;
  }

  /** LbaToChs is a bijection between 0..2879 and the valid addresses. */
  lemma ChsBijection(lba: nat, chs: Chs)
    requires lba < TOTAL_SECTORS
    requires chs.Valid()
    ensures LbaToChs(lba).Valid() && LbaToChs(lba).Position() == lba
    ensures 0 <= chs.Position() < TOTAL_SECTORS && LbaToChs(chs.Position()) == chs
  {
    PositionOfLba(lba);
    var p := chs.Position();
    assert p == 18 * (2 * chs.cylinder + chs.head) + (chs.sector - 1);
    assert p / 18 == 2 * chs.cylinder + chs.head;
    assert p / 36 == chs.cylinder;
  }

  /** The bytes of consecutive sectors, in order. */
  function Flatten(sectors: seq<Sector>): (b: seq<byte>)
    ensures |b| == 512 * |sectors|
  {
    if sectors == [] then [] else sectors[0] + Flatten(sectors[1..])
  }

  lemma {:induction false} FlattenAppend(a: seq<Sector>, b: seq<Sector>)
    ensures Flatten(a + b) == Flatten(a) + Flatten(b)
  {
    if a == [] {
      assert a + b == b;
    } else {
      assert (a + b)[1..] == a[1..] + b;
      FlattenAppend(a[1..], b);
    }
  }

  lemma {:induction false} FlattenSplit(sectors: seq<Sector>, i: nat, j: nat, k: nat)
    requires i <= j <= k <= |sectors|
    ensures Flatten(sectors[i..k]) == Flatten(sectors[i..j]) + Flatten(sectors[j..k])
  {
    FlattenAppend(sectors[i..j], sectors[j..k]);
    assert sectors[i..j] + sectors[j..k] == sectors[i..k];
  }

  /** One DMA read command: n sectors starting at `chs`, never past the end of
      the track, since the controller does not step the head by itself. */
  method Transfer(disk: array<Sector>, chs: Chs, n: nat) returns (dma: seq<byte>)
    requires disk.Length == TOTAL_SECTORS
    requires chs.Valid()
    requires 1 <= n && chs.sector + n - 1 <= SECTORS_PER_TRACK
    ensures chs.Position() >= 0 && chs.Position() + n <= TOTAL_SECTORS
    ensures dma == Flatten(disk[..][chs.Position()..chs.Position() + n])
  {
    dma := Flatten(disk[..][chs.Position()..chs.Position() + n]);
  }

  /** The byte loop that empties the DMA buffer into the caller's. */
  method CopyOut(dma: seq<byte>, buffer: array<byte>, at: nat)
    requires at + |dma| <= buffer.Length
    modifies buffer
    ensures buffer[..] == Splice(old(buffer[..]), at, dma)
  {
    var j := 0;
    while j < |dma|
      invariant j <= |dma|
      invariant buffer[..] == Splice(old(buffer[..]), at, dma[..j])
    {
      buffer[at + j] := dma[j];
      j := j + 1;
    }
    assert dma[..j] == dma;
  }

  /** One round of fdc_read_sectors' loop: as many of the wanted sectors as the
      rest of the track holds. */
  method ReadTrack(disk: array<Sector>, lba: nat, wanted: nat, buffer: array<byte>, at: nat)
    returns (n: nat)
    requires disk.Length == TOTAL_SECTORS
    requires 1 <= wanted && lba + wanted <= TOTAL_SECTORS
    requires at + 512 * wanted <= buffer.Length
    modifies buffer
    ensures 1 <= n <= wanted
    ensures n == wanted || (lba + n) % SECTORS_PER_TRACK == 0
    ensures buffer[..] == Splice(old(buffer[..]), at, Flatten(disk[..][lba..lba + n]))
  {
    var chs := LbaToChs(lba);
    PositionOfLba(lba);
    n := SECTORS_PER_TRACK - chs.sector + 1;
    if n > wanted { n := wanted; }
    var dma := Transfer(disk, chs, n);
    CopyOut(dma, buffer, at);
  }

  lemma {:induction false} ReadNothing(sectors: seq<Sector>, was: seq<byte>, lba: nat, off: nat)
    requires lba <= |sectors| && off <= |was|
    ensures Splice(was, off, Flatten(sectors[lba..lba + 0])) == was
  {
    assert Flatten(sectors[lba..lba]) == [];
  }

  lemma {:induction false} ReadSoFar(sectors: seq<Sector>, was: seq<byte>, now: seq<byte>, lba: nat, done: nat, n: nat,
          off: nat)
    requires lba + done + n <= |sectors| && off + 512 * (done + n) <= |was|
    requires now == Splice(Splice(was, off, Flatten(sectors[lba..lba + done])), off + 512 * done,
                           Flatten(sectors[lba + done..lba + done + n]))
    ensures now == Splice(was, off, Flatten(sectors[lba..lba + (done + n)]))
  {
    hide Flatten, Splice;
    FlattenSplit(sectors, lba, lba + done, lba + done + n);
    SpliceTwice(was, off, Flatten(sectors[lba..lba + done]), Flatten(sectors[lba + done..lba + done + n]));
  }

  /** fdc_read_sectors: splits the request at track boundaries. `off` is where
      the caller's pointer stands in its buffer. */
  method ReadSectors(disk: array<Sector>, lba: nat, count: nat, buffer: array<byte>, off: nat)
    requires disk.Length == TOTAL_SECTORS
    requires count < 0x100 && lba + count <= TOTAL_SECTORS
    requires off + 512 * count <= buffer.Length
    modifies buffer
    ensures buffer[..] == Splice(old(buffer[..]), off, Flatten(disk[..][lba..lba + count]))
  {
    hide Splice, Flatten;
    ghost var was, sectors := buffer[..], disk[..];
    ReadNothing(sectors, was, lba, off);
    var done := 0;
    while done < count
      invariant done <= count
      invariant buffer[..] == Splice(was, off, Flatten(sectors[lba..lba + done]))
    {
      var n := ReadTrack(disk, lba + done, count - done, buffer, off + 512 * done);
      ReadSoFar(sectors, was, buffer[..], lba, done, n, off);
      done := done + n;
    }
  }

  lemma {:induction false} NothingWritten(disk: seq<Sector>, lba: nat, buffer: seq<byte>)
    requires lba <= |disk|
    ensures Flatten(disk[lba..lba + 0]) == buffer[..SECTOR_SIZE * 0]
  {
  }

  lemma {:induction false} OneMoreWritten(was: seq<Sector>, lba: nat, i: nat, s: Sector)
    requires lba + i < |was|
    ensures Flatten(was[lba + i := s][lba..lba + (i + 1)]) == Flatten(was[lba..lba + i]) + s
  {
    var now := was[lba + i := s];
    FlattenSplit(now, lba, lba + i, lba + i + 1);
    assert now[lba..lba + i] == was[lba..lba + i];
    assert now[lba + i..lba + i + 1] == [s];
    assert Flatten([s]) == s + Flatten([]);
  }

  /** One round of fdc_write_sectors, and the whole of it for one sector, as the
      file system calls it. */
  method WriteSector(disk: array<Sector>, lba: nat, data: Sector)
    requires disk.Length == TOTAL_SECTORS
    requires lba < TOTAL_SECTORS
    modifies disk
    ensures disk[..] == old(disk[..])[lba := data]
  {
    var chs := LbaToChs(lba);
    PositionOfLba(lba);
    disk[chs.Position()] := data;
  }

  /** fdc_write_sectors: sector by sector, the head and cylinder found anew for each. */
  method WriteSectors(disk: array<Sector>, lba: nat, count: nat, buffer: seq<byte>)
    requires disk.Length == TOTAL_SECTORS
    requires count < 0x100 && lba + count <= TOTAL_SECTORS && SECTOR_SIZE * count <= |buffer|
    modifies disk
    ensures disk[..lba] == old(disk[..lba]) && disk[lba + count..] == old(disk[lba + count..])
    ensures Flatten(disk[..][lba..lba + count]) == buffer[..SECTOR_SIZE * count]
  {
    hide Flatten;
    ghost var was := disk[..];
    NothingWritten(was, lba, buffer);
    var i := 0;
    while i < count
      invariant i <= count
      invariant disk[..lba] == was[..lba] && disk[lba + i..] == was[lba + i..]
      invariant Flatten(disk[..][lba..lba + i]) == buffer[..SECTOR_SIZE * i]
    {
      var s: Sector := buffer[SECTOR_SIZE * i..SECTOR_SIZE * i + SECTOR_SIZE];
      OneMoreWritten(disk[..], lba, i, s);
      WriteSector(disk, lba + i, s);
      assert buffer[..SECTOR_SIZE * i] + s == buffer[..SECTOR_SIZE * (i + 1)];
      i := i + 1;
    }
  }
}
