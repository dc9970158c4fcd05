/** The in-memory FAT (src/fat12.c:54-96): 12-bit entries packed two to three
    bytes, seen as a plain sequence of 12-bit numbers. */
module FatTable {
  import opened Bytes

  type Entry = e: int | 0 <= e < 0x1000

  const FREE: Entry := 0
  const FIRST_CLUSTER := 2
  /** Links from here up end a chain. */
  const END_OF_CHAIN := 0xFF8
  /** What the driver stores to end a chain. */
  const LAST: Entry := 0xFFF

  /** get_fat_entry: the 16-bit word holding the entry, shifted or masked. */
  function Get(buffer: seq<byte>, cluster: nat): Entry
    requires cluster + cluster / 2 + 1 < |buffer|
  {
    var word := Le16(buffer, cluster + cluster / 2);
    if cluster % 2 == 1 then word / 0x10 else word % 0x1000
  }

  /** The first n entries. */
  function Entries(buffer: seq<byte>, n: nat): (fat: seq<Entry>)
    requires n > 0 ==> n - 1 + (n - 1) / 2 + 1 < |buffer|
  {
    seq(n, cluster requires 0 <= cluster < n => Get(buffer, cluster))
  }

  /** Two entries share three bytes: the even one has the first and the low half of
      the second, the odd one the high half of the second and the third. */
  lemma {:induction false} Packed(buffer: seq<byte>, k: nat)
    requires 3 * k + 2 < |buffer|
    ensures var b0: int, b1: int, b2: int := buffer[3 * k], buffer[3 * k + 1], buffer[3 * k + 2];
            && Get(buffer, 2 * k) == b0 + 0x100 * (b1 % 0x10)
            && Get(buffer, 2 * k + 1) == b1 / 0x10 + 0x10 * b2
  {
    var b0: int, b1: int := buffer[3 * k], buffer[3 * k + 1];
    assert b0 + 0x100 * b1 == 0x1000 * (b1 / 0x10) + (b0 + 0x100 * (b1 % 0x10));
  }

  /** set_fat_entry replaces the word that holds the entry, keeping the four
      bits that belong to a neighbour. */
  function PatchedWord(word: nat, cluster: nat, value: nat): (w: nat)
    requires word < U16
    ensures w < U16
  {
    if cluster % 2 == 1
    then word % 0x10 + value * 0x10 % U16
    else word / 0x1000 * 0x1000 + value % 0x1000
  }

  /** The arithmetic of Get and PatchedWord is that of the masks and shifts. */
  lemma WordArithmetic(word: bv16, value: bv16)
    ensures word & 0x0FFF == word % 0x1000
    ensures word >> 4 == word / 0x10
    ensures (word & 0x000F) | (value << 4) == word % 0x10 + value * 0x10
    ensures (word & 0xF000) | (value & 0x0FFF) == word / 0x1000 * 0x1000 + value % 0x1000
  {
  }

  lemma ShiftedWord(value: nat)
    requires value < U16
    ensures value * 0x10 % U16 == value % 0x1000 * 0x10
  {
    var q, y := value / 0x1000, value % 0x1000;
    assert value * 0x10 == q * U16 + y * 0x10;
  }

  lemma Nibbles(w: nat)
    ensures w % 0x100 % 0x10 == w % 0x10
    ensures w / 0x100 / 0x10 == w / 0x1000
  {
  }

  /** What the two bytes of a patched word say to the entry itself and to the
      neighbour that owns the other four bits. */
  lemma PatchedBytes(word: nat, cluster: nat, value: nat)
    requires word < U16 && value < U16
    ensures var w := PatchedWord(word, cluster, value);
            if cluster % 2 == 1
            then w / 0x10 == value % 0x1000 && w % 0x100 % 0x10 == word % 0x100 % 0x10
            else w % 0x1000 == value % 0x1000 && w / 0x100 / 0x10 == word / 0x100 / 0x10
  {
    var w := PatchedWord(word, cluster, value);
    var y := value % 0x1000;
    if cluster % 2 == 1 {
      ShiftedWord(value);
      assert w == word % 0x10 + y * 0x10;
      Nibbles(w);
      Nibbles(word);
    } else {
      assert w == word / 0x1000 * 0x1000 + y;
      assert w / 0x1000 == word / 0x1000;
      Nibbles(w);
      Nibbles(word);
    }
  }

  lemma LowTwelve(l: int, h: int)
    requires 0 <= l < 0x100
    ensures (l + 0x100 * h) % 0x1000 == l + 0x100 * (h % 0x10)
  {
    assert l + 0x100 * h == 0x1000 * (h / 0x10) + (l + 0x100 * (h % 0x10));
  }

  lemma {:induction false} SharedHigh(low: byte, was: byte, now: byte)
    requires was % 0x10 == now % 0x10
    ensures Le16([low, was], 0) % 0x1000 == Le16([low, now], 0) % 0x1000
  {
    LowTwelve(low, was);
    LowTwelve(low, now);
  }

  lemma {:induction false} SharedLow(was: byte, now: byte, high: byte)
    requires was / 0x10 == now / 0x10
    ensures Le16([was, high], 0) / 0x10 == Le16([now, high], 0) / 0x10
  {
  }

  lemma {:induction false} PatchReads(was: seq<byte>, now: seq<byte>, cluster: nat, value: nat, c: nat)
    requires value < U16
    requires cluster + cluster / 2 + 1 < |was| && c + c / 2 + 1 < |was|
    requires var at := cluster + cluster / 2;
             var word := PatchedWord(Le16(was, at), cluster, value);
             now == was[at := word % 0x100][at + 1 := word / 0x100]
    ensures Get(now, c) == if c == cluster then value % 0x1000 else Get(was, c)
  {
    var at := cluster + cluster / 2;
    var word := Le16(was, at);
    PatchedBytes(word, cluster, value);
    var a: int, b: int := was[at], was[at + 1];
    assert word % 0x100 == a && word / 0x100 == b;
    if c == cluster {
      assert Le16(now, at) == PatchedWord(word, cluster, value);
    } else if c == cluster - 1 && cluster % 2 == 1 {
      SharedHigh(was[c + c / 2], was[at], now[at]);
    } else if c == cluster + 1 && cluster % 2 == 0 {
      SharedLow(was[at + 1], now[at + 1], was[at + 2]);
    } else {
      assert c + c / 2 + 1 < at || at + 1 < c + c / 2;
    }
  }

  /** set_fat_entry. The packed table is a 12-bit array: one entry takes the
      low 12 bits of the value and every other entry keeps its own. */
  method Set(buffer: array<byte>, cluster: nat, value: nat, ghost n: nat)
    requires value < U16
    requires cluster < n && n - 1 + (n - 1) / 2 + 1 < buffer.Length
    modifies buffer
    ensures Entries(buffer[..], n) == old(Entries(buffer[..], n))[cluster := value % 0x1000]
    ensures forall i | 0 <= i < buffer.Length && i != cluster + cluster / 2 && i != cluster + cluster / 2 + 1 ::
      buffer[i] == old(buffer[i])
  {
    var at := cluster + cluster / 2;
    var word := PatchedWord(Le16(buffer[..], at), cluster, value);
    ghost var was := buffer[..];
    buffer[at], buffer[at + 1] := word % 0x100, word / 0x100;
    forall c | 0 <= c < n
      ensures Get(buffer[..], c) == if c == cluster then value % 0x1000 else Get(was, c)
    {
      PatchReads(was, buffer[..], cluster, value, c);
    }
  }

  /** The least free entry from `from` up, or 0: what the scan looks for. */
  function FirstFree(fat: seq<Entry>, from: nat): (c: nat)
    requires from > 0
    ensures c == 0 || (from <= c < |fat| && fat[c] == FREE)
    ensures forall i | from <= i < |fat| && (c == 0 || i < c) :: fat[i] != FREE
    decreases |fat| - from
  {
    if from >= |fat| then 0
    else if fat[from] == FREE then from
    else FirstFree(fat, from + 1)
  }

  /** find_free_cluster, with the source's scan bound 0xFF0 as a parameter. */
  method FindFreeCluster(buffer: array<byte>, scanEnd: nat) returns (cluster: nat)
    requires scanEnd > 0 && scanEnd - 1 + (scanEnd - 1) / 2 + 1 < buffer.Length
    ensures cluster == FirstFree(Entries(buffer[..], scanEnd), FIRST_CLUSTER)
  {
    ghost var fat := Entries(buffer[..], scanEnd);
    cluster := FIRST_CLUSTER;
    while cluster < scanEnd
      invariant FIRST_CLUSTER <= cluster
      invariant FirstFree(fat, FIRST_CLUSTER) == FirstFree(fat, cluster)
    {
      if Get(buffer[..], cluster) == FREE { return; }
      cluster := cluster + 1;
    }
    return 0;
  }

  /** A scan that runs past the volume's last cluster finds the same cluster as
      one that stops there exactly when the volume still has a free cluster or
      nothing beyond it reads as free. */
  lemma {:induction false} ScanStaysInVolume(fat: seq<Entry>, clusterEnd: nat)
    requires FIRST_CLUSTER <= clusterEnd <= |fat|
    ensures FirstFree(fat, FIRST_CLUSTER) == FirstFree(fat[..clusterEnd], FIRST_CLUSTER)
       <==> ((exists c :: FIRST_CLUSTER <= c < clusterEnd && fat[c] == FREE)
          || (forall c :: clusterEnd <= c < |fat| ==> fat[c] != FREE))
  {
    var whole, part := FirstFree(fat, FIRST_CLUSTER), FirstFree(fat[..clusterEnd], FIRST_CLUSTER);
    if c :| FIRST_CLUSTER <= c < clusterEnd && fat[c] == FREE {
      assert fat[..clusterEnd][c] == FREE;
    }
    if part != 0 {
      assert fat[part] == FREE;
    }
    if 0 < whole < clusterEnd {
      assert fat[..clusterEnd][whole] == FREE;
    }
  }

  /** A formatted floppy has zero entries beyond its last cluster: once every
      cluster is in use, the driver is handed the one behind the last. */
  lemma {:induction false} FullVolumeOverruns(fat: seq<Entry>, clusterEnd: nat)
    requires FIRST_CLUSTER <= clusterEnd < |fat|
    requires forall c :: FIRST_CLUSTER <= c < clusterEnd ==> fat[c] != FREE
    requires forall c :: clusterEnd <= c < |fat| ==> fat[c] == FREE
    ensures FirstFree(fat, FIRST_CLUSTER) == clusterEnd && FirstFree(fat[..clusterEnd], FIRST_CLUSTER) == 0
  {
    var n := FirstFree(fat, FIRST_CLUSTER);
    assert fat[clusterEnd] == FREE;
  }
}
