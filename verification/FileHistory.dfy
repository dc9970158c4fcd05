/** What runs of the file system calls mean for the contents of files, from a
    formatted volume on. */
module FileHistory {
  import opened Bytes
  import opened Collections
  import opened Floppy
  import opened FatTable
  import opened Directory
  import opened Volumes
  import opened VolumeInvariant
  import opened Files
  import opened StrayWrites
  import opened FileRuns

  // ----- The formatted volume -----------------------------------------------------

  /** Every cluster is free and every row has never been used. */
  ghost predicate Formatted(v: Volume) {
    && v.End() <= |v.fat| <= SCAN_LIMIT
    && (forall c :: v.InVolume(c) ==> v.fat[c] == FREE)
    && (forall c :: v.End() <= c < |v.fat| ==> v.fat[c] != FREE)
    && (forall i :: 0 <= i < |v.dir| ==> v.dir[i][0] == NEVER_USED)
  }

  lemma {:induction false} FormattedKeeps(v: Volume)
    requires Formatted(v)
    ensures WellFormed(v, Layout(map[], {}))
  {
  }

  // ----- Files that a run does not mention ----------------------------------------

  lemma {:induction false} MarkedSlot(v: Volume, name: Name, other: Name)
    requires v.Sound() && EndClosed(v.dir) && name[0] == DELETED && Create(v, name).Some?
    ensures var dir1 := Create(v, name).value.0.dir;
            && Lookup(dir1, other, true, 0) == Lookup(v.dir, other, true, 0)
            && forall i :: 0 <= i < |v.dir| && Live(v.dir[i]) ==> i < |dir1| && dir1[i] == v.dir[i]
  {
    var slot, c := FreeSlot(v.dir, 0).value, Create(v, name).value.1;
    var e := NewEntry(v.dir[slot], name, c);
    assert NameOf(e)[0] == e[0];
    LookupAfterMark(v.dir, slot, e, other, 0);
  }

  lemma {:induction false} SameFile(v: Volume, l: Layout, v1: Volume, k: nat)
    requires v1.data == v.data && k < |v.dir| && (Live(v.dir[k]) ==> k < |v1.dir| && v1.dir[k] == v.dir[k])
    ensures forall lost :: Untouched(v, l, v1, Lost(l, lost), k)
  {
  }

  lemma {:induction false} CreateOthers(v: Volume, l: Layout, name: Name, other: Name, room: nat)
    requires WellFormed(v, l) && name[0] != NEVER_USED && Create(v, name).Some? && other != name && Usable(other)
    ensures ReadFile(Create(v, name).value.0, other, room) == ReadFile(v, other, room)
  {
    hide Volume.Sound, IsChain, Accounts;
    var (v1, c) := Create(v, name).value;
    var slot := FreeSlot(v.dir, 0).value;
    var r := Lookup(v.dir, other, true, 0);
    CreateKeeps(v, l, name);
    if name[0] == DELETED {
      MarkedSlot(v, name, other);
      if r.Some? { SameFile(v, l, v1, r.value); }
      ReadsSame(v, l, v1, Lost(l, {c}), other, room);
    } else {
      CreatedEntry(v, l, name);
      if r.Some? { assert r.value != slot; }
      ReadsSame(v, l, v1, Grown(l, slot, c), other, room);
    }
  }

  lemma {:induction false} NothingWrittenTo(v: Volume, name: Name)
    requires v.Sound()
    ensures WriteFile(v, name, []).1 == 0
    ensures WriteFile(v, name, []).0 == v
         || (Create(v, name).Some? && WriteFile(v, name, []).0 == Create(v, name).value.0)
  {
  }

  lemma {:induction false} StepLeaves(v: Volume, l: Layout, op: Op, other: Name, room: nat)
    requires WellFormed(v, l) && Legal(op) && Usable(other) && op.name != other
    requires op.WriteBytes? ==> op.name[0] != DELETED
    ensures ReadFile(Apply(v, op), other, room) == ReadFile(v, other, room)
  {
    hide Volume.Sound, Accounts, SlotsMatch, EndClosed, Create, WriteFile, Delete, ReadFile;
    match op
    case CreateFile(name) => if Create(v, name).Some? { CreateOthers(v, l, name, other, room); }
    case WriteBytes(name, bytes) =>
      if bytes == [] {
        NothingWrittenTo(v, name);
        if Create(v, name).Some? { CreateOthers(v, l, name, other, room); }
      } else {
        WriteUsableOthers(v, l, name, bytes, other, room);
      }
    case DeleteFile(name) => if Delete(v, name).Some? { DeleteOthers(v, l, name, other, room); }
  }

  lemma {:induction false} SoundIfWellFormed(v: Volume, l: Layout)
    requires WellFormed(v, l)
    ensures v.Sound()
  {
  }

  /** A name that no call of a run mentions reads after the run as before it, as
      long as nothing is written to names that begin with the deletion mark. */
  lemma {:induction false} RunLeaves(v: Volume, l: Layout, ops: seq<Op>, other: Name, room: nat)
    requires WellFormed(v, l) && Usable(other)
    requires forall i :: 0 <= i < |ops| ==> Legal(ops[i]) && ops[i].name != other
    requires forall i :: 0 <= i < |ops| && ops[i].WriteBytes? ==> ops[i].name[0] != DELETED
    ensures ReadFile(Run(v, ops), other, room) == ReadFile(v, other, room)
    decreases |ops|
  {
    if ops != [] {
      hide Apply, WellFormed, Volume.Sound, ReadFile;
      var l1 := StepKeeps(v, l, ops[0]);
      StepLeaves(v, l, ops[0], other, room);
      SoundIfWellFormed(v, l);
      RunLeaves(Apply(v, ops[0]), l1, ops[1..], other, room);
    }
  }

  lemma {:induction false} RunSplits(v: Volume, a: seq<Op>, b: seq<Op>)
    requires v.Sound() && (forall i :: 0 <= i < |a| ==> Legal(a[i])) && (forall i :: 0 <= i < |b| ==> Legal(b[i]))
    ensures Run(v, a + b) == Run(Run(v, a), b)
    decreases |a|
  {
    if a == [] {
      assert a + b == b;
    } else {
      assert (a + b)[1..] == a[1..] + b;
      RunSplits(Apply(v, a[0]), a[1..], b);
    }
  }

  lemma {:induction false} Succeeded(v: Volume, l: Layout, name: Name, data: seq<byte>) returns (l1: Layout)
    requires WellFormed(v, l) && name[0] != NEVER_USED && |data| < U32 && WriteFile(v, name, data).1 > 0
    ensures var v1 := WriteFile(v, name, data).0; WellFormed(v1, l1) && ReadsAs(v1, name, data)
  {
    hide Volume.Sound, Accounts, SlotsMatch, EndClosed, WriteFile;
    NothingWrittenTo(v, name);
    l1 := WriteFileTheorem(v, l, name, data);
  }

  lemma {:induction false} OneWrite(v: Volume, name: Name, data: seq<byte>)
    requires v.Sound() && name[0] != NEVER_USED && |data| < U32
    ensures Run(v, [WriteBytes(name, data)]) == WriteFile(v, name, data).0
  {
    assert Run(Apply(v, WriteBytes(name, data)), []) == Apply(v, WriteBytes(name, data));
  }

  /** The last successful write to a name is what it reads as, until the name is
      created, written or deleted again. */
  lemma {:induction false} LastWriteReads(v: Volume, l: Layout, before: seq<Op>, name: Name, data: seq<byte>,
          after: seq<Op>)
    requires WellFormed(v, l) && name[0] != NEVER_USED && |data| < U32
    requires forall i :: 0 <= i < |before| ==> Legal(before[i])
    requires WriteFile(Run(v, before), name, data).1 > 0
    requires forall i :: 0 <= i < |after| ==> Legal(after[i]) && after[i].name != name
    requires forall i :: 0 <= i < |after| && after[i].WriteBytes? ==> after[i].name[0] != DELETED
    ensures var write := [WriteBytes(name, data)];
            (forall i :: 0 <= i < |before + write + after| ==> Legal((before + write + after)[i])) &&
            ReadsAs(Run(v, before + write + after), name, data)
  {
    hide WellFormed, Volume.Sound, WriteFile, ReadFile, Apply, WriteChain;
    var write := [WriteBytes(name, data)];
    SoundIfWellFormed(v, l);
    var v1 := Run(v, before);
    var l1 := RunsKeep(v, l, before);
    var l2 := Succeeded(v1, l1, name, data);
    var v2 := WriteFile(v1, name, data).0;
    SoundIfWellFormed(v2, l2);
    RunSplits(v, before + write, after);
    RunSplits(v, before, write);
    OneWrite(v1, name, data);
    forall room: nat ensures ReadFile(Run(v2, after), name, room) == Some(data[..Min(|data|, room)]) {
      RunLeaves(v2, l2, after, name, room);
    }
  }

  // ----- A deleted row that points into another file ----------------------------------

  /** Rows 0 and 1 after two files were created and deleted. */
  function StaleRows(dir: seq<RawEntry>, a: Name, b: Name): (r: seq<RawEntry>)
    requires |dir| >= 2
    ensures |r| == |dir| && forall i :: 2 <= i < |dir| ==> r[i] == dir[i]
    ensures NameOf(r[0]) == a[0 := DELETED] && NameOf(r[1]) == b[0 := DELETED] && FirstCluster(r[1]) == 3
  {
    dir[0 := AsDeleted(NewEntry(dir[0], a, 2))][1 := AsDeleted(NewEntry(dir[1], b, 3))]
  }

  lemma {:induction false} TwoOps(v: Volume, x: Op, y: Op)
    requires v.Sound() && Legal(x) && Legal(y)
    ensures Run(v, [x, y]) == Apply(Apply(v, x), y)
  {
    assert [x, y][1..] == [y] && [y][1..] == [];
    assert Run(Apply(v, x), [y]) == Run(Apply(Apply(v, x), y), []);
  }

  lemma {:induction false} OneClusterFreed(fat: seq<Entry>, end: nat, c: nat)
    requires LinksOk(fat, end) && FIRST_CLUSTER <= c < end && Follows(c) && fat[c] >= END_OF_CHAIN
    ensures FreeChain(fat, end, c) == fat[c := FREE]
  {
  }

  lemma {:induction false} TwoCreates(v: Volume, a: Name, b: Name)
    requires Formatted(v) && |v.data| >= 2 && |v.dir| >= 2 && Usable(a) && Usable(b)
    ensures v.Sound() && |v.fat| > 3
    ensures var e0, e1 := NewEntry(v.dir[0], a, 2), NewEntry(v.dir[1], b, 3);
            Run(v, [CreateFile(a), CreateFile(b)])
            == v.(fat := v.fat[2 := LAST][3 := LAST], dir := v.dir[0 := e0][1 := e1])
  {
    var e0 := NewEntry(v.dir[0], a, 2);
    var v1 := v.(fat := v.fat[2 := LAST], dir := v.dir[0 := e0]);
    assert v.InVolume(2) && v.InVolume(3);
    assert FirstFree(v.fat, FIRST_CLUSTER) == 2 && FreeSlot(v.dir, 0) == Some(0);
    assert Create(v, a) == Some((v1, 2));
    assert NameOf(e0)[0] == e0[0] && Live(v1.dir[0]);
    assert FirstFree(v1.fat, FIRST_CLUSTER) == 3 by { assert v1.fat[3] == FREE; }
    assert FreeSlot(v1.dir, 0) == Some(1) by { assert v1.dir[1] == v.dir[1]; }
    TwoOps(v, CreateFile(a), CreateFile(b));
  }

  lemma {:induction false} OneDelete(v: Volume, name: Name, i: nat, c: nat)
    requires v.Sound() && Lookup(v.dir, name, true, 0) == Some(i) && FirstCluster(v.dir[i]) == c
    requires v.InVolume(c) && Follows(c) && v.fat[c] >= END_OF_CHAIN
    ensures Delete(v, name) == Some(v.(fat := v.fat[c := FREE], dir := v.dir[i := AsDeleted(v.dir[i])]))
  {
    OneClusterFreed(v.fat, v.End(), c);
  }

  lemma {:induction false} TwoDeletes(v: Volume, v2: Volume, a: Name, b: Name)
    requires Formatted(v) && |v.data| >= 2 && |v.dir| >= 2 && Usable(a) && Usable(b) && v2.Sound() && |v.fat| > 3
    requires var e0, e1 := NewEntry(v.dir[0], a, 2), NewEntry(v.dir[1], b, 3);
             v2 == v.(fat := v.fat[2 := LAST][3 := LAST], dir := v.dir[0 := e0][1 := e1])
    ensures Run(v2, [DeleteFile(a), DeleteFile(b)]) == v.(dir := StaleRows(v.dir, a, b))
  {
    hide Volume.Sound, NewEntry;
    var e0, e1 := NewEntry(v.dir[0], a, 2), NewEntry(v.dir[1], b, 3);
    TwoOps(v2, DeleteFile(a), DeleteFile(b));
    assert NameOf(e0)[0] == e0[0] && NameOf(e1)[0] == e1[0];
    assert Lookup(v2.dir, a, true, 0) == Some(0);
    OneDelete(v2, a, 0, 2);
    var v3 := v2.(fat := v2.fat[2 := FREE], dir := v2.dir[0 := AsDeleted(e0)]);
    assert Delete(v2, a) == Some(v3);
    assert v3.dir[0][0] == DELETED && v3.dir[1] == e1;
    assert Lookup(v3.dir, b, true, 0) == Lookup(v3.dir, b, true, 1) == Some(1);
    OneDelete(v3, b, 1, 3);
    assert v3.fat[3 := FREE] == v.fat;
    assert v3.dir[1 := AsDeleted(e1)] == StaleRows(v.dir, a, b);
  }

  lemma {:induction false} TwoClustersWritten(v: Volume, data: seq<byte>)
    requires v.Sound() && |v.data| >= 2 && SECTOR_SIZE < |data| <= 2 * SECTOR_SIZE
    requires v.fat[2] == LAST && v.fat[3] == FREE
    ensures WriteChain(v, 2, data) ==
      (v.(fat := v.fat[2 := 3][3 := LAST], data := v.data[0 := Block(data)][1 := Block(data[SECTOR_SIZE..])]),
       Finished(0))
  {
    hide WriteChain, Block;
    var v1 := v.(fat := v.fat[2 := 3][3 := LAST], data := v.data[0 := Block(data)]);
    assert v.InVolume(2) && v.InVolume(3);
    assert FirstFree(v.fat, FIRST_CLUSTER) == 3;
    WriteUnfolds(v, 2, data);
    assert WriteOne(v, 2, data) == (v1, Some(3));
    WriteUnfolds(v1, 3, data[SECTOR_SIZE..]);
    var v2 := v1.(data := v1.data[1 := Block(data[SECTOR_SIZE..])]);
    assert WriteOne(v1, 3, data[SECTOR_SIZE..]) == (v2, Some(LAST));
    WriteUnfolds(v2, LAST, []);
    var rest := data[SECTOR_SIZE..];
    assert rest[Min(SECTOR_SIZE, |rest|)..] == [];
  }

  /** The directory after file c took row 0. */
  function Reused(dir: seq<RawEntry>, c: Name, size: nat): (r: seq<RawEntry>)
    requires |dir| >= 2 && size < U32
    ensures |r| == |dir| && r[1..] == dir[1..] && NameOf(r[0]) == c && SizeOf(r[0]) == size && FirstCluster(r[0]) == 2
  {
    WithSizeKeeps(NewEntry(dir[0], c, 2), size);
    dir[0 := WithSize(NewEntry(dir[0], c, 2), size)]
  }

  lemma {:induction false} NewName(dir: seq<RawEntry>, c: Name)
    requires |dir| >= 2 && Usable(c) && dir[0][0] == DELETED && dir[1][0] == DELETED
    requires forall i :: 2 <= i < |dir| ==> dir[i][0] == NEVER_USED
    ensures Lookup(dir, c, false, 0) == None && FreeSlot(dir, 0) == Some(0)
  {
    assert NameOf(dir[0])[0] == DELETED && NameOf(dir[1])[0] == DELETED;
    assert Lookup(dir, c, false, 2) == None;
    assert Lookup(dir, c, false, 1) == None;
  }

  lemma {:induction false} FirstClusters(v: Volume)
    requires v.Sound() && |v.data| >= 2 && forall x :: v.InVolume(x) ==> v.fat[x] == FREE
    ensures |v.fat| > 3 && v.fat[3] == FREE && FirstFree(v.fat, FIRST_CLUSTER) == 2
  {
    assert v.InVolume(2) && v.InVolume(3);
  }

  lemma {:induction false} WriteReuses(v: Volume, c: Name, data: seq<byte>)
    requires v.Sound() && |v.data| >= 2 && |v.dir| >= 2 && Usable(c) && SECTOR_SIZE < |data| <= 2 * SECTOR_SIZE
    requires (forall x :: v.InVolume(x) ==> v.fat[x] == FREE) && v.dir[0][0] == DELETED && v.dir[1][0] == DELETED
    requires forall i :: 2 <= i < |v.dir| ==> v.dir[i][0] == NEVER_USED
    ensures WriteFile(v, c, data).0 ==
      Volume(v.fat[2 := 3][3 := LAST], Reused(v.dir, c, |data|),
             v.data[0 := Block(data)][1 := Block(data[SECTOR_SIZE..])])
  {
    hide Block, WriteChain, Volume.Sound;
    NewName(v.dir, c);
    assert v.InVolume(2) && v.InVolume(3);
    FirstClusters(v);
    var e := NewEntry(v.dir[0], c, 2);
    assert NameOf(e)[0] == e[0];
    var (v1, first) := Create(v, c).value;
    assert v1 == v.(fat := v.fat[2 := LAST], dir := v.dir[0 := e]) && first == 2;
    TwoClustersWritten(v1, data);
    assert Lookup(v1.dir, c, true, 0) == Some(0);
    assert v1.fat[2 := 3][3 := LAST] == v.fat[2 := 3][3 := LAST];
  }

  /** Files a and b are created and deleted, then c is written and takes both their
      clusters. */
  function StaleRun(a: Name, b: Name, c: Name, data: seq<byte>): (ops: seq<Op>)
    requires Usable(a) && Usable(b) && Usable(c) && |data| < U32
    ensures forall i :: 0 <= i < |ops| ==> Legal(ops[i])
  {
    [CreateFile(a), CreateFile(b)] + [DeleteFile(a), DeleteFile(b)] + [WriteBytes(c, data)]
  }

  function AfterStaleRun(v: Volume, a: Name, b: Name, c: Name, data: seq<byte>): Volume
    requires |v.fat| > 3 && |v.dir| >= 2 && |v.data| >= 2 && SECTOR_SIZE < |data| <= 2 * SECTOR_SIZE
  {
    Volume(v.fat[2 := 3][3 := LAST], Reused(StaleRows(v.dir, a, b), c, |data|),
           v.data[0 := Block(data)][1 := Block(data[SECTOR_SIZE..])])
  }

  lemma {:induction false} StaleRunEnds(v: Volume, a: Name, b: Name, c: Name, data: seq<byte>)
    requires Formatted(v) && |v.data| >= 2 && |v.dir| >= 2 && Usable(a) && Usable(b) && Usable(c)
    requires SECTOR_SIZE < |data| <= 2 * SECTOR_SIZE
    ensures v.Sound() && |v.fat| > 3 && Run(v, StaleRun(a, b, c, data)) == AfterStaleRun(v, a, b, c, data)
  {
    hide Volume.Sound, WriteFile, Apply, NewEntry, Reused;
    var creates, deletes := [CreateFile(a), CreateFile(b)], [DeleteFile(a), DeleteFile(b)];
    var write := [WriteBytes(c, data)];
    TwoCreates(v, a, b);
    var v2 := Run(v, creates);
    TwoDeletes(v, v2, a, b);
    var v4 := Run(v2, deletes);
    RunSplits(v, creates + deletes, write);
    RunSplits(v, creates, deletes);
    OneWrite(v4, c, data);
    assert NameOf(v4.dir[0])[0] == v4.dir[0][0] && NameOf(v4.dir[1])[0] == v4.dir[1][0];
    WriteReuses(v4, c, data);
  }

  /** Row 0 is file c with clusters 2 and 3, and row 1 a deleted one with cluster 3. */
  ghost predicate Overlap(v: Volume, c: Name, marked: Name, size: nat) {
    && v.Sound() && |v.data| >= 2 && |v.dir| >= 2 && |v.fat| > 3 && SECTOR_SIZE < size <= 2 * SECTOR_SIZE
    && Usable(c) && marked[0] == DELETED && v.fat[2] == 3 && v.fat[3] == LAST
    && NameOf(v.dir[0]) == c && FirstCluster(v.dir[0]) == 2 && SizeOf(v.dir[0]) == size
    && NameOf(v.dir[1]) == marked && FirstCluster(v.dir[1]) == 3
  }

  lemma {:induction false} OverlapLookups(v: Volume, c: Name, marked: Name, size: nat)
    requires Overlap(v, c, marked, size)
    ensures Lookup(v.dir, c, false, 0) == Some(0) && Lookup(v.dir, marked, false, 0) == Some(1) && Live(v.dir[0])
  {
    assert NameOf(v.dir[0])[0] == v.dir[0][0] && NameOf(v.dir[1])[0] == v.dir[1][0];
    assert Lookup(v.dir, marked, false, 1) == Some(1);
  }

  lemma {:induction false} OverlapReaches(v: Volume, l: Layout, c: Name, marked: Name, size: nat)
    requires WellFormed(v, l) && Overlap(v, c, marked, size)
    ensures ReachesFile(v, l, marked)
  {
    OverlapLookups(v, c, marked, size);
    assert HasChain(v.dir, 0) && IsChain(v.fat, v.End(), l.chains[0]);
    assert l.chains[0][0] == 2 && l.chains[0][1] == 3;
    assert OnChain(l, 3);
    assert Hits(v.fat, l, 3, 0);
  }

  lemma {:induction false} OverlapReads(v: Volume, c: Name, marked: Name, size: nat)
    requires Overlap(v, c, marked, size)
    ensures ReadFile(v, c, size) == Some(v.data[0] + v.data[1][..size - SECTOR_SIZE])
  {
    hide Walk;
    OverlapLookups(v, c, marked, size);
    assert v.InVolume(2) && v.InVolume(3);
    WalkStep(v, 2, size);
    WalkStep(v, 3, size - SECTOR_SIZE);
  }

  lemma {:induction false} OverlapWrite(v: Volume, c: Name, marked: Name, size: nat, x: byte)
    requires Overlap(v, c, marked, size)
    ensures WriteFile(v, marked, [x]).0 == v.(data := v.data[1 := Block([x])])
    ensures Overlap(v.(data := v.data[1 := Block([x])]), c, marked, size)
  {
    hide WriteFile, WriteChain, Block;
    OverlapLookups(v, c, marked, size);
    assert v.InVolume(3);
    MarkedWrite(v, marked, [x]);
    var v1 := v.(data := v.data[1 := Block([x])]);
    WriteUnfolds(v, 3, [x]);
    assert WriteOne(v, 3, [x]) == (v1, Some(LAST));
    WriteUnfolds(v1, LAST, []);
    assert [x][1..] == [];
  }

  lemma {:induction false} BlocksOf(data: seq<byte>, x: byte)
    requires SECTOR_SIZE < |data| <= 2 * SECTOR_SIZE && x != data[SECTOR_SIZE]
    ensures Block(data) + Block(data[SECTOR_SIZE..])[..|data| - SECTOR_SIZE] == data
    ensures Block([x])[..|data| - SECTOR_SIZE] != data[SECTOR_SIZE..]
  {
    assert Block([x])[..|data| - SECTOR_SIZE][0] == x && data[SECTOR_SIZE..][0] == data[SECTOR_SIZE];
    assert Block(data) == data[..SECTOR_SIZE];
    assert Block(data[SECTOR_SIZE..])[..|data| - SECTOR_SIZE] == data[SECTOR_SIZE..];
  }

  lemma {:induction false} StaleRunOverlaps(v: Volume, a: Name, b: Name, c: Name, data: seq<byte>)
    requires Formatted(v) && |v.data| >= 2 && |v.dir| >= 2 && Usable(a) && Usable(b) && Usable(c)
    requires SECTOR_SIZE < |data| <= 2 * SECTOR_SIZE
    ensures v.Sound()
    ensures var v1 := Run(v, StaleRun(a, b, c, data));
            && Overlap(v1, c, b[0 := DELETED], |data|)
            && v1.data[0] == Block(data) && v1.data[1] == Block(data[SECTOR_SIZE..])
  {
    hide Volume.Sound, Run;
    StaleRunEnds(v, a, b, c, data);
    var dir := StaleRows(v.dir, a, b);
    assert Reused(dir, c, |data|)[1..][0] == dir[1..][0];
  }

  lemma {:induction false} Apart(head: seq<byte>, s: seq<byte>, t: seq<byte>)
    requires s != t
    ensures head + s != head + t
  {
    assert (head + s)[|head|..] == s && (head + t)[|head|..] == t;
  }

  /** Writing one byte under b's name with the deletion mark then changes file c. */
  lemma {:induction false} StaleRowDamages(v: Volume, a: Name, b: Name, c: Name, data: seq<byte>,
          x: byte) returns (l: Layout)
    requires Formatted(v) && |v.data| >= 2 && |v.dir| >= 2 && Usable(a) && Usable(b) && Usable(c)
    requires SECTOR_SIZE < |data| <= 2 * SECTOR_SIZE && x != data[SECTOR_SIZE]
    ensures v.Sound()
    ensures var v1, marked := Run(v, StaleRun(a, b, c, data)), b[0 := DELETED];
            && WellFormed(v1, l) && ReachesFile(v1, l, marked)
            && ReadFile(v1, c, |data|) == Some(data)
            && ReadFile(WriteFile(v1, marked, [x]).0, c, |data|) != Some(data)
  {
    hide Volume.Sound, WriteFile, ReadFile, Block, Accounts, SlotsMatch, Overlap, Run, ReachesFile;
    FormattedKeeps(v);
    StaleRunOverlaps(v, a, b, c, data);
    l := RunsKeep(v, Layout(map[], {}), StaleRun(a, b, c, data));
    var v1, marked := Run(v, StaleRun(a, b, c, data)), b[0 := DELETED];
    OverlapReaches(v1, l, c, marked, |data|);
    OverlapReads(v1, c, marked, |data|);
    OverlapWrite(v1, c, marked, |data|, x);
    OverlapReads(v1.(data := v1.data[1 := Block([x])]), c, marked, |data|);
    BlocksOf(data, x);
    var head: seq<byte>, tail, other: seq<byte> :=
      Block(data), data[SECTOR_SIZE..], Block([x])[..|data| - SECTOR_SIZE];
    Apart(head, tail, other);
  }
}
