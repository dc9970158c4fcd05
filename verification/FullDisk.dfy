/** What the write call does whatever stands in the FAT behind the last cluster, up
    to where find_free_cluster scans (src/fat12.c:88-96). On a formatted floppy it
    reads as free, so a full disk does not look full. */
module FullDisk {
  import opened Bytes
  import opened Collections
  import opened Floppy
  import opened FatTable
  import opened Directory
  import opened Volumes
  import opened VolumeInvariant
  import opened Files

  // ----- Volumes with any tail ------------------------------------------------------

  /** Volume.Sound without its clause on the entries behind the volume. */
  ghost predicate Rooted(v: Volume) {
    && v.End() <= |v.fat| <= SCAN_LIMIT
    && (forall c :: v.InVolume(c) ==> v.LinkOk(v.fat[c]))
    && (forall i :: 0 <= i < |v.dir| && v.dir[i][0] != NEVER_USED ==> v.Start(FirstCluster(v.dir[i])))
  }

  predicate TailFull(v: Volume) {
    forall c :: v.End() <= c < |v.fat| ==> v.fat[c] != FREE
  }

  /** The same volume with every entry behind it in use. */
  function Sealed(v: Volume): (s: Volume)
    ensures s.dir == v.dir && s.data == v.data
    ensures v.End() <= |v.fat| ==> |s.fat| == |v.fat| && s.fat[..v.End()] == v.fat[..v.End()]
  {
    if v.End() <= |v.fat| then v.(fat := v.fat[..v.End()] + seq(|v.fat| - v.End(), i => LAST)) else v
  }

  lemma {:induction false} SealedSound(v: Volume)
    requires Rooted(v)
    ensures Sealed(v).Sound()
  {
    forall c | v.InVolume(c) ensures Sealed(v).fat[c] == v.fat[c] {
      assert Sealed(v).fat[..v.End()][c] == v.fat[..v.End()][c];
    }
  }

  // ----- The code on such a volume -----------------------------------------------------

  /** fat12_write. A cluster behind the volume is a sector behind the disk: the
      transfer fails and the write stops. */
  function RawWriteChain(v: Volume, c: nat, data: seq<byte>): (r: (Volume, Ending))
    requires v.End() <= |v.fat| <= SCAN_LIMIT
    ensures r.0.SameShape(v) && r.0.dir == v.dir
    decreases |data|
  {
    if data == [] || !Follows(c) then (v, Finished(|data|))
    else if !v.InVolume(c) then (v, DiskFull)
    else
      var v1, next, rest := Put(v, c, data), v.fat[c], data[Min(SECTOR_SIZE, |data|)..];
      if rest != [] && (next >= END_OF_CHAIN || next == FREE) then
        var n := FirstFree(v.fat, FIRST_CLUSTER);
        if n == 0 then (v1, DiskFull)
        else RawWriteChain(v1.(fat := v1.fat[c := n][n := LAST]), n, rest)
      else RawWriteChain(v1, next, rest)
  }

  function RawCreate(v: Volume, name: Name): (r: Option<(Volume, nat)>)
    requires v.End() <= |v.fat| <= SCAN_LIMIT
    ensures r.Some? ==> r.value.0.SameShape(v)
  {
    match FreeSlot(v.dir, 0)
    case None => None
    case Some(i) =>
      var c := FirstFree(v.fat, FIRST_CLUSTER);
      if c == 0 then None
      else Some((v.(fat := v.fat[c := LAST], dir := v.dir[i := NewEntry(v.dir[i], name, c)]), c))
  }

  function RawWriteAndResize(v: Volume, first: nat, name: Name, data: seq<byte>): (Volume, nat)
    requires v.End() <= |v.fat| <= SCAN_LIMIT && |data| < U32
  {
    match RawWriteChain(v, first, data)
    case (v1, DiskFull) => (v1, 0)
    case (v1, Finished(rest)) =>
      if rest >= |data| || |data| - rest >= 0x8000_0000 then (v1, 0)
      else
        match UpdateSize(v1, name, |data| - rest)
        case None => (v1, 0)
        case Some(v2) => (v2, |data| - rest)
  }

  function RawWriteFile(v: Volume, name: Name, data: seq<byte>): (Volume, nat)
    requires v.End() <= |v.fat| <= SCAN_LIMIT && |data| < U32
  {
    match Lookup(v.dir, name, false, 0)
    case Some(i) => RawWriteAndResize(v, FirstCluster(v.dir[i]), name, data)
    case None =>
      match RawCreate(v, name)
      case None => (v, 0)
      case Some((v1, first)) => RawWriteAndResize(v1, first, name, data)
  }

  lemma {:induction false} RawIsWriteChain(v: Volume, c: nat, data: seq<byte>)
    requires v.Sound() && v.Start(c)
    ensures RawWriteChain(v, c, data) == WriteChain(v, c, data)
    decreases |data|
  {
    if data != [] && Follows(c) {
      var (v1, next) := WriteOne(v, c, data);
      if next.Some? { RawIsWriteChain(v1, next.value, data[Min(SECTOR_SIZE, |data|)..]); }
    }
  }

  /** Where the driver's assumptions hold, this is the write call that class Fat12
      computes. */
  lemma {:induction false} RawIsWriteFile(v: Volume, name: Name, data: seq<byte>)
    requires v.Sound() && |data| < U32
    ensures RawWriteFile(v, name, data) == WriteFile(v, name, data)
  {
    hide Lookup, WriteChain, RawWriteChain, FreeSlot, FirstFree;
    match Lookup(v.dir, name, false, 0)
    case Some(i) => RawIsWriteChain(v, FirstCluster(v.dir[i]), data);
    case None =>
      if Create(v, name).Some? {
        RawIsWriteChain(Create(v, name).value.0, Create(v, name).value.1, data);
      }
  }

  // ----- Chains ----------------------------------------------------------------------------

  /** With a free cluster in the volume both scans find it; without one, the scan
      of the code goes on behind the volume. */
  lemma {:induction false} ScansCompared(v: Volume)
    requires Rooted(v)
    ensures var s, r := FirstFree(Sealed(v).fat, FIRST_CLUSTER), FirstFree(v.fat, FIRST_CLUSTER);
            && (s != 0 ==> r == s && v.InVolume(s))
            && (s == 0 && TailFull(v) ==> r == 0)
            && (s == 0 && !TailFull(v) ==> v.End() <= r < |v.fat|)
  {
    var s, r := FirstFree(Sealed(v).fat, FIRST_CLUSTER), FirstFree(v.fat, FIRST_CLUSTER);
    forall c | 0 <= c < |v.fat| ensures Sealed(v).fat[c] == if c < v.End() then v.fat[c] else LAST {
      if c < v.End() { assert Sealed(v).fat[..v.End()][c] == v.fat[..v.End()][c]; }
    }
    if s != 0 { assert v.fat[s] == FREE; }
    if 0 < r < v.End() { assert Sealed(v).fat[r] == FREE; }
    if c :| v.End() <= c < |v.fat| && v.fat[c] == FREE { assert r != 0; }
  }

  lemma {:induction false} SealedPut(v: Volume, c: nat, data: seq<byte>)
    requires Rooted(v)
    ensures Rooted(Put(v, c, data)) && Sealed(Put(v, c, data)) == Put(Sealed(v), c, data)
    ensures TailFull(Put(v, c, data)) <==> TailFull(v)
    ensures Put(v, c, data).fat == v.fat && Put(v, c, data).SameShape(v)
  {
  }

  /** Cluster n linked behind cluster c. */
  function WithLink(v: Volume, c: nat, n: nat): Volume
    requires c < |v.fat| && n < |v.fat| && n < 0x1000
  {
    v.(fat := v.fat[c := n][n := LAST])
  }

  lemma {:induction false} SealedLink(v: Volume, c: nat, n: nat)
    requires Rooted(v) && v.InVolume(c) && v.InVolume(n)
    ensures n < 0x1000 && c < |v.fat| && n < |v.fat| && |Sealed(v).fat| == |v.fat|
    ensures Rooted(WithLink(v, c, n)) && (TailFull(WithLink(v, c, n)) <==> TailFull(v))
    ensures Sealed(WithLink(v, c, n)) == WithLink(Sealed(v), c, n)
  {
    var vb := WithLink(v, c, n);
    forall x | v.InVolume(x) ensures vb.LinkOk(vb.fat[x]) {
      assert v.LinkOk(v.fat[x]);
    }
    assert forall i :: 0 <= i < |v.dir| && v.dir[i][0] != NEVER_USED ==> v.Start(FirstCluster(v.dir[i]));
    assert forall x :: v.End() <= x < |v.fat| ==> vb.fat[x] == v.fat[x];
    assert Sealed(vb).fat == WithLink(Sealed(v), c, n).fat;
  }

  lemma {:induction false} RootedStart(v: Volume, c: nat)
    requires Rooted(v) && v.Start(c)
    ensures v.End() <= |v.fat| <= SCAN_LIMIT && Sealed(v).Start(c)
    ensures Follows(c) ==> v.InVolume(c) && v.Start(v.fat[c])
  {
    if Follows(c) { assert v.LinkOk(v.fat[c]); }
  }

  /** One round on the sealed volume, and the same round of the code. */
  lemma {:induction false} Rounds(v: Volume, c: nat, data: seq<byte>)
    requires Rooted(v) && Sealed(v).Sound() && Follows(c) && v.InVolume(c) && data != []
    ensures c < |v.fat| == |Sealed(v).fat| && Sealed(v).Start(c)
    ensures var sa, va := Put(Sealed(v), c, data), Put(v, c, data);
            var next, rest := v.fat[c], data[Min(SECTOR_SIZE, |data|)..];
            var s, r := FirstFree(Sealed(v).fat, FIRST_CLUSTER), FirstFree(v.fat, FIRST_CLUSTER);
            if rest != [] && (next >= END_OF_CHAIN || next == FREE) then
              && |sa.fat| == |va.fat| == |v.fat| && va.SameShape(v) && r < 0x1000 && s < 0x1000
              && RawWriteChain(v, c, data)
                 == (if r == 0 then (va, DiskFull) else RawWriteChain(WithLink(va, c, r), r, rest))
              && (s == 0 ==> WriteChain(Sealed(v), c, data) == (sa, DiskFull))
              && (s != 0 ==>
                    && WithLink(sa, c, s).Sound() && WithLink(sa, c, s).Start(s)
                    && WriteChain(Sealed(v), c, data) == WriteChain(WithLink(sa, c, s), s, rest))
            else
              && sa.Sound() && sa.Start(next) && v.End() <= |va.fat| <= SCAN_LIMIT && va.SameShape(v)
              && WriteChain(Sealed(v), c, data) == WriteChain(sa, next, rest)
              && RawWriteChain(v, c, data) == RawWriteChain(va, next, rest)
  {
    hide WriteChain, Block;
    assert Sealed(v).fat[..v.End()][c] == v.fat[..v.End()][c];
    WriteUnfolds(Sealed(v), c, data);
  }

  /** A link to a cluster behind the volume stays in the FAT. */
  lemma {:induction false} LinkedBehind(v: Volume, c: nat, n: nat, rest: seq<byte>)
    requires Rooted(v) && v.InVolume(c) && v.End() <= n < |v.fat| && rest != []
    requires v.fat[c] >= END_OF_CHAIN || v.fat[c] == FREE
    ensures n < 0x1000 && c < |v.fat|
    ensures RawWriteChain(WithLink(v, c, n), n, rest) == (WithLink(v, c, n), DiskFull)
    ensures Sealed(WithLink(v, c, n)) != Sealed(v)
  {
    var vb := WithLink(v, c, n);
    assert Sealed(vb).fat[..v.End()][c] == n && Sealed(v).fat[..v.End()][c] == v.fat[c];
  }

  /** What the code did (r) against what the sealed volume does (s): the same,
      unless the disk was full and the tail was not. */
  ghost predicate Agrees(s: (Volume, Ending), r: (Volume, Ending), full: bool) {
    if s.1.Finished? || full then Sealed(r.0) == s.0 && r.1 == s.1
    else Sealed(r.0) != s.0 && r.1 == DiskFull
  }

  lemma {:induction false} NothingToWrite(v: Volume, c: nat, data: seq<byte>)
    requires Rooted(v) && Sealed(v).Sound() && Sealed(v).Start(c) && (data == [] || !Follows(c))
    ensures v.End() <= |v.fat| <= SCAN_LIMIT
    ensures Agrees(WriteChain(Sealed(v), c, data), RawWriteChain(v, c, data), TailFull(v))
  {
  }

  lemma {:induction false} AgreesFull(s: Volume, r: Volume, full: bool)
    requires full <==> Sealed(r) == s
    ensures Agrees((s, DiskFull), (r, DiskFull), full)
  {
  }

  /** Writing a chain: the code does the same exactly when the write does not come
      to a full disk, or nothing behind the volume reads as free. */
  lemma {:induction false} ChainsCompared(v: Volume, c: nat, data: seq<byte>)
    requires Rooted(v) && Sealed(v).Sound() && v.Start(c)
    ensures Sealed(v).Start(c) && v.End() <= |v.fat| <= SCAN_LIMIT
    ensures Agrees(WriteChain(Sealed(v), c, data), RawWriteChain(v, c, data), TailFull(v))
    decreases |data|
  {
    hide Rooted, WriteChain, Put, Sealed, TailFull, RawWriteChain, Agrees, WithLink;
    RootedStart(v, c);
    if data == [] || !Follows(c) {
      NothingToWrite(v, c, data);
    } else {
      var va, rest := Put(v, c, data), data[Min(SECTOR_SIZE, |data|)..];
      Rounds(v, c, data);
      SealedPut(v, c, data);
      if rest != [] && (v.fat[c] >= END_OF_CHAIN || v.fat[c] == FREE) {
        ScansCompared(v);
        var r := FirstFree(v.fat, FIRST_CLUSTER);
        if FirstFree(Sealed(v).fat, FIRST_CLUSTER) != 0 {
          SealedLink(va, c, r);
          ChainsCompared(WithLink(va, c, r), r, rest);
        } else {
          if r != 0 { LinkedBehind(va, c, r, rest); }
          AgreesFull(Put(Sealed(v), c, data), if r == 0 then va else WithLink(va, c, r), TailFull(v));
        }
      } else {
        ChainsCompared(va, v.fat[c], rest);
      }
    }
  }

  // ----- The write system call -------------------------------------------------------------

  /** A chain write comes to its end exactly when the chain can grow that long. */
  lemma {:induction false} ChainRoom(v: Volume, l: Layout, i: int, data: seq<byte>)
    requires WellFormed(v, l) && i in l.chains && l.chains[i] != []
    requires v.Start(l.chains[i][0])
    ensures WriteChain(v, l.chains[i][0], data).1.Finished?
       <==> |data| <= SECTOR_SIZE * (|l.chains[i]| + |FreeSet(v)|)
    ensures WriteChain(v, l.chains[i][0], data).1.Finished? ==>
              WriteChain(v, l.chains[i][0], data).1 == Finished(0) && |data| < 0x8000_0000
  {
    hide Accounts, EndClosed, SlotsMatch, OnlyIn, Content, FreeSet, WriteChain, Volume.Sound;
    var (v1, end) := WriteChain(v, l.chains[i][0], data);
    var l1 := WriteKeeps(v, l, i, 0, data);
    assert l1.chains[i][0..] == l1.chains[i];
    ChainLength(v1, l1, i);
  }

  lemma {:induction false} SealedPatch(v: Volume, dir: seq<RawEntry>)
    ensures Sealed(v.(dir := dir)) == Sealed(v).(dir := dir)
  {
  }

  /** Whether the two write calls end in the same volume with the same result. */
  ghost predicate SameWrite(s: (Volume, nat), r: (Volume, nat)) {
    Sealed(r.0) == s.0 && r.1 == s.1
  }

  /** Recording the size keeps an agreement and a difference. */
  lemma {:induction false} ResizeCompared(v: Volume, first: nat, name: Name, data: seq<byte>)
    requires Rooted(v) && Sealed(v).Sound() && v.Start(first) && 0 < |data| < U32
    ensures Sealed(v).Start(first) && v.End() <= |v.fat| <= SCAN_LIMIT
    ensures SameWrite(WriteAndResize(Sealed(v), first, name, data), RawWriteAndResize(v, first, name, data))
       <==> WriteChain(Sealed(v), first, data).1.Finished? || TailFull(v)
  {
    hide Rooted, WriteChain, RawWriteChain, TailFull, Sealed, Lookup;
    ChainsCompared(v, first, data);
    var (r1, f) := RawWriteChain(v, first, data);
    match f
    case DiskFull =>
    case Finished(rest) =>
      if rest < |data| && Lookup(r1.dir, name, true, 0).Some? {
        var i := Lookup(r1.dir, name, true, 0).value;
        SealedPatch(r1, r1.dir[i := WithSize(r1.dir[i], |data| - rest)]);
      }
  }

  lemma {:induction false} SealedCreate(v: Volume, slot: nat, c: nat, name: Name)
    requires Rooted(v) && slot < |v.dir| && v.InVolume(c)
    ensures c < 0x1000 && c < |v.fat| == |Sealed(v).fat|
    ensures var e := NewEntry(v.dir[slot], name, c);
            var va := v.(fat := v.fat[c := LAST], dir := v.dir[slot := e]);
            && Rooted(va) && (TailFull(va) <==> TailFull(v))
            && Sealed(va) == Sealed(v).(fat := Sealed(v).fat[c := LAST], dir := v.dir[slot := e])
  {
    var e := NewEntry(v.dir[slot], name, c);
    var va := v.(fat := v.fat[c := LAST], dir := v.dir[slot := e]);
    assert forall x :: v.InVolume(x) ==> va.LinkOk(v.fat[x]);
    assert forall x :: v.End() <= x < |v.fat| ==> va.fat[x] == v.fat[x];
    assert Sealed(va).fat == Sealed(v).fat[c := LAST];
  }

  lemma {:induction false} CreateCompared(v: Volume, name: Name)
    requires Rooted(v) && Sealed(v).Sound() && FreeSlot(v.dir, 0).Some?
    ensures v.End() <= |v.fat| <= SCAN_LIMIT
    ensures var s, r := Create(Sealed(v), name), RawCreate(v, name);
            if s.Some? then
              && r.Some? && r.value.1 == s.value.1 && Sealed(r.value.0) == s.value.0
              && Rooted(r.value.0) && r.value.0.Start(r.value.1) && (TailFull(r.value.0) <==> TailFull(v))
            else (r.None? <==> TailFull(v)) && (r.Some? ==> r.value.1 >= v.End())
  {
    ScansCompared(v);
    if Create(Sealed(v), name).Some? {
      SealedCreate(v, FreeSlot(v.dir, 0).value, FirstFree(v.fat, FIRST_CLUSTER), name);
    }
  }

  /** The slot for a name that open does not find bears another one. */
  lemma {:induction false} OtherName(dir: seq<RawEntry>, name: Name, from: nat)
    requires from <= |dir| && name[0] != NEVER_USED && Lookup(dir, name, false, from) == None
    ensures var slot := FreeSlot(dir, from); slot.Some? ==> NameOf(dir[slot.value]) != name
    decreases |dir| - from
  {
    if from < |dir| {
      assert NameOf(dir[from])[0] == dir[from][0];
      if Live(dir[from]) { OtherName(dir, name, from + 1); }
    }
  }

  /** A file that got a cluster behind the volume has an entry all the same. */
  lemma {:induction false} CreatedBehind(v: Volume, name: Name, data: seq<byte>)
    requires v.End() <= |v.fat| <= SCAN_LIMIT && name[0] != NEVER_USED && 0 < |data| < U32
    requires Lookup(v.dir, name, false, 0) == None
    requires RawCreate(v, name).Some? && RawCreate(v, name).value.1 >= v.End()
    ensures var (va, c) := RawCreate(v, name).value;
            && va.End() <= |va.fat| <= SCAN_LIMIT
            && RawWriteAndResize(va, c, name, data) == (va, 0) && va.dir != v.dir
  {
    var (va, c) := RawCreate(v, name).value;
    OtherName(v.dir, name, 0);
    assert NameOf(va.dir[FreeSlot(v.dir, 0).value]) == name;
    assert RawWriteChain(va, c, data) == (va, DiskFull);
  }

  /** The write call looks for a free cluster and there is none. */
  predicate FillsDisk(v: Volume, name: Name, data: seq<byte>)
    requires v.Sound()
  {
    match Lookup(v.dir, name, false, 0)
    case Some(i) => WriteChain(v, FirstCluster(v.dir[i]), data).1 == DiskFull
    case None =>
      FreeSlot(v.dir, 0).Some? &&
      match Create(v, name)
      case None => true
      case Some((v1, first)) => WriteChain(v1, first, data).1 == DiskFull
  }

  lemma {:induction false} SealedDir(v: Volume)
    requires Rooted(v)
    ensures Sealed(v).dir == v.dir && Sealed(v).Sound() && v.End() <= |v.fat| <= SCAN_LIMIT
  {
    SealedSound(v);
  }

  lemma {:induction false} NewCompared(v: Volume, name: Name, data: seq<byte>)
    requires Rooted(v) && Sealed(v).Sound() && name[0] != NEVER_USED && 0 < |data| < U32
    requires Lookup(v.dir, name, false, 0) == None && FreeSlot(v.dir, 0).Some?
    ensures v.End() <= |v.fat| <= SCAN_LIMIT
    ensures SameWrite(WriteFile(Sealed(v), name, data), RawWriteFile(v, name, data))
       <==> !FillsDisk(Sealed(v), name, data) || TailFull(v)
  {
    hide WriteChain, RawWriteChain, WriteAndResize, RawWriteAndResize, TailFull, Rooted, Volume.Sound, Create,
         RawCreate;
    SealedDir(v);
    CreateCompared(v, name);
    var s := Create(Sealed(v), name);
    if s.Some? {
      ResizeCompared(RawCreate(v, name).value.0, s.value.1, name, data);
    } else if !TailFull(v) {
      CreatedBehind(v, name, data);
    }
  }

  /** The write call of the code does what WriteFile does, whatever stands in the
      FAT behind the volume, exactly when it does not come to a full disk, or
      nothing behind the volume reads as free. */
  lemma {:induction false} FullDiskTheorem(v: Volume, name: Name, data: seq<byte>)
    requires Rooted(v) && name[0] != NEVER_USED && 0 < |data| < U32
    ensures v.End() <= |v.fat| <= SCAN_LIMIT && Sealed(v).Sound()
    ensures SameWrite(WriteFile(Sealed(v), name, data), RawWriteFile(v, name, data))
       <==> !FillsDisk(Sealed(v), name, data) || TailFull(v)
  {
    hide WriteChain, RawWriteChain, TailFull, Sealed, Volume.Sound, WriteAndResize, RawWriteAndResize;
    SealedDir(v);
    match Lookup(v.dir, name, false, 0)
    case Some(i) => ResizeCompared(v, FirstCluster(v.dir[i]), name, data);
    case None => if FreeSlot(v.dir, 0).Some? { NewCompared(v, name, data); }
  }

  // ----- Full disks ------------------------------------------------------------------------

  /** Neither a file with a chain nor a slot for a new one. */
  predicate NoPlace(v: Volume, name: Name) {
    match Lookup(v.dir, name, true, 0)
    case Some(i) => !Follows(FirstCluster(v.dir[i]))
    case None => FreeSlot(v.dir, 0) == None
  }

  lemma {:induction false} FillsExisting(v: Volume, l: Layout, name: Name, data: seq<byte>, i: nat)
    requires WellFormed(v, l) && 0 < |data| < U32 && Lookup(v.dir, name, true, 0) == Some(i)
    ensures v.Start(FirstCluster(v.dir[i]))
    ensures WriteChain(v, FirstCluster(v.dir[i]), data).1 == DiskFull
       <==> |data| > Room(v, l, name) && Follows(FirstCluster(v.dir[i]))
  {
    hide WriteChain, FreeSet, Accounts, EndClosed, Lookup;
    SlotChain(v, l, i);
    if i in l.chains {
      ChainRoom(v, l, i, data);
    } else {
      WriteUnfolds(v, FirstCluster(v.dir[i]), data);
    }
  }

  lemma {:induction false} FillsNew(v: Volume, l: Layout, name: Name, data: seq<byte>)
    requires WellFormed(v, l) && Usable(name) && 0 < |data| < U32
    requires Lookup(v.dir, name, true, 0) == None && FreeSlot(v.dir, 0).Some?
    ensures Create(v, name).None? ==> Room(v, l, name) == 0
    ensures Create(v, name).Some? ==>
      var (v1, first) := Create(v, name).value;
      WriteChain(v1, first, data).1 == DiskFull <==> |data| > Room(v, l, name)
  {
    hide WriteChain, FreeSet, Accounts, EndClosed, Lookup;
    FirstFreeUnowned(v, l);
    if Create(v, name).Some? {
      var (v1, first) := Create(v, name).value;
      var slot := FreeSlot(v.dir, 0).value;
      CreateKeeps(v, l, name);
      CreatedEntry(v, l, name);
      FillsExisting(v1, Grown(l, slot, first), name, data, slot);
    }
  }

  /** On a well-formed volume that is so exactly when the bytes do not fit. */
  lemma {:induction false} FillsDiskExact(v: Volume, l: Layout, name: Name, data: seq<byte>)
    requires WellFormed(v, l) && Usable(name) && 0 < |data| < U32
    ensures FillsDisk(v, name, data) <==> |data| > Room(v, l, name) && !NoPlace(v, name)
  {
    hide WriteChain, FreeSet, Accounts, EndClosed, Create;
    SameLookup(v.dir, name, 0);
    match Lookup(v.dir, name, true, 0)
    case Some(i) => FillsExisting(v, l, name, data, i);
    case None => if FreeSlot(v.dir, 0).Some? { FillsNew(v, l, name, data); }
  }
}
