/** The file system calls for every name, and runs of them. A name that begins
    with the deletion mark is accepted by the driver like any other; here is what
    it does. */
module FileRuns {
  import opened Bytes
  import opened Collections
  import opened Floppy
  import opened FatTable
  import opened Directory
  import opened Volumes
  import opened VolumeInvariant
  import opened Files
  import opened StrayWrites

  // ----- Creating ---------------------------------------------------------------

  lemma {:induction false} LookupStopsAt(dir: seq<RawEntry>, name: Name, from: nat, slot: nat)
    requires name[0] == DELETED && from <= slot < |dir| && NameOf(dir[slot]) == name
    requires forall i :: from <= i < slot ==> Live(dir[i])
    ensures Lookup(dir, name, false, from) == Some(slot) && FreeSlot(dir, from) == Some(slot)
    decreases slot - from
  {
    assert NameOf(dir[slot])[0] == dir[slot][0];
    if from < slot {
      assert NameOf(dir[from])[0] == dir[from][0];
      LookupStopsAt(dir, name, from + 1, slot);
    }
  }

  /** A file created under a name that begins with the deletion mark looks
      deleted: fat12_open finds it, update_size and delete do not, the next
      create takes its slot, and no chain owns its cluster. */
  lemma {:induction false} CreateLosesCluster(v: Volume, l: Layout, name: Name)
    requires WellFormed(v, l) && name[0] == DELETED && Create(v, name).Some?
    ensures var (v1, c) := Create(v, name).value;
            && Lookup(v1.dir, name, false, 0) == FreeSlot(v.dir, 0) == FreeSlot(v1.dir, 0)
            && Lookup(v1.dir, name, true, 0) == None
            && c !in l.lost && WellFormed(v1, Lost(l, {c}))
  {
    var (v1, c) := Create(v, name).value;
    var slot := FreeSlot(v.dir, 0).value;
    LookupStopsAt(v1.dir, name, 0, slot);
    MarkedNameNotFound(v1.dir, name, 0);
    CreateKeeps(v, l, name);
  }

  // ----- Writing ------------------------------------------------------------------

  /** A write under a marked name reports 0, whatever it has written. */
  lemma {:induction false} MarkedWrite(v: Volume, name: Name, data: seq<byte>)
    requires v.Sound() && name[0] == DELETED && |data| < U32
    ensures var (v1, n) := WriteFile(v, name, data);
            n == 0 &&
            match Lookup(v.dir, name, false, 0)
            case Some(i) => v.Start(FirstCluster(v.dir[i])) && v1 == WriteChain(v, FirstCluster(v.dir[i]), data).0
            case None =>
              if Create(v, name).None? then v1 == v
              else var (va, c) := Create(v, name).value; va.Start(c) && v1 == WriteChain(va, c, data).0
  {
    match Lookup(v.dir, name, false, 0)
    case Some(i) => MarkedNameNotFound(WriteChain(v, FirstCluster(v.dir[i]), data).0.dir, name, 0);
    case None =>
      if Create(v, name).Some? {
        var (va, c) := Create(v, name).value;
        MarkedNameNotFound(WriteChain(va, c, data).0.dir, name, 0);
      }
  }

  lemma {:induction false} MarkedWriteKeeps(v: Volume, l: Layout, name: Name, data: seq<byte>) returns (l1: Layout)
    requires WellFormed(v, l) && name[0] == DELETED && |data| < U32
    ensures WellFormed(WriteFile(v, name, data).0, l1) && Spread(l, l1)
  {
    hide Accounts, SlotsMatch, EndClosed, WriteFile, WriteChain, Create, Volume.Sound;
    MarkedWrite(v, name, data);
    match Lookup(v.dir, name, false, 0)
    case Some(i) => l1 := WriteAnywhereKeeps(v, l, FirstCluster(v.dir[i]), data);
    case None =>
      l1 := l;
      if Create(v, name).Some? {
        var (va, c) := Create(v, name).value;
        CreateKeeps(v, l, name);
        l1 := WriteAnywhereKeeps(va, Lost(l, {c}), c, data);
      }
  }

  /** SYSCALL_WRITE_FILE, for every name a file name converts to. */
  lemma {:induction false} WriteFileTheorem(v: Volume, l: Layout, name: Name, data: seq<byte>) returns (l1: Layout)
    requires WellFormed(v, l) && name[0] != NEVER_USED && 0 < |data| < U32
    ensures var (v1, n) := WriteFile(v, name, data);
            if name[0] == DELETED then n == 0 && WellFormed(v1, l1) && Spread(l, l1)
            else WriteOutcome(v, l, name, data, v1, n, l1)
  {
    if name[0] == DELETED {
      MarkedWrite(v, name, data);
      l1 := MarkedWriteKeeps(v, l, name, data);
    } else {
      l1 := WriteUsable(v, l, name, data);
    }
  }

  /** Within 4 GiB a write under this name gets to a cluster of some file. */
  ghost predicate ReachesFile(v: Volume, l: Layout, name: Name) {
    match Lookup(v.dir, name, false, 0)
    case None => false
    case Some(i) => exists m: nat :: SECTOR_SIZE * m + 1 < U32 && Hits(v.fat, l, FirstCluster(v.dir[i]), m)
  }

  lemma BlocksDiffer()
    ensures Block([0]) != Block([1])
  {
    assert Block([0])[0] == 0 && Block([1])[0] == 1;
  }

  /** The directory after a write under a marked name. */
  function MarkedDir(v: Volume, name: Name): seq<RawEntry>
    requires v.Sound()
  {
    if Lookup(v.dir, name, false, 0) == None && Create(v, name).Some? then Create(v, name).value.0.dir else v.dir
  }

  lemma {:induction false} NothingTouched(l: Layout, data: seq<Sector>)
    ensures Intact(l, data, data)
  {
  }

  lemma {:induction false} CreatedUnowned(v: Volume, l: Layout, name: Name)
    requires WellFormed(v, l) && name[0] == DELETED && Create(v, name).Some?
    ensures var (va, c) := Create(v, name).value;
            && c < |va.fat| && va.fat[c] == LAST && va.data == v.data && !OnChain(l, c)
            && WellFormed(va, Lost(l, {c}))
  {
    CreateKeeps(v, l, name);
    assert !Owned(l, Create(v, name).value.1);
  }

  lemma {:induction false} MarkedWriteHarmless(v: Volume, l: Layout, name: Name, data: seq<byte>) returns (l1: Layout)
    requires WellFormed(v, l) && name[0] == DELETED && |data| < U32 && !ReachesFile(v, l, name)
    ensures var v1 := WriteFile(v, name, data).0;
            WellFormed(v1, l1) && l1.chains == l.chains && v1.dir == MarkedDir(v, name) && Intact(l, v.data, v1.data)
  {
    hide Accounts, SlotsMatch, EndClosed, WriteFile, WriteChain, Volume.Sound, OnChain, Hits, Intact;
    l1 := l;
    MarkedWrite(v, name, data);
    match Lookup(v.dir, name, false, 0)
    case Some(i) => l1 := StrayWriteHarmless(v, l, FirstCluster(v.dir[i]), data);
    case None =>
      if Create(v, name).None? {
        NothingTouched(l, v.data);
      } else {
        var (va, c) := Create(v, name).value;
        CreatedUnowned(v, l, name);
        NewClusterHitsNothing(va.fat, l, Lost(l, {c}), c);
        l1 := StrayWriteHarmless(va, Lost(l, {c}), c, data);
        SameChainsIntact(l, Lost(l, {c}), va.data, WriteChain(va, c, data).0.data);
      }
  }

  /** A marked name is safe to write to exactly when no row answers to it, or the
      links from that row's cluster lead to no file. */
  lemma {:induction false} MarkedWriteIntact(v: Volume, l: Layout, name: Name)
    requires WellFormed(v, l) && name[0] == DELETED
    ensures (forall data: seq<byte> :: |data| < U32 ==> Intact(l, v.data, WriteFile(v, name, data).0.data))
       <==> !ReachesFile(v, l, name)
  {
    if ReachesFile(v, l, name) {
      var c := FirstCluster(v.dir[Lookup(v.dir, name, false, 0).value]);
      var m: nat :| SECTOR_SIZE * m + 1 < U32 && Hits(v.fat, l, c, m);
      var x := Along(v.fat, c, m);
      var b: byte := if Cluster(v.data, x) == Block([0]) then 1 else 0;
      BlocksDiffer();
      StrayWriteHits(v, l, c, m, b);
      MarkedWrite(v, name, Reaching(m, b));
      assert !Intact(l, v.data, WriteFile(v, name, Reaching(m, b)).0.data);
    } else {
      forall data: seq<byte> | |data| < U32 ensures Intact(l, v.data, WriteFile(v, name, data).0.data) {
        var l1 := MarkedWriteHarmless(v, l, name, data);
      }
    }
  }

  lemma {:induction false} IntactUntouched(v: Volume, l: Layout, v1: Volume, l1: Layout, k: nat)
    requires l1.chains == l.chains && Intact(l, v.data, v1.data)
    requires k < |v.dir| && (Live(v.dir[k]) ==> k < |v1.dir| && v1.dir[k] == v.dir[k])
    ensures Untouched(v, l, v1, l1, k)
  {
    if k in l.chains {
      forall c | c in l.chains[k] ensures Cluster(v1.data, c) == Cluster(v.data, c) {
        assert OnChain(l, c);
      }
      ContentFrame(v.data, v1.data, l.chains[k]);
    }
  }

  /** A slot that starts to look deleted changes no lookup of another name. */
  lemma {:induction false} LookupAfterMark(dir: seq<RawEntry>, slot: nat, e: RawEntry, name: Name, from: nat)
    requires EndClosed(dir) && from <= slot < |dir| && !Live(dir[slot]) && e[0] == DELETED
    ensures Lookup(dir[slot := e], name, true, from) == Lookup(dir, name, true, from)
    decreases slot - from
  {
    if from < slot {
      LookupAfterMark(dir, slot, e, name, from + 1);
    } else {
      LookupAfterPatchBefore(dir, e, slot, name, from + 1);
    }
  }

  lemma {:induction false} MarkedRows(v: Volume, l: Layout, name: Name, other: Name)
    requires WellFormed(v, l) && name[0] == DELETED
    ensures var dir1 := MarkedDir(v, name);
            && Lookup(dir1, other, true, 0) == Lookup(v.dir, other, true, 0)
            && forall i :: 0 <= i < |v.dir| && Live(v.dir[i]) ==> i < |dir1| && dir1[i] == v.dir[i]
  {
    if Create(v, name).Some? {
      var slot, c := FreeSlot(v.dir, 0).value, Create(v, name).value.1;
      var e := NewEntry(v.dir[slot], name, c);
      assert NameOf(e)[0] == e[0];
      LookupAfterMark(v.dir, slot, e, other, 0);
    }
  }

  lemma {:induction false} MarkedWriteOthers(v: Volume, l: Layout, name: Name, data: seq<byte>, other: Name, room: nat)
    requires WellFormed(v, l) && name[0] == DELETED && 0 < |data| < U32 && Usable(other) && !ReachesFile(v, l, name)
    ensures ReadFile(WriteFile(v, name, data).0, other, room) == ReadFile(v, other, room)
  {
    hide WriteFile, WriteChain, Volume.Sound, ReachesFile, OnChain, Intact;
    var v1 := WriteFile(v, name, data).0;
    var l1 := MarkedWriteHarmless(v, l, name, data);
    MarkedRows(v, l, name, other);
    var r := Lookup(v.dir, other, true, 0);
    if r.Some? { IntactUntouched(v, l, v1, l1, r.value); }
    ReadsSame(v, l, v1, l1, other, room);
  }

  /** Every other name that is not marked reads as before the write, also when the
      write stops on a full disk; a marked name must not reach a file's cluster. */
  lemma {:induction false} WriteOthers(v: Volume, l: Layout, name: Name, data: seq<byte>, other: Name, room: nat)
    requires WellFormed(v, l) && name[0] != NEVER_USED && 0 < |data| < U32 && other != name && Usable(other)
    requires name[0] == DELETED ==> !ReachesFile(v, l, name)
    ensures ReadFile(WriteFile(v, name, data).0, other, room) == ReadFile(v, other, room)
  {
    if name[0] != DELETED {
      WriteUsableOthers(v, l, name, data, other, room);
    } else {
      MarkedWriteOthers(v, l, name, data, other, room);
    }
  }

  // ----- Deleting -------------------------------------------------------------------

  /** The second of two files created under one name survives a delete. */
  lemma {:induction false} DuplicateSurvives(v: Volume, l: Layout, name: Name, room: nat)
    requires WellFormed(v, l) && Usable(name)
    requires Create(v, name).Some? && Create(Create(v, name).value.0, name).Some?
    ensures var v2 := Create(Create(v, name).value.0, name).value.0;
            Delete(v2, name).Some? && ReadFile(Delete(v2, name).value, name, room) != None
  {
    var (v1, c) := Create(v, name).value;
    var (v2, d) := Create(v1, name).value;
    var s, t := FreeSlot(v.dir, 0).value, FreeSlot(v1.dir, 0).value;
    CreateKeeps(v, l, name);
    CreateKeeps(v1, Grown(l, s, c), name);
    assert NameOf(v1.dir[s])[0] == v1.dir[s][0] && NameOf(v2.dir[t])[0] == v2.dir[t][0];
    assert s != t && Live(v2.dir[s]) && Live(v2.dir[t]) && NameOf(v2.dir[s]) == NameOf(v2.dir[t]) == name;
    if Lookup(v2.dir, name, true, 0) == None { NotFound(v2.dir, name, 0, s); }
    DeleteRemoves(v2, Grown(Grown(l, s, c), t, d), name, room);
  }

  // ----- Runs -------------------------------------------------------------------

  datatype Op = CreateFile(name: Name) | WriteBytes(name: Name, bytes: seq<byte>) | DeleteFile(name: Name)

  /** File names never convert to a name that begins with a null byte, and sizes
      are 32-bit numbers. */
  predicate Legal(op: Op) {
    && op.name[0] != NEVER_USED
    && (op.WriteBytes? ==> |op.bytes| < U32)
  }

  function Apply(v: Volume, op: Op): (r: Volume)
    requires v.Sound() && Legal(op)
    ensures r.Sound() && r.SameShape(v)
  {
    match op
    case CreateFile(name) => if Create(v, name).Some? then Create(v, name).value.0 else v
    case WriteBytes(name, bytes) => WriteFile(v, name, bytes).0
    case DeleteFile(name) => if Delete(v, name).Some? then Delete(v, name).value else v
  }

  function Run(v: Volume, ops: seq<Op>): (r: Volume)
    requires v.Sound() && forall i :: 0 <= i < |ops| ==> Legal(ops[i])
    ensures r.Sound() && r.SameShape(v)
    decreases |ops|
  {
    if ops == [] then v else Run(Apply(v, ops[0]), ops[1..])
  }

  /** Writing no bytes may still create the file, and returns 0. */
  lemma {:induction false} WriteNothing(v: Volume, l: Layout, name: Name) returns (l1: Layout)
    requires WellFormed(v, l) && name[0] != NEVER_USED
    ensures var (v1, n) := WriteFile(v, name, []);
            n == 0 && WellFormed(v1, l1) && l.lost <= l1.lost && (name[0] != DELETED ==> l1.lost == l.lost)
  {
    l1 := l;
    if Lookup(v.dir, name, false, 0) == None && Create(v, name).Some? {
      CreateKeeps(v, l, name);
      l1 := Created(l, name, FreeSlot(v.dir, 0).value, Create(v, name).value.1);
    }
  }

  lemma {:induction false} StepKeeps(v: Volume, l: Layout, op: Op) returns (l1: Layout)
    requires WellFormed(v, l) && Legal(op)
    ensures WellFormed(Apply(v, op), l1) && l.lost <= l1.lost && (op.name[0] != DELETED ==> l1.lost == l.lost)
  {
    l1 := l;
    match op
    case CreateFile(name) =>
      if Create(v, name).Some? {
        CreateKeeps(v, l, name);
        l1 := Created(l, name, FreeSlot(v.dir, 0).value, Create(v, name).value.1);
      }
    case WriteBytes(name, bytes) =>
      if bytes == [] {
        l1 := WriteNothing(v, l, name);
      } else {
        l1 := WriteFileTheorem(v, l, name, bytes);
      }
    case DeleteFile(name) =>
      if Delete(v, name).Some? {
        DeleteKeeps(v, l, name);
        l1 := Dropped(l, Lookup(v.dir, name, true, 0).value);
      }
  }

  /** Every run of creates, writes and deletes, including writes that stop on
      a full disk, keeps all chains finite, in range, ended and disjoint, and
      invents no cluster; without marked names it loses none, either. */
  lemma {:induction false} RunsKeep(v: Volume, l: Layout, ops: seq<Op>) returns (l1: Layout)
    requires WellFormed(v, l) && forall i :: 0 <= i < |ops| ==> Legal(ops[i])
    ensures var v1 := Run(v, ops);
            && WellFormed(v1, l1) && l.lost <= l1.lost
            && ((forall i :: 0 <= i < |ops| ==> ops[i].name[0] != DELETED) ==> l1.lost == l.lost)
            && |FreeSet(v1)| + TotalLength(l1.chains.Keys, l1.chains) + |l1.lost| == |v.data|
    decreases |ops|
  {
    if ops == [] {
      l1 := l;
      ClustersConserved(v, l);
    } else {
      var lb := StepKeeps(v, l, ops[0]);
      l1 := RunsKeep(Apply(v, ops[0]), lb, ops[1..]);
    }
  }
}
