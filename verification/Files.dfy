/** What the volume operations mean for files: reading back what was written,
    leaving every other file alone, and keeping the invariant over all runs. */
module Files {
  import opened Bytes
  import opened Collections
  import opened Floppy
  import opened FatTable
  import opened Directory
  import opened Volumes
  import opened VolumeInvariant

  // ----- Contents ---------------------------------------------------------

  function Cluster(data: seq<Sector>, c: int): Sector {
    if FIRST_CLUSTER <= c < |data| + FIRST_CLUSTER then data[c - FIRST_CLUSTER] else Block([])
  }

  function Content(data: seq<Sector>, cs: seq<nat>): (bytes: seq<byte>)
    ensures |bytes| == SECTOR_SIZE * |cs|
  {
    if cs == [] then [] else Cluster(data, cs[0]) + Content(data, cs[1..])
  }

  lemma {:induction false} ContentStep(data: seq<Sector>, cs: seq<nat>, i: nat)
    requires i < |cs|
    ensures Content(data, cs[i..]) == Cluster(data, cs[i]) + Content(data, cs[i + 1..])
  {
    assert cs[i..][1..] == cs[i + 1..];
  }

  lemma {:induction false} ContentFrame(data: seq<Sector>, data1: seq<Sector>, cs: seq<nat>)
    requires forall c :: c in cs ==> Cluster(data1, c) == Cluster(data, c)
    ensures Content(data1, cs) == Content(data, cs)
  {
    if cs != [] {
      ContentFrame(data, data1, cs[1..]);
    }
  }

  /** Following the links from a cluster of a chain reads the rest of the
      chain, in order and no further. */
  lemma {:induction false} WalkReadsChain(v: Volume, cs: seq<nat>, i: nat, size: nat)
    requires v.Sound() && IsChain(v.fat, v.End(), cs) && i < |cs|
    ensures Walk(v, cs[i], size) == Content(v.data, cs[i..])[..Min(size, SECTOR_SIZE * (|cs| - i))]
    decreases |cs| - i
  {
    ContentStep(v.data, cs, i);
    var k := Min(SECTOR_SIZE, size);
    if size > 0 {
      if i + 1 < |cs| {
        WalkReadsChain(v, cs, i + 1, size - k);
      } else {
        assert Walk(v, v.fat[cs[i]], size - k) == [];
      }
    }
  }

  // ----- Writing a chain --------------------------------------------------

  /** Between `before` and `after` only the clusters cs changed. */
  ghost predicate OnlyIn(cs: seq<nat>, before: seq<Sector>, after: seq<Sector>) {
    |after| == |before| && forall c: nat :: c !in cs ==> Cluster(after, c) == Cluster(before, c)
  }

  /** The clusters cs hold `bytes` from their start. */
  ghost predicate Holds(data: seq<Sector>, cs: seq<nat>, bytes: seq<byte>) {
    |bytes| <= SECTOR_SIZE * |cs| && Content(data, cs)[..|bytes|] == bytes
  }

  lemma {:induction false} HoldsOneMore(data: seq<Sector>, c: nat, cs: seq<nat>, bytes: seq<byte>)
    requires Cluster(data, c) == Block(bytes)
    requires Holds(data, cs, bytes[Min(SECTOR_SIZE, |bytes|)..])
    ensures Holds(data, [c] + cs, bytes)
  {
    var k := Min(SECTOR_SIZE, |bytes|);
    var head: seq<byte> := Block(bytes);
    var tail := Content(data, cs);
    assert ([c] + cs)[1..] == cs;
    assert Content(data, [c] + cs) == head + tail;
    assert head[..k] == bytes[..k];
    hide Content, Block;
    assert (head + tail)[..|bytes|] == head[..k] + tail[..|bytes| - k];
  }

  /** The first sector of `bytes` goes to c, the rest to the clusters behind. */
  lemma {:induction false} WroteOneMore(before: seq<Sector>, after: seq<Sector>, c: nat, cs: seq<nat>, bytes: seq<byte>)
    requires FIRST_CLUSTER <= c < |before| + FIRST_CLUSTER && c !in cs
    requires OnlyIn(cs, before[c - FIRST_CLUSTER := Block(bytes)], after)
    ensures OnlyIn([c] + cs, before, after)
    ensures Holds(after, cs, bytes[Min(SECTOR_SIZE, |bytes|)..]) ==> Holds(after, [c] + cs, bytes)
  {
    assert Cluster(after, c) == Block(bytes);
    forall x: nat | x !in [c] + cs ensures Cluster(after, x) == Cluster(before, x) {
      assert x != c && x !in cs;
    }
    if Holds(after, cs, bytes[Min(SECTOR_SIZE, |bytes|)..]) {
      hide OnlyIn;
      HoldsOneMore(after, c, cs, bytes);
    }
  }

  /** What the layout looks like after one write to chain k: only that chain
      changed, by growing at its end with clusters that were free. */
  ghost predicate GrewTo(v: Volume, l: Layout, k: int, v1: Volume, l1: Layout) {
    && WellFormed(v1, l1)
    && k in l.chains && k in l1.chains
    && l1 == l.(chains := l.chains[k := l1.chains[k]])
    && l.chains[k] <= l1.chains[k]
    && |l1.chains[k]| + |FreeSet(v1)| == |l.chains[k]| + |FreeSet(v)|
  }

  /** How a write from cluster number i of a chain of length n ended, when the
      chain now is cs and `free` clusters are left. */
  ghost predicate Ended(end: Ending, data: seq<Sector>, cs: seq<nat>, i: nat, n: nat, bytes: seq<byte>, free: nat) {
    && n <= |cs| && i <= |cs|
    && match end
       case DiskFull => free == 0 && |bytes| > SECTOR_SIZE * (|cs| - i)
       case Finished(rest) =>
         && rest == 0
         && Holds(data, cs[i..], bytes)
         && (|cs| == n || SECTOR_SIZE * (|cs| - 1 - i) < |bytes|)
  }

  /** All that one write to chain k, from its i-th cluster on, promises: it
      keeps the invariant, changes nothing outside the part of the chain it
      reaches, and stores all bytes unless the disk is full. */
  ghost predicate Wrote(v: Volume, l: Layout, k: int, i: nat, bytes: seq<byte>, v1: Volume, end: Ending, l1: Layout) {
    && GrewTo(v, l, k, v1, l1)
    && i <= |l1.chains[k]|
    && OnlyIn(l1.chains[k][i..], v.data, v1.data)
    && Ended(end, v1.data, l1.chains[k], i, |l.chains[k]|, bytes, |FreeSet(v1)|)
  }

  lemma {:induction false} WroteNothing(v: Volume, l: Layout, k: int, i: nat)
    requires WellFormed(v, l) && k in l.chains && i < |l.chains[k]|
    ensures Wrote(v, l, k, i, [], v, Finished(0), l)
  {
    assert l == l.(chains := l.chains[k := l.chains[k]]);
  }

  /** The volume with the first sector of `bytes` in cluster c. */
  function Put(v: Volume, c: nat, bytes: seq<byte>): Volume {
    if v.InVolume(c) then v.(data := v.data[c - FIRST_CLUSTER := Block(bytes)]) else v
  }

  lemma {:induction false} ChainFacts(v: Volume, l: Layout, k: int, i: nat)
    requires WellFormed(v, l) && k in l.chains && i < |l.chains[k]|
    ensures var cs := l.chains[k];
            && v.InVolume(cs[i]) && cs[i] !in cs[i + 1..] && cs[i..] == [cs[i]] + cs[i + 1..]
            && if i + 1 < |cs| then v.fat[cs[i]] == cs[i + 1] && cs[i + 1] < END_OF_CHAIN && cs[i + 1] != FREE
               else v.fat[cs[i]] >= END_OF_CHAIN
  {
    assert IsChain(v.fat, v.End(), l.chains[k]);
  }

  lemma {:induction false} SameButData(v: Volume, va: Volume, l: Layout)
    requires WellFormed(v, l) && va.fat == v.fat && va.dir == v.dir && |va.data| == |v.data|
    ensures v.Sound() && va.Sound() && WellFormed(va, l) && FreeSet(va) == FreeSet(v)
  {
  }

  lemma {:induction false} NoneLeft(data: seq<Sector>, cs: seq<nat>)
    ensures Holds(data, cs, []) && OnlyIn(cs, data, data)
  {
  }

  lemma {:induction false} WroteLast(v: Volume, l: Layout, k: int, i: nat, bytes: seq<byte>, end: Ending)
    requires WellFormed(v, l) && k in l.chains && i < |l.chains[k]| && bytes != []
    requires if |bytes| <= SECTOR_SIZE then end == Finished(0)
             else end == DiskFull && FreeSet(v) == {} && i + 1 == |l.chains[k]|
    ensures Wrote(v, l, k, i, bytes, Put(v, l.chains[k][i], bytes), end, l)
  {
    hide WellFormed, OnlyIn, Holds, FreeSet, Content, Block;
    var cs := l.chains[k];
    var va := Put(v, cs[i], bytes);
    ChainFacts(v, l, k, i);
    SameButData(v, va, l);
    assert l == l.(chains := l.chains[k := cs]);
    NoneLeft(va.data, cs[i + 1..]);
    assert |bytes| <= SECTOR_SIZE ==> bytes[Min(SECTOR_SIZE, |bytes|)..] == [];
    WroteOneMore(v.data, va.data, cs[i], cs[i + 1..], bytes);
  }

  /** From the rest of the write to all of it, along the chain. */
  lemma {:induction false} WroteMore(v: Volume, l: Layout, k: int, i: nat, bytes: seq<byte>, v1: Volume, end: Ending,
          l1: Layout)
    requires WellFormed(v, l) && k in l.chains && i + 1 < |l.chains[k]| && |bytes| > SECTOR_SIZE
    requires Wrote(Put(v, l.chains[k][i], bytes), l, k, i + 1, bytes[SECTOR_SIZE..], v1, end, l1)
    ensures Wrote(v, l, k, i, bytes, v1, end, l1)
  {
    hide WellFormed, OnlyIn, Holds, FreeSet;
    var c, cs1 := l.chains[k][i], l1.chains[k];
    ChainFacts(v, l, k, i);
    ChainFacts(v1, l1, k, i);
    SameButData(v, Put(v, c, bytes), l);
    assert cs1[i] == c;
    WroteOneMore(v.data, v1.data, c, cs1[i + 1..], bytes);
  }

  /** As WroteMore, when the rest went to the newly linked cluster n. */
  lemma {:induction false} WroteLinked(v: Volume, l: Layout, k: int, i: nat, bytes: seq<byte>, n: nat, v1: Volume,
          end: Ending, l1: Layout)
    requires WellFormed(v, l) && k in l.chains && i + 1 == |l.chains[k]| && |bytes| > SECTOR_SIZE
    requires n in FreeSet(v)
    requires var va := Put(v, l.chains[k][i], bytes);
             var vb := va.(fat := va.fat[l.chains[k][i] := n][n := LAST]);
             FreeSet(vb) == FreeSet(v) - {n} && Wrote(vb, Grown(l, k, n), k, i + 1, bytes[SECTOR_SIZE..], v1, end, l1)
    ensures Wrote(v, l, k, i, bytes, v1, end, l1)
  {
    hide WellFormed, OnlyIn, Holds;
    var c, cs1 := l.chains[k][i], l1.chains[k];
    ChainFacts(v, l, k, i);
    ChainFacts(v1, l1, k, i);
    assert Grown(l, k, n).chains[k] == l.chains[k] + [n];
    assert cs1[i] == c;
    assert l1 == l.(chains := l.chains[k := cs1]);
    WroteOneMore(v.data, v1.data, c, cs1[i + 1..], bytes);
  }

  lemma {:induction false} WriteKeeps(v: Volume, l: Layout, k: int, i: nat, bytes: seq<byte>) returns (l1: Layout)
    requires WellFormed(v, l) && k in l.chains && i < |l.chains[k]|
    ensures var (v1, end) := WriteChain(v, l.chains[k][i], bytes);
            Wrote(v, l, k, i, bytes, v1, end, l1)
    decreases |bytes|
  {
    hide Wrote, WellFormed, Volume.Sound, WriteChain, FreeSet;
    l1 := l;
    var cs := l.chains[k];
    var va, rest := Put(v, cs[i], bytes), bytes[Min(SECTOR_SIZE, |bytes|)..];
    ChainFacts(v, l, k, i);
    SameButData(v, va, l);
    WriteUnfolds(v, cs[i], bytes);
    if bytes == [] {
      WroteNothing(v, l, k, i);
    } else if rest == [] {
      WriteUnfolds(va, v.fat[cs[i]], []);
      WroteLast(v, l, k, i, bytes, Finished(0));
    } else if i + 1 < |cs| {
      var (v1, end) := WriteChain(va, cs[i + 1], rest);
      l1 := WriteKeeps(va, l, k, i + 1, rest);
      WroteMore(v, l, k, i, bytes, v1, end, l1);
    } else {
      var n := FirstFree(v.fat, FIRST_CLUSTER);
      FirstFreeUnowned(v, l);
      if n == 0 {
        WroteLast(v, l, k, i, bytes, DiskFull);
      } else {
        var vb := va.(fat := va.fat[cs[i] := n][n := LAST]);
        LinkKeeps(va, l, k, n);
        var (v1, end) := WriteChain(vb, n, rest);
        l1 := WriteKeeps(vb, Grown(l, k, n), k, i + 1, rest);
        WroteLinked(v, l, k, i, bytes, n, v1, end, l1);
      }
    }
  }

  // ----- Lookups after directory changes -----------------------------------

  lemma {:induction false} LookupAfterPatch(dir: seq<RawEntry>, i: nat, e: RawEntry, name: Name, skip: bool, from: nat)
    requires from <= |dir| && i < |dir| && NameOf(e) == NameOf(dir[i]) && e[0] == dir[i][0]
    ensures Lookup(dir[i := e], name, skip, from) == Lookup(dir, name, skip, from)
    decreases |dir| - from
  {
    if from < |dir| {
      LookupAfterPatch(dir, i, e, name, skip, from + 1);
    }
  }

  lemma {:induction false} LookupAfterPatchBefore(dir: seq<RawEntry>, e: RawEntry, i: nat, name: Name, from: nat)
    requires i < from <= |dir|
    ensures Lookup(dir[i := e], name, true, from) == Lookup(dir, name, true, from)
    decreases |dir| - from
  {
    if from < |dir| {
      LookupAfterPatchBefore(dir, e, i, name, from + 1);
    }
  }

  /** A new entry in the first free slot answers to its own name and hides no
      other. */
  lemma {:induction false} LookupAfterCreate(dir: seq<RawEntry>, e: RawEntry, slot: nat, name: Name, from: nat)
    requires EndClosed(dir) && from <= slot < |dir| && FreeSlot(dir, from) == Some(slot) && Live(e)
    ensures NameOf(e) != name ==> Lookup(dir[slot := e], name, true, from) == Lookup(dir, name, true, from)
    ensures NameOf(e) == name && Lookup(dir, name, true, from) == None
        ==> Lookup(dir[slot := e], name, true, from) == Some(slot)
    decreases slot - from
  {
    if from < slot {
      LookupAfterCreate(dir, e, slot, name, from + 1);
    } else {
      LookupAfterPatchBefore(dir, e, slot, name, from + 1);
    }
  }

  lemma {:induction false} LookupAfterDelete(dir: seq<RawEntry>, i: nat, name: Name, from: nat)
    requires from <= |dir| && i < |dir| && Live(dir[i]) && NameOf(dir[i]) != name
    ensures Lookup(dir[i := AsDeleted(dir[i])], name, true, from) == Lookup(dir, name, true, from)
    decreases |dir| - from
  {
    if from < |dir| {
      LookupAfterDelete(dir, i, name, from + 1);
    }
  }

  // ----- Other files -------------------------------------------------------

  /** Everything a reader of slot k can see is the same before and after. */
  ghost predicate Untouched(v: Volume, l: Layout, v1: Volume, l1: Layout, k: int) {
    && (0 <= k < |v.dir| && Live(v.dir[k]) ==> k < |v1.dir| && v1.dir[k] == v.dir[k])
    && (k in l.chains ==> (
          && k in l1.chains && l1.chains[k] == l.chains[k]
          && Content(v1.data, l.chains[k]) == Content(v.data, l.chains[k])))
  }

  ghost predicate UntouchedBut(v: Volume, l: Layout, v1: Volume, l1: Layout, slot: int) {
    forall k :: k != slot ==> Untouched(v, l, v1, l1, k)
  }

  /** A name that still resolves to the same untouched slot reads the same. */
  lemma {:induction false} ReadsSame(v: Volume, l: Layout, v1: Volume, l1: Layout, name: Name, room: nat)
    requires WellFormed(v, l) && WellFormed(v1, l1) && name[0] != DELETED
    requires Lookup(v1.dir, name, true, 0) == Lookup(v.dir, name, true, 0)
    requires var r := Lookup(v.dir, name, true, 0); r.Some? ==> Untouched(v, l, v1, l1, r.value)
    ensures ReadFile(v1, name, room) == ReadFile(v, name, room)
  {
    SameLookup(v.dir, name, 0);
    SameLookup(v1.dir, name, 0);
    var r := Lookup(v.dir, name, true, 0);
    if r.Some? {
      var i := r.value;
      assert HasChain(v.dir, i) <==> i in l.chains;
      if i in l.chains {
        var size := Min(SizeOf(v.dir[i]), room);
        WalkReadsChain(v, l.chains[i], 0, size);
        WalkReadsChain(v1, l.chains[i], 0, size);
        assert l.chains[i][0..] == l.chains[i];
      }
    }
  }

  /** Chains that share no cluster keep their contents through a write. */
  lemma {:induction false} WriteUntouched(v: Volume, l: Layout, k: int, v1: Volume, l1: Layout)
    requires WellFormed(v, l) && GrewTo(v, l, k, v1, l1) && OnlyIn(l1.chains[k], v.data, v1.data) && v1.dir == v.dir
    ensures UntouchedBut(v, l, v1, l1, k)
  {
    forall j | j != k ensures Untouched(v, l, v1, l1, j) {
      if j in l.chains {
        assert l1.chains[j] == l.chains[j];
        ContentFrame(v.data, v1.data, l.chains[j]);
      }
    }
  }

  // ----- The write system call ----------------------------------------------

  predicate Usable(name: Name) {
    name[0] != DELETED && name[0] != NEVER_USED
  }

  /** The bytes a write to `name` has room for. */
  ghost function Room(v: Volume, l: Layout, name: Name): nat {
    match Lookup(v.dir, name, true, 0)
    case Some(i) => if i in l.chains then SECTOR_SIZE * (|l.chains[i]| + |FreeSet(v)|) else 0
    case None => if FreeSlot(v.dir, 0).Some? then SECTOR_SIZE * |FreeSet(v)| else 0
  }

  /** The slot a write to `name` uses, or -1. */
  ghost function Target(v: Volume, name: Name): int {
    match Lookup(v.dir, name, true, 0)
    case Some(i) => i
    case None => if FreeSlot(v.dir, 0).Some? then FreeSlot(v.dir, 0).value else |v.dir|
  }

  /** `name` reads back as `data`, whatever room the reader has. */
  ghost predicate ReadsAs(v: Volume, name: Name, data: seq<byte>) {
    && v.Sound() && Usable(name)
    && forall room: nat :: ReadFile(v, name, room) == Some(data[..Min(|data|, room)])
  }

  /** Every other name still resolves as it did. */
  ghost predicate SameNamesBut(name: Name, dir: seq<RawEntry>, dir1: seq<RawEntry>) {
    forall other: Name :: other != name ==> Lookup(dir1, other, true, 0) == Lookup(dir, other, true, 0)
  }

  /** The system call's promise, for a write to `name` that returned n. */
  ghost predicate WriteOutcome(v: Volume, l: Layout, name: Name, data: seq<byte>, v1: Volume, n: nat, l1: Layout) {
    && WellFormed(v1, l1) && l1.lost == l.lost
    && n == (if |data| <= Room(v, l, name) then |data| else 0)
    && UntouchedBut(v, l, v1, l1, Target(v, name))
    && SameNamesBut(name, v.dir, v1.dir)
    && (n > 0 ==> ReadsAs(v1, name, data))
  }

  lemma {:induction false} SlotChain(v: Volume, l: Layout, i: nat)
    requires WellFormed(v, l) && i < |v.dir| && Live(v.dir[i])
    ensures v.Sound() && v.Start(FirstCluster(v.dir[i]))
    ensures i in l.chains <==> Follows(FirstCluster(v.dir[i]))
    ensures i in l.chains ==> l.chains[i] != [] && l.chains[i][0] == FirstCluster(v.dir[i])
  {
    assert HasChain(v.dir, i) <==> i in l.chains;
  }

  lemma {:induction false} NothingUntouched(v: Volume, l: Layout, slot: int, name: Name)
    ensures UntouchedBut(v, l, v, l, slot) && SameNamesBut(name, v.dir, v.dir)
  {
  }

  lemma {:induction false} PatchUntouched(v: Volume, l: Layout, va: Volume, v1: Volume, l1: Layout, i: nat)
    requires UntouchedBut(v, l, va, l1, i) && v1.data == va.data && |v1.dir| == |va.dir|
    requires forall k :: 0 <= k < |va.dir| && k != i ==> v1.dir[k] == va.dir[k]
    ensures UntouchedBut(v, l, v1, l1, i)
  {
    forall k | k != i ensures Untouched(v, l, v1, l1, k) {
      assert Untouched(v, l, va, l1, k);
    }
  }

  lemma {:induction false} ChainReadsAs(v: Volume, l: Layout, name: Name, data: seq<byte>, i: nat)
    requires WellFormed(v, l) && Usable(name)
    requires Lookup(v.dir, name, false, 0) == Some(i) && i in l.chains && Holds(v.data, l.chains[i], data)
    requires SizeOf(v.dir[i]) == |data|
    ensures ReadsAs(v, name, data)
  {
    hide Content, Walk, Volume.Sound;
    var cs := l.chains[i];
    ChainLength(v, l, i);
    assert cs[0..] == cs && IsChain(v.fat, v.End(), cs) && cs[0] == FirstCluster(v.dir[i]);
    forall room: nat ensures ReadFile(v, name, room) == Some(data[..Min(|data|, room)]) {
      var size := Min(|data|, room);
      WalkReadsChain(v, cs, 0, size);
      assert Content(v.data, cs)[..size] == Content(v.data, cs)[..|data|][..size];
    }
  }

  /** Once the bytes are in the chain, recording the size makes them the file. */
  lemma {:induction false} ResizeOutcome(v: Volume, l: Layout, name: Name, data: seq<byte>, i: nat)
    requires WellFormed(v, l) && Usable(name) && 0 < |data| < U32
    requires Lookup(v.dir, name, true, 0) == Some(i) && i in l.chains && Holds(v.data, l.chains[i], data)
    ensures UpdateSize(v, name, |data|).Some?
    ensures var v1 := UpdateSize(v, name, |data|).value;
            && WellFormed(v1, l) && v1.fat == v.fat && v1.data == v.data
            && v1.dir == v.dir[i := WithSize(v.dir[i], |data|)]
            && SameNamesBut(name, v.dir, v1.dir)
            && ReadsAs(v1, name, data)
  {
    UpdateSizeKeeps(v, l, name, |data|);
    var e := WithSize(v.dir[i], |data|);
    var v1 := v.(dir := v.dir[i := e]);
    forall other: Name, skip ensures Lookup(v1.dir, other, skip, 0) == Lookup(v.dir, other, skip, 0) {
      LookupAfterPatch(v.dir, i, e, other, skip, 0);
    }
    SameLookup(v.dir, name, 0);
    ChainReadsAs(v1, l, name, data, i);
  }

  /** Write and resize an entry the name already resolves to. */
  lemma {:induction false} WriteExisting(v: Volume, l: Layout, name: Name, data: seq<byte>, i: nat) returns (l1: Layout)
    requires WellFormed(v, l) && Usable(name) && 0 < |data| < U32
    requires Lookup(v.dir, name, true, 0) == Some(i)
    ensures var (v1, n) := WriteAndResize(v, FirstCluster(v.dir[i]), name, data);
            WriteOutcome(v, l, name, data, v1, n, l1)
  {
    hide WellFormed, OnlyIn, Content, FreeSet, WriteChain, Volume.Sound, UntouchedBut, SameNamesBut, ReadsAs;
    var first := FirstCluster(v.dir[i]);
    l1 := l;
    SlotChain(v, l, i);
    WriteUnfolds(v, first, data);
    if i in l.chains {
      var (va, end) := WriteChain(v, first, data);
      l1 := WriteKeeps(v, l, i, 0, data);
      assert l1.chains[i][0..] == l1.chains[i];
      WriteUntouched(v, l, i, va, l1);
      NothingUntouched(v, l, i, name);
      if end.Finished? {
        ChainLength(va, l1, i);
        ResizeOutcome(va, l1, name, data, i);
        var v1 := UpdateSize(va, name, |data|).value;
        assert WriteAndResize(v, first, name, data) == (v1, |data|);
        PatchUntouched(v, l, va, v1, l1, i);
      }
    } else {
      NothingUntouched(v, l, i, name);
    }
  }

  /** A file just made is found under its name and nothing else changed. */
  lemma {:induction false} CreatedEntry(v: Volume, l: Layout, name: Name)
    requires WellFormed(v, l) && Usable(name) && Create(v, name).Some?
    ensures var (va, c) := Create(v, name).value;
            var slot := FreeSlot(v.dir, 0).value;
            && (Lookup(v.dir, name, true, 0) == None ==> Lookup(va.dir, name, true, 0) == Some(slot))
            && SameNamesBut(name, v.dir, va.dir)
            && FirstCluster(va.dir[slot]) == c
            && UntouchedBut(v, l, va, Grown(l, slot, c), slot)
  {
    var (va, c) := Create(v, name).value;
    var slot := FreeSlot(v.dir, 0).value;
    var e := NewEntry(v.dir[slot], name, c);
    assert NameOf(e)[0] == e[0];
    LookupAfterCreate(v.dir, e, slot, name, 0);
    forall other: Name | other != name ensures Lookup(va.dir, other, true, 0) == Lookup(v.dir, other, true, 0) {
      LookupAfterCreate(v.dir, e, slot, other, 0);
    }
    assert slot !in l.chains by { assert !HasChain(v.dir, slot); }
  }

  lemma {:induction false} AfterCreate(v: Volume, l: Layout, name: Name, data: seq<byte>, v1: Volume, n: nat,
          l1: Layout)
    requires WellFormed(v, l) && Usable(name) && 0 < |data| < U32 && Create(v, name).Some?
    requires Lookup(v.dir, name, true, 0) == None
    requires var (va, c) := Create(v, name).value;
             var slot := FreeSlot(v.dir, 0).value;
             && slot !in l.chains
             && WellFormed(va, Grown(l, slot, c)) && FreeSet(va) == FreeSet(v) - {c} && c in FreeSet(v)
             && Lookup(va.dir, name, true, 0) == Some(slot)
             && SameNamesBut(name, v.dir, va.dir)
             && UntouchedBut(v, l, va, Grown(l, slot, c), slot)
             && WriteOutcome(va, Grown(l, slot, c), name, data, v1, n, l1)
    ensures WriteOutcome(v, l, name, data, v1, n, l1)
  {
    var (va, c) := Create(v, name).value;
    var slot := FreeSlot(v.dir, 0).value;
    var la := Grown(l, slot, c);
    assert Room(va, la, name) == SECTOR_SIZE * (1 + |FreeSet(va)|) == Room(v, l, name);
    forall k | k != slot ensures Untouched(v, l, v1, l1, k) {
      assert Untouched(v, l, va, la, k) && Untouched(va, la, v1, l1, k);
    }
  }

  /** SYSCALL_WRITE_FILE on a well-formed volume. It returns the whole size
      exactly when the file's own chain, or a new one, has room for it, and 0
      otherwise; after success reading the name gives back the bytes; every
      other file keeps its entry, chain and contents either way. */
  lemma {:induction false} WriteUsable(v: Volume, l: Layout, name: Name, data: seq<byte>) returns (l1: Layout)
    requires WellFormed(v, l) && Usable(name) && 0 < |data| < U32
    ensures var (v1, n) := WriteFile(v, name, data);
            WriteOutcome(v, l, name, data, v1, n, l1)
  {
    SameLookup(v.dir, name, 0);
    match Lookup(v.dir, name, true, 0)
    case Some(i) =>
      l1 := WriteExisting(v, l, name, data, i);
    case None =>
      l1 := l;
      FirstFreeUnowned(v, l);
      if Create(v, name).Some? {
        var (va, c) := Create(v, name).value;
        var slot := FreeSlot(v.dir, 0).value;
        CreateKeeps(v, l, name);
        CreatedEntry(v, l, name);
        l1 := WriteExisting(va, Grown(l, slot, c), name, data, slot);
        var (v1, n) := WriteFile(v, name, data);
        AfterCreate(v, l, name, data, v1, n, l1);
      }
  }

  // ----- Deleting -------------------------------------------------------------

  /** Deleting a name leaves every other name reading as it did. */
  lemma {:induction false} DeleteOthers(v: Volume, l: Layout, name: Name, other: Name, room: nat)
    requires WellFormed(v, l) && Delete(v, name).Some? && other != name && Usable(other)
    ensures ReadFile(Delete(v, name).value, other, room) == ReadFile(v, other, room)
  {
    var i := Lookup(v.dir, name, true, 0).value;
    DeleteKeeps(v, l, name);
    LookupAfterDelete(v.dir, i, other, 0);
    ReadsSame(v, l, Delete(v, name).value, Dropped(l, i), other, room);
  }

  /** Not so a name that begins with the deletion mark: it may read as absent
      before and as the deleted file's row after. */
  lemma {:induction false} DeleteShowsMarked(v: Volume, l: Layout, name: Name, room: nat)
    requires WellFormed(v, l) && Delete(v, name).Some? && Lookup(v.dir, name[0 := DELETED], false, 0) == None
    ensures var other := name[0 := DELETED];
            other != name && ReadFile(v, other, room) == None && ReadFile(Delete(v, name).value, other, room) != None
  {
    if name[0] == DELETED { MarkedNameNotFound(v.dir, name, 0); }
    FoundIsFirstMatch(v.dir, name, 0);
    DeletedAnswers(v.dir, name, Lookup(v.dir, name, true, 0).value);
  }

  /** A deleted name is gone, unless a second live entry bears it, which
      fat12_create does not prevent. */
  lemma {:induction false} DeleteRemoves(v: Volume, l: Layout, name: Name, room: nat)
    requires WellFormed(v, l) && Delete(v, name).Some?
    ensures var i := Lookup(v.dir, name, true, 0).value;
            (ReadFile(Delete(v, name).value, name, room) == None)
            <==> (forall j :: 0 <= j < |v.dir| && j != i ==> !(Live(v.dir[j]) && NameOf(v.dir[j]) == name))
  {
    var i, v1 := Lookup(v.dir, name, true, 0).value, Delete(v, name).value;
    DeleteKeeps(v, l, name);
    SameLookup(v1.dir, name, 0);
    hide Accounts, SlotsMatch, FreeChain;
    if Lookup(v1.dir, name, true, 0) == None {
      forall j | 0 <= j < |v.dir| && j != i ensures !(Live(v.dir[j]) && NameOf(v.dir[j]) == name) {
        NotFound(v1.dir, name, 0, j);
      }
    } else {
      var k := Lookup(v1.dir, name, true, 0).value;
      assert k != i && Live(v.dir[k]) && NameOf(v.dir[k]) == name;
    }
  }

  /** Writing a name leaves every other name reading as it did, even when the
      write stops on a full disk. */
  lemma {:induction false} WriteUsableOthers(v: Volume, l: Layout, name: Name, data: seq<byte>, other: Name, room: nat)
    requires WellFormed(v, l) && Usable(name) && 0 < |data| < U32 && other != name && Usable(other)
    ensures ReadFile(WriteFile(v, name, data).0, other, room) == ReadFile(v, other, room)
  {
    var (v1, n) := WriteFile(v, name, data);
    var l1 := WriteUsable(v, l, name, data);
    var r := Lookup(v.dir, other, true, 0);
    if r.Some? {
      assert r.value != Target(v, name);
    }
    ReadsSame(v, l, v1, l1, other, room);
  }
}
