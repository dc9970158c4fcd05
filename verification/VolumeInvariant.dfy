/** The file-system invariant: every file owns a finite chain of clusters, no
    two chains meet, and a cluster is free exactly when nobody owns it. */
module VolumeInvariant {
  import opened Bytes
  import opened Collections
  import opened FatTable
  import opened Directory
  import opened Volumes

  /** Who owns which clusters. Keys from 0 up are root-directory slots; negative
      keys stand for chains the root does not point to, such as the contents of
      subdirectories. `lost` holds used clusters in no chain. */
  datatype Layout = Layout(chains: map<int, seq<nat>>, lost: set<nat>)

  /** A finite path of links: in range, acyclic, ended by an end mark. */
  ghost predicate IsChain(fat: seq<Entry>, end: nat, cs: seq<nat>) {
    && end <= |fat|
    && cs != []
    && Distinct(cs)
    && (forall i :: 0 <= i < |cs| ==> FIRST_CLUSTER <= cs[i] < end)
    && (forall i :: 0 <= i < |cs| - 1 ==> fat[cs[i]] == cs[i + 1])
    && fat[cs[|cs| - 1]] >= END_OF_CHAIN
  }

  ghost predicate Owned(l: Layout, c: nat) {
    c in l.lost || exists k :: k in l.chains && c in l.chains[k]
  }

  ghost predicate Disjoint(l: Layout) {
    && (forall j, k, c :: j in l.chains && k in l.chains && c in l.chains[j] && c in l.chains[k] ==> j == k)
    && (forall k, c :: k in l.chains && c in l.chains[k] ==> c !in l.lost)
  }

  /** Slot i heads a chain of its own. */
  predicate HasChain(dir: seq<RawEntry>, i: int) {
    0 <= i < |dir| && Live(dir[i]) && Follows(FirstCluster(dir[i]))
  }

  ghost predicate SlotsMatch(dir: seq<RawEntry>, chains: map<int, seq<nat>>) {
    && (forall i :: 0 <= i ==> (i in chains <==> HasChain(dir, i)))
    && (forall i :: 0 <= i < |dir| && i in chains ==> chains[i] != [] && chains[i][0] == FirstCluster(dir[i]))
  }

  /** The layout accounts for the FAT: its chains are chains, nothing is owned
      twice, and a cluster is free exactly when it is not owned. */
  ghost predicate Accounts(l: Layout, fat: seq<Entry>, end: nat) {
    && end <= |fat|
    && (forall k :: k in l.chains ==> IsChain(fat, end, l.chains[k]))
    && Disjoint(l)
    && (forall c :: c in l.lost ==> FIRST_CLUSTER <= c < end)
    && (forall c :: FIRST_CLUSTER <= c < end ==> (fat[c] == FREE <==> !Owned(l, c)))
  }

  ghost predicate WellFormed(v: Volume, l: Layout) {
    && v.Sound()
    && EndClosed(v.dir)
    && Accounts(l, v.fat, v.End())
    && SlotsMatch(v.dir, l.chains)
  }

  // ----- Counting --------------------------------------------------------

  ghost function FreeSet(v: Volume): set<nat> {
    set c: nat | FIRST_CLUSTER <= c < v.End() && c < |v.fat| && v.fat[c] == FREE
  }

  ghost function InChains(keys: set<int>, chains: map<int, seq<nat>>): set<nat>
    requires keys <= chains.Keys
  {
    set k, c | k in keys && c in chains[k] :: c
  }

  ghost function TotalLength(keys: set<int>, chains: map<int, seq<nat>>): nat
    requires keys <= chains.Keys
  {
    if exists k :: k in keys then
      var k :| k in keys;
      |chains[k]| + TotalLength(keys - {k}, chains)
    else 0
  }

  lemma {:induction false} DistinctSize(cs: seq<nat>)
    requires Distinct(cs)
    ensures |Elements(cs)| == |cs|
  {
    if cs != [] {
      DistinctSize(cs[1..]);
      assert Elements(cs) == {cs[0]} + Elements(cs[1..]);
    }
  }

  lemma InChainsSplit(keys: set<int>, chains: map<int, seq<nat>>, k: int)
    requires k in keys && keys <= chains.Keys
    requires forall j, c :: j in keys && c in chains[j] && c in chains[k] ==> j == k
    ensures InChains(keys, chains) == Elements(chains[k]) + InChains(keys - {k}, chains)
    ensures Elements(chains[k]) !! InChains(keys - {k}, chains)
  {
  }

  lemma {:induction false} ChainsSize(keys: set<int>, chains: map<int, seq<nat>>)
    requires keys <= chains.Keys
    requires forall k :: k in keys ==> Distinct(chains[k])
    requires forall j, k, c :: j in keys && k in keys && c in chains[j] && c in chains[k] ==> j == k
    ensures |InChains(keys, chains)| == TotalLength(keys, chains)
  {
    if exists k :: k in keys {
      var k :| k in keys && TotalLength(keys, chains) == |chains[k]| + TotalLength(keys - {k}, chains);
      ChainsSize(keys - {k}, chains);
      DistinctSize(chains[k]);
      InChainsSplit(keys, chains, k);
    } else {
      assert InChains(keys, chains) == {};
    }
  }

  lemma {:induction false} RangeSize(lo: nat, hi: nat, s: set<nat>)
    requires lo <= hi && forall c: nat :: c in s <==> lo <= c < hi
    ensures |s| == hi - lo
    decreases hi
  {
    if lo == hi {
      assert s == {};
    } else {
      RangeSize(lo, hi - 1, s - {hi - 1});
    }
  }

  lemma SubsetSize(a: set<nat>, b: set<nat>)
    requires a <= b
    ensures |a| <= |b|
  {
    assert b == a + (b - a);
  }

  /** A file has fewer bytes than 2^31, since its chain lies in the volume. */
  lemma {:induction false} ChainLength(v: Volume, l: Layout, k: int)
    requires WellFormed(v, l) && k in l.chains
    ensures |l.chains[k]| <= |v.data| <= SCAN_LIMIT
  {
    var volume := set c: nat | FIRST_CLUSTER <= c < v.End() && v.InVolume(c);
    assert IsChain(v.fat, v.End(), l.chains[k]);
    DistinctSize(l.chains[k]);
    RangeSize(FIRST_CLUSTER, v.End(), volume);
    SubsetSize(Elements(l.chains[k]), volume);
  }

  lemma {:induction false} PartsMakeVolume(v: Volume, l: Layout)
    requires WellFormed(v, l)
    ensures var free, used := FreeSet(v), InChains(l.chains.Keys, l.chains);
            && free !! used && free + used !! l.lost
            && forall c: nat :: c in free + used + l.lost <==> FIRST_CLUSTER <= c < v.End()
  {
    var used := InChains(l.chains.Keys, l.chains);
    forall c: nat ensures c in used || c in l.lost <==> FIRST_CLUSTER <= c < v.End() && v.fat[c] != FREE {
      if k :| k in l.chains && c in l.chains[k] {
        assert Owned(l, c) && IsChain(v.fat, v.End(), l.chains[k]);
      }
    }
  }

  /** Conservation: free clusters, the clusters of all chains and the lost ones
      add up to the volume. */
  lemma {:induction false} ClustersConserved(v: Volume, l: Layout)
    requires WellFormed(v, l)
    ensures |FreeSet(v)| + TotalLength(l.chains.Keys, l.chains) + |l.lost| == |v.data|
  {
    ChainsSize(l.chains.Keys, l.chains);
    PartsMakeVolume(v, l);
    RangeSize(FIRST_CLUSTER, v.End(), FreeSet(v) + InChains(l.chains.Keys, l.chains) + l.lost);
  }

  // ----- Growing, adding and dropping chains -------------------------------

  /** What FirstFree returns belongs to nobody; 0 means nothing is free. */
  lemma {:induction false} FirstFreeUnowned(v: Volume, l: Layout)
    requires WellFormed(v, l)
    ensures var n := FirstFree(v.fat, FIRST_CLUSTER);
            if n == 0 then FreeSet(v) == {} else n in FreeSet(v) && !Owned(l, n)
  {
  }

  /** A chain stands as long as the links of its own clusters do. */
  lemma {:induction false} ChainFrame(fat: seq<Entry>, fat1: seq<Entry>, end: nat, cs: seq<nat>)
    requires |fat1| == |fat| && IsChain(fat, end, cs)
    requires forall c :: c in cs ==> fat1[c] == fat[c]
    ensures IsChain(fat1, end, cs)
  {
    forall i | 0 <= i < |cs| ensures fat1[cs[i]] == fat[cs[i]] {
      assert cs[i] in cs;
    }
  }

  lemma {:induction false} ChainGrows(fat: seq<Entry>, end: nat, cs: seq<nat>, n: nat)
    requires IsChain(fat, end, cs) && FIRST_CLUSTER <= n < end <= 0x1000 && n !in cs
    ensures IsChain(fat[cs[|cs| - 1] := n][n := LAST], end, cs + [n])
  {
    var last := cs[|cs| - 1];
    var fat1 := fat[last := n][n := LAST];
    forall i | 0 <= i < |cs| - 1 ensures fat1[cs[i]] == cs[i + 1] {
      assert cs[i] in cs && cs[i] != last;
    }
  }

  /** The clusters slot i owns, if any. */
  ghost function ChainOf(l: Layout, i: int): seq<nat> {
    if i in l.chains then l.chains[i] else []
  }

  /** The layout after chain k took cluster n, or n became a chain of its own. */
  ghost function Grown(l: Layout, k: int, n: nat): Layout {
    l.(chains := l.chains[k := ChainOf(l, k) + [n]])
  }

  lemma GrownOwns(l: Layout, k: int, n: nat, c: nat)
    ensures Owned(Grown(l, k, n), c) <==> Owned(l, c) || c == n
  {
    var l1 := Grown(l, k, n);
    assert n in l1.chains[k];
    if j :| j in l.chains && c in l.chains[j] {
      assert c in l1.chains[j];
    }
  }

  lemma GrownDisjoint(l: Layout, k: int, n: nat)
    requires Disjoint(l) && !Owned(l, n)
    ensures Disjoint(Grown(l, k, n))
  {
    var l1 := Grown(l, k, n);
    forall j, i, c | j in l1.chains && i in l1.chains && c in l1.chains[j] && c in l1.chains[i]
      ensures j == i
    {
      assert c != n ==> c in ChainOf(l, j) && c in ChainOf(l, i);
    }
  }

  /** The FAT after cluster n was appended to the chain cs, or started one. */
  ghost function Linked(fat: seq<Entry>, cs: seq<nat>, n: Entry): (linked: seq<Entry>)
    requires n < |fat| && (cs != [] ==> cs[|cs| - 1] < |fat|)
    ensures |linked| == |fat|
  {
    (if cs == [] then fat else fat[cs[|cs| - 1] := n])[n := LAST]
  }

  lemma {:induction false} EndInside(fat: seq<Entry>, end: nat, l: Layout, k: int)
    requires Accounts(l, fat, end)
    ensures var cs := ChainOf(l, k); cs != [] ==> FIRST_CLUSTER <= cs[|cs| - 1] < end
  {
  }

  lemma {:induction false} GrownChain(fat: seq<Entry>, end: nat, l: Layout, k: int, n: nat, j: int)
    requires Accounts(l, fat, end) && FIRST_CLUSTER <= n < end <= 0x1000 && fat[n] == FREE
    requires j in Grown(l, k, n).chains
    ensures var cs := ChainOf(l, k);
            && (cs != [] ==> cs[|cs| - 1] < end)
            && |Linked(fat, cs, n)| == |fat| && IsChain(Linked(fat, cs, n), end, Grown(l, k, n).chains[j])
  {
    var cs := ChainOf(l, k);
    assert !Owned(l, n);
    if j == k {
      if cs != [] { ChainGrows(fat, end, cs, n); }
    } else {
      assert cs != [] ==> cs[|cs| - 1] in l.chains[k];
      ChainFrame(fat, Linked(fat, cs, n), end, l.chains[j]);
    }
  }

  lemma {:induction false} GrownChains(fat: seq<Entry>, end: nat, l: Layout, k: int, n: nat)
    requires Accounts(l, fat, end) && FIRST_CLUSTER <= n < end <= 0x1000 && fat[n] == FREE
    ensures var cs := ChainOf(l, k);
            && (cs != [] ==> cs[|cs| - 1] < end)
            && |Linked(fat, cs, n)| == |fat|
            && forall j :: j in Grown(l, k, n).chains ==> IsChain(Linked(fat, cs, n), end, Grown(l, k, n).chains[j])
  {
    hide IsChain, Linked, Disjoint;
    var cs := ChainOf(l, k);
    EndInside(fat, end, l, k);
    forall j | j in Grown(l, k, n).chains ensures IsChain(Linked(fat, cs, n), end, Grown(l, k, n).chains[j]) {
      GrownChain(fat, end, l, k, n, j);
    }
  }

  lemma {:induction false} GrownFree(fat: seq<Entry>, end: nat, l: Layout, k: int, n: nat)
    requires Accounts(l, fat, end) && FIRST_CLUSTER <= n < end <= 0x1000 && fat[n] == FREE
    ensures var cs := ChainOf(l, k);
            && (cs != [] ==> cs[|cs| - 1] < end)
            && forall c :: FIRST_CLUSTER <= c < end ==> (Linked(fat, cs, n)[c] == FREE <==> !Owned(Grown(l, k, n), c))
  {
    hide Disjoint;
    var cs := ChainOf(l, k);
    if cs != [] { assert cs[|cs| - 1] in l.chains[k] && Owned(l, cs[|cs| - 1]); }
    forall c | FIRST_CLUSTER <= c < end ensures Linked(fat, cs, n)[c] == FREE <==> !Owned(Grown(l, k, n), c) {
      GrownOwns(l, k, n, c);
    }
  }

  /** One free cluster is appended to chain k, or starts it. */
  lemma {:induction false} GrowKeeps(fat: seq<Entry>, end: nat, l: Layout, k: int, n: nat)
    requires Accounts(l, fat, end) && FIRST_CLUSTER <= n < end <= 0x1000 && fat[n] == FREE
    ensures Accounts(Grown(l, k, n), Linked(fat, ChainOf(l, k), n), end)
  {
    hide IsChain, Disjoint, Linked;
    assert !Owned(l, n);
    GrownDisjoint(l, k, n);
    GrownChains(fat, end, l, k, n);
    GrownFree(fat, end, l, k, n);
  }

  lemma {:induction false} EndInUse(fat: seq<Entry>, end: nat, l: Layout, k: int)
    requires Accounts(l, fat, end) && k in l.chains
    ensures l.chains[k] != [] && ChainOf(l, k) == l.chains[k]
    ensures var last := l.chains[k][|l.chains[k]| - 1]; FIRST_CLUSTER <= last < end <= |fat| && fat[last] != FREE
  {
    var last := l.chains[k][|l.chains[k]| - 1];
    assert last in l.chains[k] && Owned(l, last);
  }

  /** Appending a free cluster to a chain, as fat12_write does. */
  lemma {:induction false} LinkKeeps(v: Volume, l: Layout, k: int, n: nat)
    requires WellFormed(v, l) && k in l.chains
    requires v.InVolume(n) && v.fat[n] == FREE
    ensures var cs := l.chains[k];
            var v1 := v.(fat := v.fat[cs[|cs| - 1] := n][n := LAST]);
            WellFormed(v1, Grown(l, k, n)) && FreeSet(v1) == FreeSet(v) - {n}
  {
    hide Accounts, EndClosed;
    GrowKeeps(v.fat, v.End(), l, k, n);
    EndInUse(v.fat, v.End(), l, k);
  }

  /** The layout after cluster n became used without any chain pointing to it. */
  ghost function Lost(l: Layout, s: set<nat>): Layout {
    l.(lost := l.lost + s)
  }

  /** Clusters on no chain may be linked in any way, as long as they are marked
      used and counted as lost. */
  lemma {:induction false} LoseKeeps(fat: seq<Entry>, fat1: seq<Entry>, end: nat, l: Layout, s: set<nat>)
    requires Accounts(l, fat, end) && |fat1| == |fat|
    requires forall c :: c in s ==> FIRST_CLUSTER <= c < end && fat1[c] != FREE
    requires forall k, c :: k in l.chains && c in l.chains[k] ==> c !in s
    requires forall c :: 0 <= c < |fat| && c !in s ==> fat1[c] == fat[c]
    ensures Accounts(Lost(l, s), fat1, end)
  {
    forall k | k in l.chains ensures IsChain(fat1, end, l.chains[k]) {
      forall c | c in l.chains[k] ensures fat1[c] == fat[c] {
        assert IsChain(fat, end, l.chains[k]);
      }
      ChainFrame(fat, fat1, end, l.chains[k]);
    }
    hide IsChain;
    forall c | FIRST_CLUSTER <= c < end ensures fat1[c] == FREE <==> !Owned(Lost(l, s), c) {
      assert Owned(Lost(l, s), c) <==> Owned(l, c) || c in s;
    }
  }

  /** The layout after a create took cluster c for `name` in this slot. A name
      that begins with the deletion mark leaves the slot looking deleted, and
      its cluster without an owner. */
  ghost function Created(l: Layout, name: Name, slot: nat, c: nat): Layout {
    if name[0] == DELETED then Lost(l, {c}) else Grown(l, slot, c)
  }

  lemma {:induction false} CreateSlots(dir: seq<RawEntry>, chains: map<int, seq<nat>>, slot: nat, name: Name, c: nat)
    requires SlotsMatch(dir, chains) && EndClosed(dir) && FreeSlot(dir, 0) == Some(slot)
    requires name[0] != NEVER_USED && Follows(c)
    ensures var dir1 := dir[slot := NewEntry(dir[slot], name, c)];
            SlotsMatch(dir1, if name[0] == DELETED then chains else chains[slot := [c]]) && EndClosed(dir1)
  {
    var e := NewEntry(dir[slot], name, c);
    assert NameOf(e)[0] == e[0];
  }

  /** A new file's first cluster, as fat12_create takes it. */
  lemma {:induction false} CreateKeeps(v: Volume, l: Layout, name: Name)
    requires WellFormed(v, l) && name[0] != NEVER_USED
    requires Create(v, name).Some?
    ensures var (v1, c) := Create(v, name).value;
            var slot := FreeSlot(v.dir, 0).value;
            && slot !in l.chains && c !in l.lost
            && WellFormed(v1, Created(l, name, slot, c))
            && FreeSet(v1) == FreeSet(v) - {c} && c in FreeSet(v)
  {
    hide IsChain, Disjoint, EndClosed;
    var (v1, c) := Create(v, name).value;
    var slot := FreeSlot(v.dir, 0).value;
    assert !HasChain(v.dir, slot);
    assert !Owned(l, c);
    if name[0] == DELETED {
      LoseKeeps(v.fat, v1.fat, v.End(), l, {c});
    } else {
      GrowKeeps(v.fat, v.End(), l, slot, c);
    }
    CreateSlots(v.dir, l.chains, slot, name, c);
  }

  // ----- Deleting ---------------------------------------------------------

  /** `fat` with the given clusters free. */
  function Cleared(fat: seq<Entry>, cs: seq<nat>): seq<Entry> {
    seq(|fat|, x requires 0 <= x < |fat| => if x in cs then FREE else fat[x])
  }

  lemma {:induction false} ClearedStep(fat: seq<Entry>, cs: seq<nat>)
    requires cs != [] && cs[0] < |fat|
    ensures Cleared(fat, cs) == Cleared(fat[cs[0] := FREE], cs[1..])
  {
    assert cs == [cs[0]] + cs[1..];
  }

  /** The freeing loop frees exactly the clusters on the chain. */
  lemma {:induction false} FreeChainFreesChain(fat: seq<Entry>, end: nat, cs: seq<nat>)
    requires LinksOk(fat, end) && end <= SCAN_LIMIT
    requires cs != [] && Distinct(cs)
    requires forall i :: 0 <= i < |cs| ==> FIRST_CLUSTER <= cs[i] < end
    requires forall i :: 0 <= i < |cs| - 1 ==> fat[cs[i]] == cs[i + 1]
    requires fat[cs[|cs| - 1]] >= END_OF_CHAIN
    ensures FreeChain(fat, end, cs[0]) == Cleared(fat, cs)
    decreases |cs|
  {
    var fat1, tail := fat[cs[0] := FREE], cs[1..];
    ClearedStep(fat, cs);
    if tail == [] {
      assert FreeChain(fat1, end, fat[cs[0]]) == fat1 == Cleared(fat1, []);
    } else {
      assert forall i :: 0 <= i < |tail| ==> tail[i] == cs[i + 1] && tail[i] != cs[0];
      FreeChainFreesChain(fat1, end, tail);
    }
  }

  ghost function Dropped(l: Layout, i: int): Layout {
    l.(chains := l.chains - {i})
  }

  lemma DroppedOwns(l: Layout, i: int, c: nat)
    requires Disjoint(l)
    ensures Owned(Dropped(l, i), c) <==> Owned(l, c) && c !in ChainOf(l, i)
  {
    if k :| k in l.chains && c in l.chains[k] && k != i {
      assert c in Dropped(l, i).chains[k];
    }
  }

  lemma {:induction false} DropKeeps(fat: seq<Entry>, end: nat, l: Layout, i: int)
    requires Accounts(l, fat, end)
    ensures Accounts(Dropped(l, i), Cleared(fat, ChainOf(l, i)), end)
  {
    var fat1 := Cleared(fat, ChainOf(l, i));
    var l1 := Dropped(l, i);
    forall k | k in l1.chains ensures IsChain(fat1, end, l1.chains[k]) {
      assert IsChain(fat, end, l.chains[k]);
      ChainFrame(fat, fat1, end, l.chains[k]);
    }
    forall c | FIRST_CLUSTER <= c < end ensures fat1[c] == FREE <==> !Owned(l1, c) {
      DroppedOwns(l, i, c);
    }
  }

  lemma {:induction false} DeleteSlots(dir: seq<RawEntry>, chains: map<int, seq<nat>>, i: nat)
    requires SlotsMatch(dir, chains) && EndClosed(dir) && i < |dir| && Live(dir[i])
    ensures var dir1 := dir[i := AsDeleted(dir[i])];
            SlotsMatch(dir1, chains - {i}) && EndClosed(dir1)
  {
  }

  lemma {:induction false} DeleteClears(v: Volume, l: Layout, i: nat)
    requires WellFormed(v, l) && i < |v.dir| && Live(v.dir[i])
    ensures FreeChain(v.fat, v.End(), FirstCluster(v.dir[i])) == Cleared(v.fat, ChainOf(l, i))
  {
    assert i in l.chains <==> HasChain(v.dir, i);
    if i in l.chains {
      FreeChainFreesChain(v.fat, v.End(), l.chains[i]);
    } else {
      assert Cleared(v.fat, []) == v.fat;
    }
  }

  lemma {:induction false} ClearedFrees(v: Volume, cs: seq<nat>)
    requires forall c :: c in cs ==> v.InVolume(c) && c < |v.fat| && v.fat[c] != FREE
    ensures var v1 := v.(fat := Cleared(v.fat, cs));
            FreeSet(v1) == FreeSet(v) + Elements(cs) && Elements(cs) !! FreeSet(v)
  {
    var v1 := v.(fat := Cleared(v.fat, cs));
    forall c: nat ensures c in FreeSet(v1) <==> c in FreeSet(v) || c in cs {
      if v.InVolume(c) && c < |v.fat| {
        assert v1.InVolume(c) && v1.fat[c] == if c in cs then FREE else v.fat[c];
      }
    }
  }

  lemma {:induction false} ChainInUse(v: Volume, l: Layout, i: int)
    requires WellFormed(v, l)
    ensures forall c :: c in ChainOf(l, i) ==> v.InVolume(c) && v.fat[c] != FREE
  {
    forall c | c in ChainOf(l, i) ensures v.InVolume(c) && v.fat[c] != FREE {
      assert IsChain(v.fat, v.End(), l.chains[i]) && Owned(l, c);
    }
  }

  /** fat12_delete gives back exactly the deleted file's clusters. */
  lemma {:induction false} DeleteKeeps(v: Volume, l: Layout, name: Name)
    requires WellFormed(v, l) && Delete(v, name).Some?
    ensures var i := Lookup(v.dir, name, true, 0).value;
            var v1 := Delete(v, name).value;
            var freed := Elements(ChainOf(l, i));
            && v1.fat == Cleared(v.fat, ChainOf(l, i))
            && WellFormed(v1, Dropped(l, i))
            && FreeSet(v1) == FreeSet(v) + freed
            && freed !! FreeSet(v)
  {
    hide Accounts, SlotsMatch, EndClosed, Cleared, FreeChain;
    var i := Lookup(v.dir, name, true, 0).value;
    var v1 := Delete(v, name).value;
    DeleteClears(v, l, i);
    ChainInUse(v, l, i);
    DropKeeps(v.fat, v.End(), l, i);
    DeleteSlots(v.dir, l.chains, i);
    ClearedFrees(v, ChainOf(l, i));
  }

  /** Recording a size leaves the chains alone. */
  lemma {:induction false} UpdateSizeKeeps(v: Volume, l: Layout, name: Name, size: nat)
    requires WellFormed(v, l) && size < U32 && UpdateSize(v, name, size).Some?
    ensures WellFormed(UpdateSize(v, name, size).value, l)
  {
    var i := Lookup(v.dir, name, true, 0).value;
    var dir1 := v.dir[i := WithSize(v.dir[i], size)];
    assert forall j :: 0 <= j ==> (HasChain(dir1, j) <==> HasChain(v.dir, j));
    assert EndClosed(dir1);
  }
}
