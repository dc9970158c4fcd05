/** Writes under names that begin with the deletion mark. fat12_open takes the
    row of a deleted file for such a name, so the write may start at any cluster
    of the volume, whoever owns it by now. */
module StrayWrites {
  import opened Bytes
  import opened Floppy
  import opened FatTable
  import opened Directory
  import opened Volumes
  import opened VolumeInvariant
  import opened Files

  // ----- Structure ------------------------------------------------------------

  ghost predicate OnChain(l: Layout, c: nat) {
    exists k :: k in l.chains && c in l.chains[k]
  }

  /** Chains may have grown at their ends and clusters may have been lost;
      nothing else changed. */
  ghost predicate Spread(l: Layout, l1: Layout) {
    && l.lost <= l1.lost && l1.chains.Keys == l.chains.Keys
    && forall k :: k in l.chains ==> l.chains[k] <= l1.chains[k]
  }

  lemma {:induction false} LastOfChain(v: Volume, l: Layout, k: int, c: nat)
    requires WellFormed(v, l) && k in l.chains && c in l.chains[k]
    ensures c < |v.fat| && v.InVolume(c) && v.fat[c] != FREE
    ensures v.fat[c] >= END_OF_CHAIN ==> l.chains[k][|l.chains[k]| - 1] == c
  {
    var cs := l.chains[k];
    assert IsChain(v.fat, v.End(), cs);
    assert Owned(l, c);
    var i :| 0 <= i < |cs| && cs[i] == c;
    if i < |cs| - 1 { assert cs[i + 1] in cs && v.fat[cs[i]] == cs[i + 1]; }
  }

  lemma {:induction false} LinkLost(v: Volume, l: Layout, c: nat, n: nat)
    requires WellFormed(v, l) && v.InVolume(c) && v.InVolume(n) && v.fat[n] == FREE && !OnChain(l, c)
    ensures WellFormed(v.(fat := v.fat[c := n][n := LAST]), Lost(l, {c, n}))
  {
    hide IsChain, Disjoint, SlotsMatch, EndClosed;
    assert !Owned(l, n);
    LoseKeeps(v.fat, v.fat[c := n][n := LAST], v.End(), l, {c, n});
  }

  /** Linking a free cluster n behind any cluster whose chain has ended. */
  lemma {:induction false} LinkAnywhere(v: Volume, l: Layout, c: nat, n: nat) returns (l1: Layout)
    requires WellFormed(v, l) && v.InVolume(c) && v.InVolume(n) && v.fat[n] == FREE
    requires v.fat[c] >= END_OF_CHAIN || v.fat[c] == FREE
    ensures WellFormed(v.(fat := v.fat[c := n][n := LAST]), l1) && Spread(l, l1)
    ensures !OnChain(l, c) ==> l1 == Lost(l, {c, n})
    ensures !OnChain(l, n)
  {
    assert !Owned(l, n);
    if k :| k in l.chains && c in l.chains[k] {
      LastOfChain(v, l, k, c);
      LinkKeeps(v, l, k, n);
      l1 := Grown(l, k, n);
    } else {
      LinkLost(v, l, c, n);
      l1 := Lost(l, {c, n});
    }
  }

  lemma {:induction false} OneRound(v: Volume, l: Layout, c: nat, data: seq<byte>)
    requires WellFormed(v, l) && Follows(c) && v.Start(c) && data != []
    ensures c < |v.fat| && v.InVolume(c) && WellFormed(Put(v, c, data), l)
    ensures var va := Put(v, c, data); va.fat == v.fat && va.dir == v.dir && va.End() == v.End()
    ensures var va, next, rest := Put(v, c, data), v.fat[c], data[Min(SECTOR_SIZE, |data|)..];
            var n := FirstFree(v.fat, FIRST_CLUSTER);
            if rest != [] && (next >= END_OF_CHAIN || next == FREE) then
              if n == 0 then WriteChain(v, c, data) == (va, DiskFull)
              else
                && n < |v.fat| && n < 0x1000 && v.InVolume(n) && v.fat[n] == FREE
                && var vb := va.(fat := va.fat[c := n][n := LAST]);
                   vb.Sound() && WriteChain(v, c, data) == WriteChain(vb, n, rest)
            else va.Start(next) && WriteChain(v, c, data) == WriteChain(va, next, rest)
  {
    hide WriteChain, Accounts, SlotsMatch, EndClosed;
    WriteUnfolds(v, c, data);
    SameButData(v, Put(v, c, data), l);
  }

  /** A write that starts anywhere in the volume keeps the invariant. */
  lemma {:induction false} WriteAnywhereKeeps(v: Volume, l: Layout, c: nat, data: seq<byte>) returns (l1: Layout)
    requires WellFormed(v, l) && v.Start(c)
    ensures WellFormed(WriteChain(v, c, data).0, l1) && Spread(l, l1)
    decreases |data|
  {
    hide Accounts, SlotsMatch, EndClosed, Volume.Sound, WriteChain, Put;
    l1 := l;
    if data == [] || !Follows(c) {
      WriteUnfolds(v, c, data);
    } else {
      OneRound(v, l, c, data);
      var va, next, rest := Put(v, c, data), v.fat[c], data[Min(SECTOR_SIZE, |data|)..];
      if rest != [] && (next >= END_OF_CHAIN || next == FREE) {
        var n := FirstFree(v.fat, FIRST_CLUSTER);
        if n != 0 {
          var lb := LinkAnywhere(va, l, c, n);
          l1 := WriteAnywhereKeeps(va.(fat := va.fat[c := n][n := LAST]), lb, n, rest);
        }
      } else {
        l1 := WriteAnywhereKeeps(va, l, next, rest);
      }
    }
  }

  // ----- Contents ---------------------------------------------------------------

  /** Following m links from c leads to a cluster of some file's chain. */
  ghost predicate Hits(fat: seq<Entry>, l: Layout, c: nat, m: nat)
    decreases m
  {
    Follows(c) && c < |fat| && if m == 0 then OnChain(l, c) else Hits(fat, l, fat[c], m - 1)
  }

  /** The cluster m links on. */
  function Along(fat: seq<Entry>, c: nat, m: nat): nat
    decreases m
  {
    if m == 0 || c >= |fat| then c else Along(fat, fat[c], m - 1)
  }

  /** No cluster of any chain has changed. */
  ghost predicate Intact(l: Layout, before: seq<Sector>, after: seq<Sector>) {
    |after| == |before| && forall c: nat :: OnChain(l, c) ==> Cluster(after, c) == Cluster(before, c)
  }

  lemma {:induction false} PutIntact(v: Volume, l: Layout, c: nat, data: seq<byte>)
    requires !OnChain(l, c)
    ensures Intact(l, v.data, Put(v, c, data).data)
  {
    hide OnChain;
  }

  lemma {:induction false} SameChainsIntact(l: Layout, lb: Layout, before: seq<Sector>, after: seq<Sector>)
    requires lb.chains == l.chains && Intact(lb, before, after)
    ensures Intact(l, before, after)
  {
    forall c: nat | OnChain(l, c) ensures Cluster(after, c) == Cluster(before, c) {
      assert OnChain(lb, c);
    }
  }

  /** A cluster that was free ends its chain at once. */
  lemma {:induction false} NewClusterHitsNothing(fat: seq<Entry>, l: Layout, lb: Layout, n: nat)
    requires n < |fat| && fat[n] == LAST && !OnChain(l, n) && lb.chains == l.chains
    ensures forall m: nat :: !Hits(fat, lb, n, m)
  {
    assert !OnChain(lb, n);
    forall m: nat ensures !Hits(fat, lb, n, m) {
      if m > 0 { assert !Hits(fat, lb, LAST, m - 1); }
    }
  }

  /** A write that does not get to any file's cluster leaves all files alone. */
  lemma {:induction false} StrayWriteHarmless(v: Volume, l: Layout, c: nat, data: seq<byte>) returns (l1: Layout)
    requires WellFormed(v, l) && v.Start(c)
    requires forall m: nat :: SECTOR_SIZE * m < |data| ==> !Hits(v.fat, l, c, m)
    ensures WellFormed(WriteChain(v, c, data).0, l1) && l1.chains == l.chains
    ensures Intact(l, v.data, WriteChain(v, c, data).0.data)
    decreases |data|
  {
    hide Accounts, SlotsMatch, EndClosed, Volume.Sound, WriteChain, Put, OnChain;
    l1 := l;
    if data == [] || !Follows(c) {
      WriteUnfolds(v, c, data);
    } else {
      OneRound(v, l, c, data);
      assert SECTOR_SIZE * 0 < |data| && !Hits(v.fat, l, c, 0);
      var va, next, rest := Put(v, c, data), v.fat[c], data[Min(SECTOR_SIZE, |data|)..];
      PutIntact(v, l, c, data);
      if rest != [] && (next >= END_OF_CHAIN || next == FREE) {
        var n := FirstFree(v.fat, FIRST_CLUSTER);
        if n != 0 {
          var lb := LinkAnywhere(va, l, c, n);
          var vb := va.(fat := va.fat[c := n][n := LAST]);
          NewClusterHitsNothing(vb.fat, l, lb, n);
          l1 := StrayWriteHarmless(vb, lb, n, rest);
          SameChainsIntact(l, lb, va.data, WriteChain(vb, n, rest).0.data);
        }
      } else {
        forall m: nat | SECTOR_SIZE * m < |rest| ensures !Hits(v.fat, l, next, m) {
          assert SECTOR_SIZE * (m + 1) < |data| && !Hits(v.fat, l, c, m + 1);
        }
        l1 := StrayWriteHarmless(va, l, next, rest);
      }
    }
  }

  /** The bytes that reach the cluster m links on, and put b there. */
  function Reaching(m: nat, b: byte): (data: seq<byte>)
    ensures |data| == SECTOR_SIZE * m + 1
  {
    seq(SECTOR_SIZE * m, i => 0) + [b]
  }

  lemma {:induction false} PutThere(v: Volume, c: nat, data: seq<byte>)
    requires v.InVolume(c)
    ensures Cluster(Put(v, c, data).data, c) == Block(data)
  {
  }

  lemma {:induction false} StrayWriteHits(v: Volume, l: Layout, c: nat, m: nat, b: byte)
    requires WellFormed(v, l) && v.Start(c) && Hits(v.fat, l, c, m)
    ensures var x := Along(v.fat, c, m);
            OnChain(l, x) && Cluster(WriteChain(v, c, Reaching(m, b)).0.data, x) == Block([b])
    decreases m
  {
    hide Accounts, SlotsMatch, EndClosed, Volume.Sound, WriteChain, Put, OnChain, Block;
    var data := Reaching(m, b);
    OneRound(v, l, c, data);
    var va := Put(v, c, data);
    if m == 0 {
      WriteUnfolds(va, v.fat[c], []);
      assert data == [b];
      PutThere(v, c, data);
    } else {
      assert data[SECTOR_SIZE..] == Reaching(m - 1, b);
      StrayWriteHits(va, l, v.fat[c], m - 1, b);
    }
  }
}
