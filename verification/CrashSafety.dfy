/** What a power loss leaves behind: the states between the sector writes of file
    creation and of extension. */
module CrashSafety {
  import opened Bytes
  import opened SectorDevice
  import opened Volumes
  import opened FatTable
  import opened Chains
  import opened LogSpec
  import opened LogRefinement
  import opened Directory

  /** Every FAT entry of a cluster in use (by copy 0, the copy the program reads) is as it
      was, in every copy; so is every sector outside the FAT and outside [lo, end). */
  ghost predicate Intact(d: Disk, e: Disk, v: Volume, lo: nat, end: nat) {
    && (forall l: nat :: !InFat(v, l) && !(lo <= l < end) ==> Get(e, l) == Get(d, l))
    && (forall f: nat, c: nat :: f < v.numFats && c < v.EntryCount() && EntryAt(d, v, 0, c) != 0 ==>
          EntryAt(e, v, f, c) == EntryAt(d, v, f, c))
  }

  // ---- each kind of write keeps it ------------------------------------------------------

  /** Storing in some of the copies of a cluster that was free. */
  lemma StoreIntact(d: Disk, e: Disk, v: Volume, lo: nat, end: nat, c: nat, val: nat, n: nat)
    requires v.Layout() && Intact(d, e, v, lo, end) && val < ENTRY_LIMIT && n <= v.numFats
    requires c < v.EntryCount() && EntryAt(d, v, 0, c) == 0
    ensures Intact(d, WriteCopies(e, v, c, val, n), v, lo, end)
  {
    hide EntryAt, WriteCopies;
    WriteCopiesFrame(e, v, c, val, n);
    forall f: nat, b: nat | f < v.numFats && b < v.EntryCount() && EntryAt(d, v, 0, b) != 0
      ensures EntryAt(WriteCopies(e, v, c, val, n), v, f, b) == EntryAt(d, v, f, b)
    {
      WriteCopiesEntry(e, v, c, val, n, f, b);
    }
  }

  /** Any change of sectors of the region. */
  lemma RegionIntact(d: Disk, e: Disk, x: Disk, v: Volume, lo: nat, end: nat)
    requires v.Layout() && Intact(d, e, v, lo, end) && lo >= v.dataLba
    requires forall l: nat :: !(lo <= l < end) ==> Get(x, l) == Get(e, l)
    ensures Intact(d, x, v, lo, end)
  {
    hide EntryAt;
    SameFat(e, x, v);
    forall f: nat, b: nat | f < v.numFats && b < v.EntryCount() && EntryAt(d, v, 0, b) != 0
      ensures EntryAt(x, v, f, b) == EntryAt(d, v, f, b)
    {
      assert FatView(x, v, f)[b] == FatView(e, v, f)[b];
    }
  }

  /** The states a store passes through. */
  lemma TraceIntact(d: Disk, e: Disk, v: Volume, lo: nat, end: nat, c: nat, val: nat, n: nat)
    requires v.Layout() && Intact(d, e, v, lo, end) && val < ENTRY_LIMIT && n <= v.numFats
    requires c < v.EntryCount() && EntryAt(d, v, 0, c) == 0
    ensures forall k :: 0 <= k < n ==> Intact(d, CopyTrace(e, v, c, val, n)[k], v, lo, end)
  {
    hide Intact;
    forall k | 0 <= k < n ensures Intact(d, CopyTrace(e, v, c, val, n)[k], v, lo, end) {
      CopyTraceAt(e, v, c, val, n, k);
      StoreIntact(d, e, v, lo, end, c, val, k + 1);
    }
  }

  // ---- what an intact disk still holds ----------------------------------------------------

  /** Every chain of the old disk is a chain of the new one, in the same copy (in a
      further copy, provided the copies agreed). */
  lemma IntactChains(d: Disk, e: Disk, v: Volume, lo: nat, end: nat, f: nat, p: seq<nat>)
    requires Intact(d, e, v, lo, end) && f < v.numFats && IsChain(FatView(d, v, f), p)
    requires f == 0 || CopiesAgree(d, v)
    ensures IsChain(FatView(e, v, f), p)
  {
    hide EntryAt;
    var fat, g := FatView(d, v, f), FatView(e, v, f);
    forall c | 0 <= c < |fat| && fat[c] != 0 ensures g[c] == fat[c] {
      assert FatView(d, v, 0)[c] == EntryAt(d, v, 0, c);
    }
    ChainKept(fat, g, p);
  }

  /** No sector of [lo, end) belongs to a cluster in use. */
  ghost predicate SparesAllocated(v: Volume, fat: seq<nat>, lo: nat, end: nat) {
    forall c: nat, l: nat :: 2 <= c < |fat| && fat[c] != 0 && SectorOf(v, c, l) ==> !(lo <= l < end)
  }

  /** Where the region spares the clusters in use, every old file reads the same through its
      chain. */
  lemma IntactFiles(d: Disk, e: Disk, v: Volume, lo: nat, end: nat, p: seq<nat>)
    requires v.Layout() && SparesAllocated(v, FatView(d, v, 0), lo, end) && Intact(d, e, v, lo, end)
    requires IsChain(FatView(d, v, 0), p)
    ensures Clusters(p) && FileSectors(e, v, p) == FileSectors(d, v, p)
  {
    hide ChainLbas, Times, EntryAt, FatView;
    var fat := FatView(d, v, 0);
    var lbas := ChainLbas(v, p);
    forall j | 0 <= j < |lbas| ensures Get(e, lbas[j]) == Get(d, lbas[j]) {
      var i, t := Decompose(j, |p|, v.secPerClus);
      ChainLbaAt(v, p, i, t);
      assert fat[p[i]] != 0 by {
        if i < |p| - 1 { assert fat[p[i]] == p[i + 1]; }
      }
      assert SectorOf(v, p[i], lbas[j]);
    }
    assert Read(e, lbas) == Read(d, lbas);
  }

  /** ... and so does every slot of the directory, hence every scan of it. */
  lemma IntactDirectory(d: Disk, e: Disk, v: Volume, hi: nat, lo: nat, end: nat, p: seq<nat>,
                        name: seq<byte>)
    requires RootChain(d, v, hi, p)
    requires SparesAllocated(v, FatView(d, v, 0), lo, end) && Intact(d, e, v, lo, end)
    ensures Slots(e, ChainLbas(v, p)) == Slots(d, ChainLbas(v, p))
    ensures Scan(Slots(e, ChainLbas(v, p)), name) == Scan(Slots(d, ChainLbas(v, p)), name)
  {
    IntactFiles(d, e, v, lo, end, p);
    hide ChainLbas, Times, EntryAt, FatView, Scan, IsChain;
    var lbas := ChainLbas(v, p);
    var a, b := Slots(d, lbas), Slots(e, lbas);
    forall n | 0 <= n < |a| ensures a[n] == b[n] {
      assert Read(d, lbas)[n / SLOTS_PER_SECTOR] == Read(e, lbas)[n / SLOTS_PER_SECTOR];
    }
    assert a == b;
  }

  // ---- zero-filling counts addresses, not clusters ---------------------------------------

  /** The linear region of n sectors belongs to the chain. */
  ghost predicate RegionIsOwn(v: Volume, p: seq<nat>, n: nat)
    requires Clusters(p) && |p| > 0
  {
    forall l: nat :: ClusterStart(v, p[0]) <= l < ClusterStart(v, p[0]) + n ==> l in ChainLbas(v, p)
  }

  lemma {:induction false} OwnCluster(v: Volume, p: seq<nat>, n: nat, i: nat)
    requires Clusters(p) && i < |p| && v.secPerClus >= 1
    requires Times(|p| - 1, v.secPerClus) < n && RegionIsOwn(v, p, n)
    ensures p[0] + i in p
  {
    hide Times, ChainLbas;
    var l := ClusterStart(v, p[0]) + Times(i, v.secPerClus);
    TimesMono(i, |p| - 1, v.secPerClus);
    StretchStart(v, p[0], i);
    assert l in ChainLbas(v, p);
    var j :| 0 <= j < |ChainLbas(v, p)| && ChainLbas(v, p)[j] == l;
    var b, t := Decompose(j, |p|, v.secPerClus);
    ChainLbaAt(v, p, b, t);
    DataSectorsApart(v, p[b], t, p[0] + i, 0);
  }

  lemma {:induction false} OwnRunContiguous(p: seq<nat>, i: nat)
    requires Increasing(p) && i < |p| && forall c: nat :: p[0] <= c <= p[0] + i ==> c in p
    ensures p[i] == p[0] + i
    decreases i
  {
    if i > 0 {
      OwnRunContiguous(p, i - 1);
      assert p[0] + i in p;
      var b :| 0 <= b < |p| && p[b] == p[0] + i;
      assert p[i - 1] < p[i];
    }
  }

  /** Erasing and zero-filling n sectors from the start of the first cluster stays inside
      the new file exactly when the clusters taken are consecutive; otherwise it destroys
      sectors of clusters the file does not own. */
  lemma ZeroFillStaysInsideIff(v: Volume, p: seq<nat>, n: nat)
    requires Clusters(p) && |p| > 0 && Increasing(p) && v.secPerClus >= 1
    requires Times(|p| - 1, v.secPerClus) < n <= Times(|p|, v.secPerClus)
    ensures RegionIsOwn(v, p, n) <==> Contiguous(p)
  {
    hide Times, ChainLbas;
    if RegionIsOwn(v, p, n) {
      forall c: nat | p[0] <= c < p[0] + |p| ensures c in p {
        OwnCluster(v, p, n, c - p[0]);
      }
      forall i | 0 <= i < |p| ensures p[i] == p[0] + i {
        OwnRunContiguous(p, i);
      }
    }
    if Contiguous(p) {
      forall l: nat | ClusterStart(v, p[0]) <= l < ClusterStart(v, p[0]) + n ensures l in ChainLbas(v, p) {
        ContiguousLba(v, p, l - ClusterStart(v, p[0]));
      }
    }
  }

  /** A cluster the allocator stepped over is in use. */
  lemma SteppedOver(fat: seq<nat>, hi: nat, n: nat, i: nat)
    requires hi <= |fat| && hi < EOC_MIN && n <= |FreeList(fat, 2, hi)| && 0 < i < n
    requires var p := FreeList(fat, 2, hi); p[i - 1] + 1 < p[i]
    ensures var c := FreeList(fat, 2, hi)[i - 1] + 1; c < hi && fat[c] != 0
  {
    hide FreeList;
    FreeListSound(fat, 2, hi);
    var p := FreeList(fat, 2, hi);
    var c := p[i - 1] + 1;
    NotListed(p, i, c);
    if fat[c] == 0 {
      FreeListComplete(fat, 2, hi, c);
    }
  }

  lemma NotListed(p: seq<nat>, i: nat, c: nat)
    requires Increasing(p) && 0 < i < |p| && p[i - 1] < c < p[i]
    ensures c !in p
  {
    forall j | 0 <= j < |p| ensures p[j] != c {
      assert j < i - 1 ==> p[j] < p[i - 1];
      assert i < j ==> p[i] < p[j];
    }
  }

  /** The first gap among the clusters taken, if there is one. */
  lemma {:induction false} FirstGap(p: seq<nat>, m: nat) returns (i: nat)
    requires Increasing(p) && m <= |p| && exists j :: 0 <= j < m && p[j] != p[0] + j
    ensures 0 < i < m && p[i - 1] == p[0] + (i - 1) && p[i - 1] + 1 < p[i]
    ensures forall j :: 0 <= j < i ==> p[j] == p[0] + j
  {
    if j :| 0 <= j < m - 1 && p[j] != p[0] + j {
      i := FirstGap(p, m - 1);
    } else {
      i := m - 1;
      assert p[i] != p[0] + i;
      assert p[i - 1] < p[i];
    }
  }

  /** The allocator's own clusters: erasing and zero-filling spares every cluster in use
      exactly when the clusters taken are consecutive. Every gap is a cluster in use, and
      the fill overwrites it. */
  lemma ZeroFillSparesIff(v: Volume, fat: seq<nat>, hi: nat, n: nat, nSectors: nat)
    requires hi <= |fat| && hi < EOC_MIN && 0 < n <= |FreeList(fat, 2, hi)| && v.secPerClus >= 1
    requires Times(n - 1, v.secPerClus) < nSectors <= Times(n, v.secPerClus)
    ensures Clusters(FreeList(fat, 2, hi)[..n])
    ensures var p := FreeList(fat, 2, hi)[..n];
            var start := ClusterStart(v, p[0]);
            && (SparesAllocated(v, fat, start, start + nSectors) <==> Contiguous(p))
            && (RegionIsOwn(v, p, nSectors) <==> Contiguous(p))
  {
    hide FreeList, Times, RegionIsOwn;
    FreeListSound(fat, 2, hi);
    var p := FreeList(fat, 2, hi)[..n];
    ZeroFillStaysInsideIff(v, p, nSectors);
    var start := ClusterStart(v, p[0]);
    if Contiguous(p) {
      forall c: nat, l: nat | 2 <= c < |fat| && fat[c] != 0 && SectorOf(v, c, l)
        ensures !(start <= l < start + nSectors)
      {
        if start <= l < start + nSectors {
          var i, x := Decompose(l - start, n, v.secPerClus);
          StretchStart(v, p[0], i);
          assert p[i] == p[0] + i;
          DataSectorsApart(v, c, l - ClusterStart(v, c), p[i], x);
          assert false;
        }
      }
    } else {
      var i := FirstGap(p, n);
      SteppedOver(fat, hi, n, i);
      StretchStart(v, p[0], i);
      TimesMono(i, n - 1, v.secPerClus);
      assert SectorOf(v, p[0] + i, ClusterStart(v, p[0] + i));
    }
  }

  /** Consecutive lowest free clusters are a free suffix of the range that ends behind them,
      and the other way round: the range a placement theorem is applied to need not reach
      beyond the first stretch of free clusters. */
  lemma StretchIffSuffix(fat: seq<nat>, hi: nat, n: nat)
    requires hi <= |fat| && hi < EOC_MIN && 0 < n <= |FreeList(fat, 2, hi)|
    ensures var p := FreeList(fat, 2, hi)[..n];
            Contiguous(p) <==> p[0] + n <= hi && FreeSuffix(fat, p[0], p[0] + n)
  {
    hide FreeList;
    FreeListSound(fat, 2, hi);
    var all := FreeList(fat, 2, hi);
    var p := all[..n];
    if Contiguous(p) {
      assert p[n - 1] == p[0] + (n - 1);
      forall c | 2 <= c < p[0] + n ensures fat[c] == 0 <==> c >= p[0] {
        if c >= p[0] { assert p[c - p[0]] == c; }
        if fat[c] == 0 {
          FreeListComplete(fat, 2, hi, c);
          assert c in all;
        }
      }
    } else if p[0] + n <= hi && FreeSuffix(fat, p[0], p[0] + n) {
      var i := FirstGap(p, n);
      assert fat[p[i - 1] + 1] == 0;
      SteppedOver(fat, hi, n, i);
      assert false;
    }
  }

  // ---- the window inside an extension ------------------------------------------------------

  lemma {:induction false} FollowsOld(fat: seq<nat>, g: seq<nat>, p: seq<nat>, q: seq<nat>, i: nat)
    requires IsChain(fat, p) && IsChain(g, q) && |g| == |fat| && q[0] == p[0] && i < |p|
    requires forall c :: 0 <= c < |fat| && c != p[|p| - 1] ==> g[c] == fat[c]
    requires g[p[|p| - 1]] < EOC_MIN
    ensures i < |q| && q[i] == p[i]
    decreases i
  {
    if i > 0 {
      FollowsOld(fat, g, p, q, i - 1);
      ChainAcyclic(fat, p);
      assert fat[p[i - 1]] == p[i];
      assert p[i - 1] != p[|p| - 1];
    }
  }

  lemma ChainPointsAtUsed(g: seq<nat>, q: seq<nat>, j: nat)
    requires IsChain(g, q) && j < |q| && g[q[j]] < EOC_MIN
    ensures g[q[j]] < |g| && g[g[q[j]]] != 0
  {
    assert j < |q| - 1;
    assert g[q[j]] == q[j + 1];
    assert j + 1 < |q| - 1 ==> g[q[j + 1]] == q[j + 2];
  }

  /** On a FAT that holds only the first of an extension's two stores the file has no
      terminated chain, and its new cluster still counts as free. */
  lemma HalfExtended(fat: seq<nat>, p: seq<nat>, c: nat)
    requires IsChain(fat, p) && 2 <= c < |fat| && c < EOC_MIN && fat[c] == 0
    ensures var half := fat[p[|p| - 1] := c];
            half[c] == 0 && forall q :: IsChain(half, q) ==> q[0] != p[0]
  {
    var last := p[|p| - 1];
    var half := fat[last := c];
    ChainAcyclic(fat, p);
    forall q | IsChain(half, q) ensures q[0] != p[0] {
      if q[0] == p[0] {
        FollowsOld(fat, half, p, q, |p| - 1);
        ChainPointsAtUsed(half, q, |p| - 1);
        assert false;
      }
    }
  }

  lemma FullyExtended(fat: seq<nat>, p: seq<nat>, c: nat)
    requires IsChain(fat, p) && 2 <= c < |fat| && c < EOC_MIN && fat[c] == 0
    ensures IsChain(Extended(fat, p[|p| - 1], c), p + [c])
  {
    var last := p[|p| - 1];
    ChainAcyclic(fat, p);
    var g := Extended(fat, last, c);
    var e := p + [c];
    forall i | 0 <= i < |p| ensures fat[p[i]] != 0 && g[p[i]] == e[i + 1] {
      if i < |p| - 1 { assert fat[p[i]] == p[i + 1] && p[i] != last; }
    }
  }

  /** The disk after the first m sector writes of an extension's two stores: the link in
      every copy, then the end mark in every copy. */
  function AfterStores(d: Disk, v: Volume, last: nat, c: nat, m: nat): Disk
    requires c < ENTRY_LIMIT
  {
    if m <= v.numFats then WriteCopies(d, v, last, c, m)
    else WriteCopies(WriteEntry(d, v, last, c), v, c, EOC, m - v.numFats)
  }

  /** Copy f after m writes: as it was, with the link alone, or extended. */
  lemma CopyAfterStores(d: Disk, v: Volume, last: nat, c: nat, m: nat, f: nat)
    requires v.Layout() && f < v.numFats && m <= 2 * v.numFats
    requires last < v.EntryCount() && c < v.EntryCount() && c < ENTRY_LIMIT
    ensures var fat := FatView(d, v, f);
            FatView(AfterStores(d, v, last, c, m), v, f) ==
            if m <= f then fat else if m <= v.numFats + f then fat[last := c] else Extended(fat, last, c)
  {
    hide WriteCopies, FatView;
    if m <= v.numFats {
      WriteCopiesView(d, v, last, c, m, f);
    } else {
      WriteCopiesView(d, v, last, c, v.numFats, f);
      WriteCopiesView(WriteEntry(d, v, last, c), v, c, EOC, m - v.numFats, f);
    }
  }

  ghost predicate StartsChain(fat: seq<nat>, first: nat) {
    exists q :: IsChain(fat, q) && q[0] == first
  }

  /** The window of an extension, for every power loss between its writes and every FAT copy:
      the copy still has a terminated chain for the file exactly when neither of its two
      stores or both of them have reached it. */
  lemma ExtensionWindow(d: Disk, v: Volume, p: seq<nat>, c: nat, m: nat, f: nat)
    requires v.Layout() && f < v.numFats && m <= 2 * v.numFats
    requires IsChain(FatView(d, v, f), p) && 2 <= c < v.EntryCount() && c < EOC_MIN && FatView(d, v, f)[c] == 0
    ensures p[|p| - 1] < v.EntryCount()
    ensures var fat := FatView(AfterStores(d, v, p[|p| - 1], c, m), v, f);
            && (StartsChain(fat, p[0]) <==> m <= f || m > v.numFats + f)
            && (m <= f ==> IsChain(fat, p))
            && (m > v.numFats + f ==> IsChain(fat, p + [c]))
  {
    hide FatView, AfterStores;
    var fat := FatView(d, v, f);
    assert p[|p| - 1] < |fat|;
    hide IsChain;
    CopyAfterStores(d, v, p[|p| - 1], c, m, f);
    HalfExtended(fat, p, c);
    FullyExtended(fat, p, c);
    assert (p + [c])[0] == p[0] by { ChainNonEmpty(fat, p); }
  }

  lemma ChainNonEmpty(fat: seq<nat>, p: seq<nat>)
    requires IsChain(fat, p)
    ensures |p| > 0
  {}

  /** e differs from d in the sectors of [lo, end) only. */
  ghost predicate SameOutside(d: Disk, e: Disk, lo: nat, end: nat) {
    forall l: nat :: !(lo <= l < end) ==> Get(e, l) == Get(d, l)
  }

  ghost predicate AllSameOutside(d: Disk, lo: nat, end: nat, states: seq<Disk>) {
    forall k :: 0 <= k < |states| ==> SameOutside(d, states[k], lo, end)
  }

  /** A state an extension by cluster c may be cut short in: between the FAT writes, or with
      both stores complete while the new cluster is erased and filled. */
  ghost predicate DuringExtension(d: Disk, v: Volume, last: nat, c: nat, e: Disk)
    requires c < ENTRY_LIMIT
  {
    || (exists m: nat :: m <= 2 * v.numFats && e == AfterStores(d, v, last, c, m))
    || (var lba := ClusToLba(v, c);
        SameOutside(AfterStores(d, v, last, c, 2 * v.numFats), e, lba, lba + v.secPerClus))
  }

  /** In the fill phase every copy has the longer chain already. */
  lemma FillKeepsChain(d: Disk, v: Volume, p: seq<nat>, c: nat, f: nat, lo: nat, end: nat, e: Disk)
    requires v.Layout() && f < v.numFats && lo >= v.dataLba
    requires IsChain(FatView(d, v, f), p) && 2 <= c < v.EntryCount() && c < EOC_MIN && FatView(d, v, f)[c] == 0
    requires SameOutside(AfterStores(d, v, p[|p| - 1], c, 2 * v.numFats), e, lo, end)
    ensures IsChain(FatView(e, v, f), p + [c])
  {
    hide FatView, AfterStores, Times;
    ExtensionWindow(d, v, p, c, 2 * v.numFats, f);
    SameFat(AfterStores(d, v, p[|p| - 1], c, 2 * v.numFats), e, v);
  }

  ghost predicate AllDuring(d: Disk, v: Volume, last: nat, c: nat, states: seq<Disk>)
    requires c < ENTRY_LIMIT
  {
    forall k :: 0 <= k < |states| ==> DuringExtension(d, v, last, c, states[k])
  }

  lemma LinkPhase(d: Disk, v: Volume, last: nat, c: nat, n: nat)
    requires c < ENTRY_LIMIT && n <= v.numFats
    ensures DuringExtension(d, v, last, c, WriteCopies(d, v, last, c, n))
    ensures AllDuring(d, v, last, c, CopyTrace(d, v, last, c, n))
  {
    hide WriteCopies, ClusToLba;
    assert AfterStores(d, v, last, c, n) == WriteCopies(d, v, last, c, n);
    forall k | 0 <= k < n ensures DuringExtension(d, v, last, c, CopyTrace(d, v, last, c, n)[k]) {
      CopyTraceAt(d, v, last, c, n, k);
      assert AfterStores(d, v, last, c, k + 1) == CopyTrace(d, v, last, c, n)[k];
    }
  }

  lemma EndMarkPhase(d: Disk, v: Volume, last: nat, c: nat, n: nat)
    requires c < ENTRY_LIMIT && n <= v.numFats && v.numFats >= 1
    ensures var e := WriteEntry(d, v, last, c);
            && DuringExtension(d, v, last, c, WriteCopies(e, v, c, EOC, n))
            && AllDuring(d, v, last, c, CopyTrace(e, v, c, EOC, n))
            && (n == v.numFats ==> WriteCopies(e, v, c, EOC, n) == AfterStores(d, v, last, c, 2 * v.numFats))
  {
    hide WriteCopies, ClusToLba, AfterStores, CopyTrace;
    var e := WriteEntry(d, v, last, c);
    AfterLink(d, v, last, c, n);
    assert AfterStores(d, v, last, c, v.numFats + n) == WriteCopies(e, v, c, EOC, n);
    forall k | 0 <= k < n ensures DuringExtension(d, v, last, c, CopyTrace(e, v, c, EOC, n)[k]) {
      AfterLink(d, v, last, c, k + 1);
      CopyTraceAt(e, v, c, EOC, n, k);
      assert AfterStores(d, v, last, c, v.numFats + (k + 1)) == CopyTrace(e, v, c, EOC, n)[k];
    }
  }

  lemma AfterLink(d: Disk, v: Volume, last: nat, c: nat, n: nat)
    requires c < ENTRY_LIMIT && n <= v.numFats
    ensures AfterStores(d, v, last, c, v.numFats + n) == WriteCopies(WriteEntry(d, v, last, c), v, c, EOC, n)
  {
    hide WriteCopies;
    NoCopies(WriteEntry(d, v, last, c), v, c, EOC);
  }

  lemma FillPhase(d: Disk, v: Volume, last: nat, c: nat, states: seq<Disk>, e: Disk)
    requires c < ENTRY_LIMIT
    requires var all, lba := AfterStores(d, v, last, c, 2 * v.numFats), ClusToLba(v, c);
             && AllSameOutside(all, lba, lba + v.secPerClus, states)
             && SameOutside(all, e, lba, lba + v.secPerClus)
    ensures AllDuring(d, v, last, c, states) && DuringExtension(d, v, last, c, e)
  {
    hide ClusToLba, AfterStores, SameOutside;
  }

  lemma DuringMore(d: Disk, v: Volume, last: nat, c: nat, a: seq<Disk>, b: seq<Disk>)
    requires c < ENTRY_LIMIT && AllDuring(d, v, last, c, a) && AllDuring(d, v, last, c, b)
    ensures AllDuring(d, v, last, c, a + b)
  {
    hide DuringExtension;
  }

  // ---- other files ----------------------------------------------------------------------------------

  /** A step of the log keeps every chain that is disjoint from its own. */
  lemma StepKeepsChain(d: Disk, v: Volume, hi: nat, s: LogState, content: seq<Sector>, op: FileOp,
                       r: seq<nat>)
    requires LogInv(d, v, hi, s, content) && Enabled(d, v, hi, s, op) && s.firstClus <= s.lastClus
    requires IsChain(FatView(d, v, 0), r) && Disjoint(LogChain(s), r)
    ensures var (e, t) := Step(d, v, hi, s, op);
            IsChain(FatView(e, v, 0), r) && t.firstClus <= t.lastClus && Disjoint(LogChain(t), r)
  {
    hide FatView, IsChain, Holds, Times, WithCluster, FreeSuffix, CopiesAgree, Disjoint, WithSize;
    match op {
      case Append(data) =>
        if Full(s) {
          ExtensionKeepsChain(d, v, hi, s, r);
          ExtendKeeps(d, v, hi, s, content);
          var (b, u) := Extend(d, v, hi, s);
          InDataRegion(b, v, hi, u, content);
          FatUntouched(b, v, u.curLba, data);
        } else {
          InDataRegion(d, v, hi, s, content);
          FatUntouched(d, v, s.curLba, data);
        }
      case UpdateSize =>
        InDataRegion(d, v, hi, s, content);
        FatUntouched(d, v, s.dirLba, WithSize(Get(d, s.dirLba), s.dirOffset, s.bytesWritten));
    }
  }

  lemma FatUntouched(d: Disk, v: Volume, lba: nat, data: Sector)
    requires v.Layout() && lba >= v.dataLba
    ensures FatView(d[lba := data], v, 0) == FatView(d, v, 0)
  {
    hide FatView, CopiesAgree;
    SameFat(d, d[lba := data], v);
  }

  lemma InDataRegion(d: Disk, v: Volume, hi: nat, s: LogState, content: seq<Sector>)
    requires LogInv(d, v, hi, s, content)
    ensures v.Layout() && s.curLba >= v.dataLba && s.dirLba >= v.dataLba
  {
    hide FatView, IsChain, Holds, Times, FreeSuffix, CopiesAgree;
  }

  lemma ExtensionKeepsChain(d: Disk, v: Volume, hi: nat, s: LogState, r: seq<nat>)
    requires FatPart(d, v, hi, s) && |FreeOnDisk(d, v, hi)| > 0 && s.firstClus <= s.lastClus
    requires IsChain(FatView(d, v, 0), r) && Disjoint(LogChain(s), r)
    ensures var (e, t) := Extend(d, v, hi, s);
            IsChain(FatView(e, v, 0), r) && t.firstClus <= t.lastClus && Disjoint(LogChain(t), r)
  {
    hide FatView, IsChain, Times, WithCluster, FreeList, CopiesAgree, FreeSuffix;
    NextCluster(d, v, hi, s);
    ExtendFat(d, v, hi, s);
    WithClusterView(d, v, hi, s.lastClus, s.lastClus + 1);
    ExtensionEffect(FatView(d, v, 0), hi, LogChain(s));
    var (e, t) := Extend(d, v, hi, s);
    assert LogChain(t) == LogChain(s) + [s.lastClus + 1];
    assert LogChain(s)[|LogChain(s)| - 1] == s.lastClus;
  }

  lemma OnLogChain(s: LogState, c: nat)
    requires s.firstClus <= s.lastClus
    ensures c in LogChain(s) <==> s.firstClus <= c <= s.lastClus
  {
    if s.firstClus <= c <= s.lastClus {
      assert LogChain(s)[c - s.firstClus] == c;
    }
  }

  /** The sectors of such a chain lie apart from those the log may write. */
  lemma {:induction false} ChainApart(d: Disk, v: Volume, hi: nat, s: LogState, r: seq<nat>, j: nat)
    requires FatPart(d, v, hi, s) && IsChain(FatView(d, v, 0), r) && Disjoint(LogChain(s), r) && Clusters(r)
    requires j < Times(|r|, v.secPerClus)
    ensures Apart(v, hi, s.firstClus, ChainLbas(v, r)[j])
  {
    hide ChainLbas, Times, FatView, CopiesAgree;
    var fat := FatView(d, v, 0);
    var i, x := Decompose(j, |r|, v.secPerClus);
    ChainLbaAt(v, r, i, x);
    var c := r[i];
    assert fat[c] != 0 by {
      if i < |r| - 1 { assert fat[r[i]] == r[i + 1]; }
    }
    OnLogChain(s, c);
    assert c !in LogChain(s);
    if c < s.firstClus { ClusterOrder(v, c, s.firstClus); }
    if hi < c { ClusterOrder(v, hi, c); }
  }

  lemma {:induction false} RunKeepsChain(d: Disk, v: Volume, hi: nat, s: LogState, content: seq<Sector>,
                                         ops: seq<FileOp>, r: seq<nat>)
    requires LogInv(d, v, hi, s, content) && CanRun(d, v, hi, s, ops) && s.firstClus <= s.lastClus
    requires IsChain(FatView(d, v, 0), r) && Disjoint(LogChain(s), r)
    ensures IsChain(FatView(Run(d, v, hi, s, ops).0, v, 0), r)
    decreases |ops|
  {
    hide LogInv, Step, Enabled, IsChain, FatView, Disjoint;
    if ops != [] {
      StepKeepsChain(d, v, hi, s, content, ops[0], r);
      StepKeeps(d, v, hi, s, content, ops[0]);
      var (e, t) := Step(d, v, hi, s, ops[0]);
      RunKeepsChain(e, v, hi, t, content + Appended([ops[0]]), ops[1..], r);
    }
  }

  /** Sector j of the file with chain r is as it was; if it is the directory sector of the log,
      only the size field of the log's own entry may differ. */
  ghost predicate SectorKept(d: Disk, e: Disk, v: Volume, s: LogState, r: seq<nat>, j: nat)
    requires Clusters(r) && j < |ChainLbas(v, r)| && s.dirOffset + 32 <= SECTOR_SIZE
  {
    var l := ChainLbas(v, r)[j];
    if l == s.dirLba then SameButSize(Get(d, l), Get(e, l), s.dirOffset) else Get(e, l) == Get(d, l)
  }

  /** Other files survive: over any run, each chain disjoint from the log's stays a chain in
      every FAT copy, and its sectors read the same. */
  lemma OtherFilesKept(d: Disk, v: Volume, hi: nat, s: LogState, content: seq<Sector>,
                       ops: seq<FileOp>, r: seq<nat>)
    requires LogInv(d, v, hi, s, content) && CanRun(d, v, hi, s, ops) && s.firstClus <= s.lastClus
    requires IsChain(FatView(d, v, 0), r) && Disjoint(LogChain(s), r)
    ensures Clusters(r) && s.dirOffset + 32 <= SECTOR_SIZE
    ensures var e := Run(d, v, hi, s, ops).0;
            && (forall f: nat :: f < v.numFats ==> IsChain(FatView(e, v, f), r))
            && forall j :: 0 <= j < |ChainLbas(v, r)| ==> SectorKept(d, e, v, s, r, j)
  {
    hide ChainLbas, Times, FatView, Run, CanRun, Holds, FreeSuffix, Apart, SameButSize, Disjoint;
    assert Clusters(r);
    hide IsChain;
    RunKeepsChain(d, v, hi, s, content, ops, r);
    RunOthers(d, v, hi, s, content, ops);
    RunKeeps(d, v, hi, s, content, ops);
    var (e, t) := Run(d, v, hi, s, ops);
    forall f: nat | f < v.numFats ensures IsChain(FatView(e, v, f), r) {
      assert FatView(e, v, f) == FatView(e, v, 0);
    }
    forall j | 0 <= j < |ChainLbas(v, r)| ensures SectorKept(d, e, v, s, r, j) {
      ChainApart(d, v, hi, s, r, j);
    }
  }

  /** The same from before the creation on: every file the card had is still there, whole. */
  lemma OldFilesKept(d: Disk, v: Volume, hi: nat, k: nat, name: seq<byte>, size: nat, dirLba: nat,
                     dirOffset: nat, ops: seq<FileOp>, r: seq<nat>, j: nat)
    requires |name| == 11 && Creatable(d, v, hi, k, size, dirLba, dirOffset)
    requires ClustersFor(v, size / SECTOR_SIZE) <= |FreeOnDisk(d, v, hi)|
    requires var (b, s) := Create(d, v, hi, name, size, dirLba, dirOffset); CanRun(b, v, hi, s, ops)
    requires IsChain(FatView(d, v, 0), r)
    ensures Clusters(r)
    ensures var (b, s) := Create(d, v, hi, name, size, dirLba, dirOffset);
            var e := Run(b, v, hi, s, ops).0;
            && (forall f: nat :: f < v.numFats ==> IsChain(FatView(e, v, f), r))
            && (j < |ChainLbas(v, r)| && ChainLbas(v, r)[j] != dirLba ==>
                  Get(e, ChainLbas(v, r)[j]) == Get(d, ChainLbas(v, r)[j]))
  {
    hide ChainLbas, Times, Run, CanRun, FreeSuffix, CopiesAgree, Apart, LogInv, NewFile, ClustersFor, FreeOnDisk,
         DirEntry, SameButSize;
    CreateSuffix(d, v, hi, k, name, size, dirLba, dirOffset);
    CreateOpensLog(d, v, hi, k, name, size, dirLba, dirOffset);
    var (b, s) := Create(d, v, hi, name, size, dirLba, dirOffset);
    hide Create;
    CreationKeepsChain(d, v, hi, k, size, s, DirEntry(name, k, size), r, j);
    OtherFilesKept(b, v, hi, s, [], ops, r);
    if j < |ChainLbas(v, r)| {
      assert SectorKept(b, Run(b, v, hi, s, ops).0, v, s, r, j);
    }
  }

  lemma CreationKeepsChain(d: Disk, v: Volume, hi: nat, k: nat, size: nat, s: LogState,
                           entry: seq<byte>, r: seq<nat>, j: nat)
    requires |entry| == 32 && Creatable(d, v, hi, k, size, s.dirLba, s.dirOffset) && IsChain(FatView(d, v, 0), r)
    requires s.firstClus == k && s.lastClus == k + ClustersFor(v, size / SECTOR_SIZE) - 1
    ensures Clusters(r) && s.firstClus <= s.lastClus
    ensures var start, n := ClusterStart(v, k), ClustersFor(v, size / SECTOR_SIZE);
            var b := NewFile(d, v, Range(k, k + n), start, start + size / SECTOR_SIZE, s.dirLba, s.dirOffset, entry);
            && IsChain(FatView(b, v, 0), r) && Disjoint(LogChain(s), r)
            && (j < |ChainLbas(v, r)| && ChainLbas(v, r)[j] != s.dirLba ==>
                  Get(b, ChainLbas(v, r)[j]) == Get(d, ChainLbas(v, r)[j]))
  {
    hide ChainLbas, Times, LinkDisk, ZeroRange, Splice, CopiesAgree, FatView, Apart, ClustersFor, IsChain, FatPart,
         Range, FreeSuffix, Disjoint;
    var n := ClustersFor(v, size / SECTOR_SIZE);
    var start := ClusterStart(v, k);
    var z := ZeroRange(LinkDisk(d, v, Range(k, k + n)), start, start + size / SECTOR_SIZE);
    CreationFat(d, v, hi, k, n, size / SECTOR_SIZE, s, r);
    NewFileFat(d, v, hi, k, n, size / SECTOR_SIZE, s);
    var data := Splice(Get(z, s.dirLba), s.dirOffset, entry);
    FatUntouched(z, v, s.dirLba, data);
    if j < |ChainLbas(v, r)| && ChainLbas(v, r)[j] != s.dirLba {
      ChainApart(z, v, hi, s, r, j);
      RegionBelow(v, hi, k, n, size / SECTOR_SIZE, ChainLbas(v, r)[j]);
      GetUpdate(z, s.dirLba, data, ChainLbas(v, r)[j]);
    }
  }

  lemma CreationFat(d: Disk, v: Volume, hi: nat, k: nat, n: nat, nSectors: nat, s: LogState,
                    r: seq<nat>)
    requires v.Fits(hi) && 2 <= k && 1 <= n && k + n <= hi && FreeSuffix(FatView(d, v, 0), k, hi)
    requires IsChain(FatView(d, v, 0), r) && s.firstClus == k && s.lastClus == k + n - 1
    ensures Clusters(r)
    ensures var start := ClusterStart(v, k);
            var z := ZeroRange(LinkDisk(d, v, Range(k, k + n)), start, start + nSectors);
            IsChain(FatView(z, v, 0), r) && Disjoint(LogChain(s), r)
  {
    hide Times, LinkDisk, ZeroRange, Linked, FreeList, FatView;
    assert Clusters(r);
    var p, start := Range(k, k + n), ClusterStart(v, k);
    SuffixFreeList(FatView(d, v, 0), k, hi);
    RangePrefix(k, n, hi);
    hide IsChain, FreeSuffix, Disjoint, Range;
    AllocationEffect(FatView(d, v, 0), hi, n);
    assert LogChain(s) == p;
    LinkedOnDisk(d, v, hi, k, n);
    ZeroRangeFat(LinkDisk(d, v, p), v, start, start + nSectors);
  }

  lemma LinkedOnDisk(d: Disk, v: Volume, hi: nat, k: nat, n: nat)
    requires v.Fits(hi) && 2 <= k && 1 <= n && k + n <= hi
    ensures FatView(LinkDisk(d, v, Range(k, k + n)), v, 0) == Linked(FatView(d, v, 0), Range(k, k + n))
  {
    hide LinkDisk, FatView, Linked;
    LinkDiskView(d, v, Range(k, k + n));
  }

  lemma RegionBelow(v: Volume, hi: nat, k: nat, n: nat, nSectors: nat, l: nat)
    requires v.Fits(hi) && 2 <= k && k + n <= hi && nSectors <= Times(n, v.secPerClus) && Apart(v, hi, k, l)
    ensures !InFat(v, l) && !(ClusterStart(v, k) <= l < ClusterStart(v, k) + nSectors)
  {
    hide Times;
    StretchFits(v, hi, k, n, nSectors);
  }

  /** ... and in every state an extension may be cut short in. */
  lemma ExtensionSparesOthers(d: Disk, v: Volume, last: nat, c: nat, e: Disk, f: nat, r: seq<nat>)
    requires v.Layout() && f < v.numFats && last < v.EntryCount() && 2 <= c < v.EntryCount() && c < EOC_MIN
    requires DuringExtension(d, v, last, c, e) && ClusToLba(v, c) == ClusterStart(v, c)
    requires IsChain(FatView(d, v, f), r) && FatView(d, v, f)[c] == 0 && last !in r
    ensures IsChain(FatView(e, v, f), r) && Clusters(r) && FileSectors(e, v, r) == FileSectors(d, v, r)
  {
    hide DuringExtension, FatView, ChainLbas, Times, Volume.Layout;
    DuringFat(d, v, last, c, e, f);
    DuringFrame(d, v, last, c, e);
    OthersStay(FatView(d, v, f), FatView(e, v, f), last, c, r);
    forall l | l in ChainLbas(v, r) ensures Get(e, l) == Get(d, l) {
      OutsideNew(v, r, c, l);
    }
    SameRead(d, e, ChainLbas(v, r));
  }

  lemma SameRead(d: Disk, e: Disk, lbas: seq<nat>)
    requires forall l :: l in lbas ==> Get(e, l) == Get(d, l)
    ensures Read(e, lbas) == Read(d, lbas)
  {
    hide Get;
    forall j | 0 <= j < |lbas| ensures Get(e, lbas[j]) == Get(d, lbas[j]) {
      assert lbas[j] in lbas;
    }
  }

  /** A chain without cluster c has no sector of it, and none in the FAT. */
  lemma OutsideNew(v: Volume, r: seq<nat>, c: nat, l: nat)
    requires v.Layout() && Clusters(r) && c >= 2 && c !in r && l in ChainLbas(v, r)
    ensures l >= v.dataLba && !SectorOf(v, c, l)
  {
    hide ChainLbas, Times;
    var j :| 0 <= j < |ChainLbas(v, r)| && ChainLbas(v, r)[j] == l;
    var i, t := Decompose(j, |r|, v.secPerClus);
    ChainLbaAt(v, r, i, t);
    assert r[i] in r;
    if r[i] < c { ClusterOrder(v, r[i], c); } else { ClusterOrder(v, c, r[i]); }
  }

  /** The copy of the FAT while the file is extended. */
  lemma DuringFat(d: Disk, v: Volume, last: nat, c: nat, e: Disk, f: nat)
    requires v.Layout() && f < v.numFats && last < v.EntryCount() && 2 <= c < v.EntryCount() && c < EOC_MIN
    requires DuringExtension(d, v, last, c, e) && ClusToLba(v, c) == ClusterStart(v, c)
    ensures var fat, g := FatView(d, v, f), FatView(e, v, f);
            g == fat || g == fat[last := c] || g == Extended(fat, last, c)
  {
    hide FatView, AfterStores, ClusToLba, Times, Get;
    if m: nat :| m <= 2 * v.numFats && e == AfterStores(d, v, last, c, m) {
      CopyAfterStores(d, v, last, c, m, f);
    } else {
      var all := AfterStores(d, v, last, c, 2 * v.numFats);
      CopyAfterStores(d, v, last, c, 2 * v.numFats, f);
      SameFat(all, e, v);
    }
  }

  /** Behind the FAT only the new cluster changes. */
  lemma DuringFrame(d: Disk, v: Volume, last: nat, c: nat, e: Disk)
    requires v.Layout() && last < v.EntryCount() && 2 <= c < v.EntryCount() && c < EOC_MIN
    requires DuringExtension(d, v, last, c, e) && ClusToLba(v, c) == ClusterStart(v, c)
    ensures forall l: nat :: l >= v.dataLba && !SectorOf(v, c, l) ==> Get(e, l) == Get(d, l)
  {
    hide AfterStores, ClusToLba, Times, Get;
    if m: nat :| m <= 2 * v.numFats && e == AfterStores(d, v, last, c, m) {
      StoresFrame(d, v, last, c, m);
    } else {
      StoresFrame(d, v, last, c, 2 * v.numFats);
    }
  }

  lemma OthersStay(fat: seq<nat>, g: seq<nat>, last: nat, c: nat, r: seq<nat>)
    requires last < |fat| && c < |fat| && fat[c] == 0 && IsChain(fat, r) && last !in r
    requires g == fat || g == fat[last := c] || g == Extended(fat, last, c)
    ensures IsChain(g, r) && c !in r
  {
    forall i | 0 <= i < |r| ensures r[i] != c {
      if i < |r| - 1 { assert fat[r[i]] == r[i + 1]; }
    }
  }

  lemma StoresFrame(d: Disk, v: Volume, last: nat, c: nat, m: nat)
    requires v.Layout() && m <= 2 * v.numFats && last < v.EntryCount() && c < v.EntryCount() && c < ENTRY_LIMIT
    ensures forall l: nat :: !InFat(v, l) ==> Get(AfterStores(d, v, last, c, m), l) == Get(d, l)
  {
    hide WriteCopies, Get;
    if m <= v.numFats {
      WriteCopiesFrame(d, v, last, c, m);
    } else {
      WriteCopiesFrame(d, v, last, c, v.numFats);
      WriteCopiesFrame(WriteEntry(d, v, last, c), v, c, EOC, m - v.numFats);
    }
  }
}
