/** trim free: one erase command per maximal run of free clusters (fat32_trim.c:27-90). */
module Trims {
  import opened Bytes
  import opened SectorDevice
  import opened Volumes
  import opened FatTable
  import opened Chains
  import opened LogSpec

  /** Clusters first .. last. */
  datatype ClusterRun = ClusterRun(first: nat, last: nat)

  /** All clusters of the run are free, and the run cannot be made longer. */
  ghost predicate Maximal(fat: seq<nat>, r: ClusterRun) {
    && 2 <= r.first <= r.last < |fat|
    && (forall c :: r.first <= c <= r.last ==> fat[c] == 0)
    && (r.first > 2 ==> fat[r.first - 1] != 0)
    && (r.last + 1 < |fat| ==> fat[r.last + 1] != 0)
  }

  ghost predicate InRun(r: ClusterRun, c: nat) { r.first <= c <= r.last }

  ghost predicate InSome(runs: seq<ClusterRun>, c: nat) {
    exists i :: 0 <= i < |runs| && InRun(runs[i], c)
  }

  /** runs are maximal, in increasing order, apart from one another, and leave out no free
      cluster below bound. */
  ghost predicate ExactUpTo(fat: seq<nat>, runs: seq<ClusterRun>, bound: nat) {
    && bound <= |fat|
    && (forall i :: 0 <= i < |runs| ==> Maximal(fat, runs[i]) && runs[i].last < bound)
    && (forall i, j :: 0 <= i < j < |runs| ==> runs[i].last + 1 < runs[j].first)
    && (forall c: nat :: 2 <= c < bound && fat[c] == 0 ==> InSome(runs, c))
  }

  ghost predicate ExactRuns(fat: seq<nat>, runs: seq<ClusterRun>) { ExactUpTo(fat, runs, |fat|) }

  /** Maximal runs that share a cluster are the same run. */
  lemma SameRun(fat: seq<nat>, r: ClusterRun, x: ClusterRun, c: nat)
    requires Maximal(fat, r) && Maximal(fat, x) && InRun(r, c) && InRun(x, c)
    ensures r == x
  {}

  /** Run number i of one exact list occurs in any other, at position i or later. */
  lemma {:induction false} RankAtLeast(fat: seq<nat>, a: seq<ClusterRun>, b: seq<ClusterRun>, i: nat) returns (j: nat)
    requires ExactRuns(fat, a) && ExactRuns(fat, b) && i < |a|
    ensures i <= j < |b| && b[j] == a[i]
    decreases i
  {
    hide ExactUpTo;
    j := Occurs(fat, a, b, i);
    if i > 0 {
      var p := RankAtLeast(fat, a, b, i - 1);
      SameOrder(fat, a, b, i - 1, i, p, j);
    }
  }

  lemma Occurs(fat: seq<nat>, a: seq<ClusterRun>, b: seq<ClusterRun>, i: nat) returns (j: nat)
    requires ExactRuns(fat, a) && ExactRuns(fat, b) && i < |a|
    ensures j < |b| && b[j] == a[i]
  {
    assert Maximal(fat, a[i]);
    assert InSome(b, a[i].first);
    j :| 0 <= j < |b| && InRun(b[j], a[i].first);
    SameRun(fat, a[i], b[j], a[i].first);
  }

  lemma SameOrder(fat: seq<nat>, a: seq<ClusterRun>, b: seq<ClusterRun>, i: nat, k: nat, p: nat,
                  q: nat)
    requires ExactRuns(fat, a) && ExactRuns(fat, b) && i < k < |a| && p < |b| && q < |b| && b[p] == a[i] && b[q] == a[k]
    ensures p < q
  {}

  /** There is only one such list. */
  lemma ExactRunsUnique(fat: seq<nat>, a: seq<ClusterRun>, b: seq<ClusterRun>)
    requires ExactRuns(fat, a) && ExactRuns(fat, b)
    ensures a == b
  {
    if |a| > 0 { SamePlace(fat, a, b, |a| - 1); }
    if |b| > 0 { SamePlace(fat, b, a, |b| - 1); }
    forall i | 0 <= i < |a| ensures i < |b| && b[i] == a[i] {
      SamePlace(fat, a, b, i);
    }
    forall i | 0 <= i < |b| ensures i < |a| && a[i] == b[i] {
      SamePlace(fat, b, a, i);
    }
  }

  lemma SamePlace(fat: seq<nat>, a: seq<ClusterRun>, b: seq<ClusterRun>, i: nat)
    requires ExactRuns(fat, a) && ExactRuns(fat, b) && i < |a|
    ensures i < |b| && b[i] == a[i]
  {
    var j := RankAtLeast(fat, a, b, i);
    var k := RankAtLeast(fat, b, a, j);
    assert Maximal(fat, a[i]);
    assert k == i;
  }

  // ---- runs as block addresses ------------------------------------------------------------------

  function RunExtent(v: Volume, r: ClusterRun): Extent
    requires 2 <= r.first <= r.last && v.secPerClus >= 1
  {
    Extent(ClusterStart(v, r.first), ClusterStart(v, r.last) + v.secPerClus - 1)
  }

  ghost predicate GoodRuns(runs: seq<ClusterRun>) {
    forall i :: 0 <= i < |runs| ==> 2 <= runs[i].first <= runs[i].last
  }

  function Extents(v: Volume, runs: seq<ClusterRun>): (xs: seq<Extent>)
    requires v.secPerClus >= 1 && GoodRuns(runs)
    ensures |xs| == |runs| && forall i :: 0 <= i < |xs| ==> xs[i] == RunExtent(v, runs[i])
  {
    if runs == [] then [] else Extents(v, runs[..|runs| - 1]) + [RunExtent(v, runs[|runs| - 1])]
  }

  ghost predicate InExtents(xs: seq<Extent>, l: nat) {
    exists i :: 0 <= i < |xs| && xs[i].first <= l <= xs[i].last
  }

  /** Every sector between the starts of two clusters belongs to a cluster between them. */
  lemma {:induction false} ClusterOf(v: Volume, a: nat, b: nat, l: nat) returns (c: nat)
    requires 2 <= a <= b && ClusterStart(v, a) <= l < ClusterStart(v, b) + v.secPerClus
    ensures a <= c <= b && SectorOf(v, c, l)
    decreases b - a
  {
    if l < ClusterStart(v, a) + v.secPerClus {
      return a;
    }
    StretchStart(v, a, 1);
    assert Times(1, v.secPerClus) == v.secPerClus;
    c := ClusterOf(v, a + 1, b, l);
  }

  lemma ExtentIffCluster(v: Volume, r: ClusterRun, l: nat)
    requires 2 <= r.first <= r.last && v.secPerClus >= 1
    ensures RunExtent(v, r).first <= l <= RunExtent(v, r).last <==>
            exists c: nat :: InRun(r, c) && 2 <= c && SectorOf(v, c, l)
  {
    hide Times;
    if RunExtent(v, r).first <= l <= RunExtent(v, r).last {
      var c := ClusterOf(v, r.first, r.last, l);
      assert InRun(r, c);
    }
    if c: nat :| InRun(r, c) && 2 <= c && SectorOf(v, c, l) {
      if r.first < c { ClusterOrder(v, r.first, c); }
      if c < r.last { ClusterOrder(v, c, r.last); }
    }
  }

  /** Erase commands for maximal runs reach sectors of free clusters only. */
  lemma ErasedIsFree(v: Volume, fat: seq<nat>, runs: seq<ClusterRun>, bound: nat, l: nat)
    returns (c: nat)
    requires v.secPerClus >= 1 && ExactUpTo(fat, runs, bound) && GoodRuns(runs) && InExtents(Extents(v, runs), l)
    ensures 2 <= c < |fat| && fat[c] == 0 && SectorOf(v, c, l)
  {
    hide Times, SectorOf;
    var xs := Extents(v, runs);
    var i :| 0 <= i < |xs| && xs[i].first <= l <= xs[i].last;
    ExtentIffCluster(v, runs[i], l);
    c :| InRun(runs[i], c) && 2 <= c && SectorOf(v, c, l);
    assert Maximal(fat, runs[i]);
  }

  /** The erase commands of an exact list of runs reach a sector exactly when it belongs
      to a free cluster. */
  lemma ErasedIffFree(v: Volume, fat: seq<nat>, runs: seq<ClusterRun>, l: nat)
    requires v.secPerClus >= 1 && ExactRuns(fat, runs) && GoodRuns(runs)
    ensures InExtents(Extents(v, runs), l) <==>
            exists c: nat :: 2 <= c < |fat| && fat[c] == 0 && SectorOf(v, c, l)
  {
    hide Times, SectorOf;
    var xs := Extents(v, runs);
    if InExtents(xs, l) {
      var c := ErasedIsFree(v, fat, runs, |fat|, l);
    }
    if c: nat :| 2 <= c < |fat| && fat[c] == 0 && SectorOf(v, c, l) {
      assert InSome(runs, c);
      var i :| 0 <= i < |runs| && InRun(runs[i], c);
      ExtentIffCluster(v, runs[i], l);
      assert xs[i].first <= l <= xs[i].last;
    }
  }

  /** e is d except for sectors that the erase commands reach. */
  ghost predicate KeptOutside(d: Disk, e: Disk, xs: seq<Extent>) {
    forall l: nat :: !InExtents(xs, l) ==> Get(e, l) == Get(d, l)
  }

  lemma KeptOutsideMore(d: Disk, e: Disk, f: Disk, xs: seq<Extent>, x: Extent)
    requires KeptOutside(d, e, xs)
    requires forall l: nat :: !(x.first <= l <= x.last) ==> Get(f, l) == Get(e, l)
    ensures KeptOutside(d, f, xs + [x])
  {
    forall l: nat | !InExtents(xs + [x], l) ensures Get(f, l) == Get(d, l) {
      assert (xs + [x])[|xs|] == x;
      if i :| 0 <= i < |xs| && xs[i].first <= l <= xs[i].last {
        assert (xs + [x])[i] == xs[i];
      }
    }
  }

  /** Whatever part of the scan was done, no sector of the FAT and none of an allocated
      cluster has changed. */
  lemma AllocatedKept(v: Volume, fat: seq<nat>, runs: seq<ClusterRun>, bound: nat, d: Disk, e: Disk)
    requires v.Layout() && GoodRuns(runs) && ExactUpTo(fat, runs, bound) && KeptOutside(d, e, Extents(v, runs))
    ensures forall l: nat :: l < v.dataLba ==> Get(e, l) == Get(d, l)
    ensures forall c: nat, l: nat :: 2 <= c < |fat| && fat[c] != 0 && SectorOf(v, c, l) ==> Get(e, l) == Get(d, l)
    ensures forall f: nat :: f < v.numFats ==> FatView(e, v, f) == FatView(d, v, f)
  {
    hide Times, ExactUpTo, FatView;
    forall l: nat | l < v.dataLba ensures Get(e, l) == Get(d, l) {
      if InExtents(Extents(v, runs), l) {
        var c := ErasedIsFree(v, fat, runs, bound, l);
        assert false;
      }
    }
    SameFat(d, e, v);
    forall c: nat, l: nat | 2 <= c < |fat| && fat[c] != 0 && SectorOf(v, c, l) ensures Get(e, l) == Get(d, l) {
      if InExtents(Extents(v, runs), l) {
        var x := ErasedIsFree(v, fat, runs, bound, l);
        DataSectorsApart(v, c, l - ClusterStart(v, c), x, l - ClusterStart(v, x));
        assert false;
      }
    }
  }

  /** Every file reads the same through its chain. */
  lemma TrimKeepsFiles(v: Volume, runs: seq<ClusterRun>, bound: nat, d: Disk, e: Disk, p: seq<nat>)
    requires v.Layout() && GoodRuns(runs) && ExactUpTo(FatView(d, v, 0), runs, bound) &&
             KeptOutside(d, e, Extents(v, runs))
    requires IsChain(FatView(d, v, 0), p)
    ensures IsChain(FatView(e, v, 0), p) && Clusters(p) && FileSectors(e, v, p) == FileSectors(d, v, p)
  {
    hide ChainLbas, Times, FatView, ExactUpTo, KeptOutside;
    var fat := FatView(d, v, 0);
    AllocatedKept(v, fat, runs, bound, d, e);
    var lbas := ChainLbas(v, p);
    forall j | 0 <= j < |lbas| ensures Get(e, lbas[j]) == Get(d, lbas[j]) {
      var i, t := Decompose(j, |p|, v.secPerClus);
      ChainLbaAt(v, p, i, t);
      assert fat[p[i]] != 0 by {
        if i < |p| - 1 { assert fat[p[i]] == p[i + 1]; }
      }
      assert SectorOf(v, p[i], lbas[j]);
    }
    assert Read(e, lbas) == Read(d, lbas);
  }

  // ---- the scan -------------------------------------------------------------------------------------

  /** Every entry of a FAT copy belongs to a cluster with 32-bit addresses. */
  ghost predicate Addressable(v: Volume) {
    v.Layout() && v.EntryCount() <= U32 && v.dataLba + Times(v.EntryCount() - 2, v.secPerClus) <= U32
  }

  /** What the running variables mean before cluster c is looked at. When a run is open it
      reaches to c - 1, so the next free cluster is always adjacent to it. */
  ghost predicate Open(v: Volume, fat: seq<nat>, c: nat, runs: seq<ClusterRun>, inRun: bool, a: nat, startLba: nat,
                       endLba: nat) {
    && c <= |fat|
    && if inRun then
         && 2 <= a < c && ExactUpTo(fat, runs, a) && (a > 2 ==> fat[a - 1] != 0)
         && (forall x :: a <= x < c ==> fat[x] == 0)
         && startLba == ClusterStart(v, a) && endLba + 1 == ClusterStart(v, c - 1) + v.secPerClus
       else
         ExactUpTo(fat, runs, c) && (c > 2 ==> fat[c - 1] != 0)
  }

  lemma CloseRun(v: Volume, fat: seq<nat>, c: nat, runs: seq<ClusterRun>, a: nat, startLba: nat,
                 endLba: nat)
    requires v.secPerClus >= 1 && Open(v, fat, c, runs, true, a, startLba, endLba) && (c < |fat| ==> fat[c] != 0)
    ensures ExactUpTo(fat, runs + [ClusterRun(a, c - 1)], if c < |fat| then c + 1 else c)
    ensures Extent(startLba, endLba) == RunExtent(v, ClusterRun(a, c - 1))
  {
    hide Times;
    var r := ClusterRun(a, c - 1);
    var more := runs + [r];
    assert Maximal(fat, r);
    var bound := if c < |fat| then c + 1 else c;
    forall x: nat | 2 <= x < bound && fat[x] == 0 ensures InSome(more, x) {
      if x < a {
        assert InSome(runs, x);
        var i :| 0 <= i < |runs| && InRun(runs[i], x);
        assert InRun(more[i], x);
      } else {
        assert InRun(more[|runs|], x);
      }
    }
    forall i, j | 0 <= i < j < |more| ensures more[i].last + 1 < more[j].first {
      if j == |runs| {
        assert Maximal(fat, runs[i]) && runs[i].last < a;
        assert runs[i].last + 1 < |fat| ==> fat[runs[i].last + 1] != 0;
      }
    }
  }

  lemma FreeNext(v: Volume, fat: seq<nat>, c: nat, runs: seq<ClusterRun>, inRun: bool, a: nat,
                 startLba: nat, endLba: nat)
    requires v.secPerClus >= 1 && Open(v, fat, c, runs, inRun, a, startLba, endLba) && 2 <= c < |fat| && fat[c] == 0
    ensures inRun ==> ClusterStart(v, c) == endLba + 1
    ensures Open(v, fat, c + 1, runs, true, if inRun then a else c,
                 if inRun then startLba else ClusterStart(v, c), ClusterStart(v, c) + v.secPerClus - 1)
  {}

  lemma UsedNext(v: Volume, fat: seq<nat>, c: nat, runs: seq<ClusterRun>, a: nat,
                 startLba: nat, endLba: nat)
    requires Open(v, fat, c, runs, false, a, startLba, endLba) && c < |fat| && (c >= 2 ==> fat[c] != 0)
    ensures Open(v, fat, c + 1, runs, false, a, startLba, endLba)
  {}

  method EraseRun(card: SdCard, v: Volume, ghost fat: seq<nat>, ghost c: nat, ghost runs: seq<ClusterRun>, ghost a: nat,
                  startLba: nat, endLba: nat) returns (ghost more: seq<ClusterRun>)
    requires v.secPerClus >= 1 && Open(v, fat, c, runs, true, a, startLba, endLba) && (c < |fat| ==> fat[c] != 0)
    modifies card
    ensures card.failures == old(card.failures)
    ensures more == runs + [ClusterRun(a, c - 1)]
    ensures ExactUpTo(fat, more, if c < |fat| then c + 1 else c)
    ensures card.disk.Keys == old(card.disk.Keys)
    ensures GoodRuns(runs) ==> GoodRuns(more) && Extents(v, more) == Extents(v, runs) + [Extent(startLba, endLba)]
    ensures card.erases == old(card.erases) + [Extent(startLba, endLba)]
    ensures forall l: nat :: !(startLba <= l <= endLba) ==> Get(card.disk, l) == Get(old(card.disk), l)
  {
    hide Times;
    CloseRun(v, fat, c, runs, a, startLba, endLba);
    card.Erase(startLba, endLba);
    more := runs + [ClusterRun(a, c - 1)];
    assert more[..|runs|] == runs;
  }

  /** The commands issued between the two states are those of runs, and nothing outside them
      has changed. */
  ghost predicate Issued(v: Volume, before: seq<Extent>, after: seq<Extent>, d: Disk, e: Disk, runs: seq<ClusterRun>)
    requires v.secPerClus >= 1
  {
    GoodRuns(runs) && after == before + Extents(v, runs) && KeptOutside(d, e, Extents(v, runs))
  }

  lemma IssuedMore(v: Volume, before: seq<Extent>, after: seq<Extent>, d: Disk, e: Disk, f: Disk,
                   runs: seq<ClusterRun>, more: seq<ClusterRun>, x: Extent)
    requires v.secPerClus >= 1 && Issued(v, before, after, d, e, runs)
    requires GoodRuns(more) && Extents(v, more) == Extents(v, runs) + [x]
    requires forall l: nat :: !(x.first <= l <= x.last) ==> Get(f, l) == Get(e, l)
    ensures Issued(v, before, after + [x], d, f, more)
  {
    KeptOutsideMore(d, e, f, Extents(v, runs), x);
  }

  /** The entry of cluster c as the scan reads it from the sector of copy 0 in the buffer. */
  lemma EntryFromCopy(v: Volume, d: Disk, e: Disk, k: nat, j: nat)
    requires v.Layout() && k < v.fatSz32 && j < ENTRIES_PER_SECTOR
    requires FatView(e, v, 0) == FatView(d, v, 0)
    ensures EntryIn(Get(e, v.fatLba + k), j * 4) == FatView(d, v, 0)[k * 128 + j]
  {}

  lemma SectorEntries(v: Volume, fat: seq<nat>, runs: seq<ClusterRun>, bound: nat,
                      before: seq<Extent>, after: seq<Extent>, d: Disk, e: Disk, k: nat)
    requires v.Layout() && k < v.fatSz32 && fat == FatView(d, v, 0)
    requires ExactUpTo(fat, runs, bound) && Issued(v, before, after, d, e, runs)
    ensures forall x: nat :: x < ENTRIES_PER_SECTOR ==> EntryIn(Get(e, v.fatLba + k), x * 4) == fat[k * 128 + x]
  {
    hide ExactUpTo, FatView, EntryIn;
    AllocatedKept(v, fat, runs, bound, d, e);
    forall x: nat | x < ENTRIES_PER_SECTOR ensures EntryIn(Get(e, v.fatLba + k), x * 4) == fat[k * 128 + x] {
      EntryFromCopy(v, d, e, k, x);
    }
  }

  lemma StartScan(v: Volume, fat: seq<nat>, xs: seq<Extent>, d: Disk)
    requires v.secPerClus >= 1
    ensures Open(v, fat, 0, [], false, 0, 0, 0) && Issued(v, xs, xs, d, d, [])
  {}

  lemma BoundSoFar(v: Volume, fat: seq<nat>, c: nat, runs: seq<ClusterRun>, inRun: bool, a: nat,
                   startLba: nat, endLba: nat)
    returns (bound: nat)
    requires Open(v, fat, c, runs, inRun, a, startLba, endLba)
    ensures ExactUpTo(fat, runs, bound)
  {
    bound := if inRun then a else c;
  }

  lemma NoRunYet(v: Volume, fat: seq<nat>, c: nat, runs: seq<ClusterRun>, inRun: bool, a: nat,
                 startLba: nat, endLba: nat)
    requires Open(v, fat, c, runs, inRun, a, startLba, endLba) && c < 2
    ensures !inRun
  {}

  lemma AfterRun(v: Volume, fat: seq<nat>, c: nat, runs: seq<ClusterRun>, a: nat, startLba: nat,
                 endLba: nat)
    requires ExactUpTo(fat, runs, c + 1) && c < |fat| && fat[c] != 0
    ensures Open(v, fat, c + 1, runs, false, a, startLba, endLba)
  {}

  lemma ClosedScan(v: Volume, fat: seq<nat>, c: nat, runs: seq<ClusterRun>, a: nat, startLba: nat,
                   endLba: nat)
    requires Open(v, fat, c, runs, false, a, startLba, endLba)
    ensures ExactUpTo(fat, runs, c)
  {}

  lemma ClusterLba(v: Volume, c: nat)
    requires Addressable(v) && 2 <= c < v.EntryCount()
    ensures ClusToLba(v, c) == ClusterStart(v, c)
  {
    ClusterOrder(v, c, v.EntryCount());
    ExactLba(v, c);
  }

  /** One entry of the scan. */
  method TrimEntry(card: SdCard, v: Volume, entry: nat, clus: nat, inRun: bool, startLba: nat, endLba: nat,
                   ghost fat: seq<nat>, ghost runs: seq<ClusterRun>, ghost a: nat, ghost xs: seq<Extent>, ghost d: Disk)
    returns (inRun': bool, startLba': nat, endLba': nat, ghost runs': seq<ClusterRun>, ghost a': nat)
    requires Addressable(v) && clus < |fat| == v.EntryCount() && entry == fat[clus]
    requires Open(v, fat, clus, runs, inRun, a, startLba, endLba)
    requires Issued(v, xs, card.erases, d, card.disk, runs)
    modifies card
    ensures card.failures == old(card.failures)
    ensures Open(v, fat, clus + 1, runs', inRun', a', startLba', endLba')
    ensures Issued(v, xs, card.erases, d, card.disk, runs')
  {
    hide Times, ExactUpTo, FatView, KeptOutside, Open, ClusToLba, ClusterStart;
    inRun', startLba', endLba', runs', a' := inRun, startLba, endLba, runs, a;
    if clus < 2 {
      NoRunYet(v, fat, clus, runs, inRun, a, startLba, endLba);
      if inRun {
        assert false;
      }
      UsedNext(v, fat, clus, runs, a, startLba, endLba);
    } else if entry == 0 {
      FreeNext(v, fat, clus, runs, inRun, a, startLba, endLba);
      ClusterLba(v, clus);
      var lbaS: nat := ClusToLba(v, clus);
      var lbaE: nat := lbaS + v.secPerClus - 1;
      if !inRun {
        inRun', startLba', endLba', a' := true, lbaS, lbaE, clus;
      } else if lbaS == endLba + 1 {
        endLba' := lbaE;
      } else {
        assert false;
      }
    } else if inRun {
      ghost var before, e := card.erases, card.disk;
      runs' := EraseRun(card, v, fat, clus, runs, a, startLba, endLba);
      IssuedMore(v, xs, before, d, e, card.disk, runs, runs', Extent(startLba, endLba));
      inRun' := false;
      AfterRun(v, fat, clus, runs', a, startLba, endLba);
    } else {
      UsedNext(v, fat, clus, runs, a, startLba, endLba);
    }
  }

  /** The entries of the FAT sector in the buffer. */
  method TrimSector(card: SdCard, ring: array<byte>, v: Volume, clus: nat, inRun: bool, startLba: nat, endLba: nat,
                    ghost fat: seq<nat>, ghost runs: seq<ClusterRun>, ghost a: nat, ghost xs: seq<Extent>,
                    ghost d: Disk)
    returns (clus': nat, inRun': bool, startLba': nat, endLba': nat, ghost runs': seq<ClusterRun>, ghost a': nat)
    requires ring.Length >= SECTOR_SIZE && Addressable(v)
    requires clus + ENTRIES_PER_SECTOR <= |fat| == v.EntryCount()
    requires forall x: nat :: x < ENTRIES_PER_SECTOR ==> EntryIn(ring[..SECTOR_SIZE], x * 4) == fat[clus + x]
    requires Open(v, fat, clus, runs, inRun, a, startLba, endLba)
    requires Issued(v, xs, card.erases, d, card.disk, runs)
    modifies card
    ensures card.failures == old(card.failures)
    ensures clus' == clus + ENTRIES_PER_SECTOR
    ensures Open(v, fat, clus', runs', inRun', a', startLba', endLba')
    ensures Issued(v, xs, card.erases, d, card.disk, runs')
  {
    hide Times, ExactUpTo, FatView, Issued, Open, EntryIn;
    clus', inRun', startLba', endLba', runs', a' := clus, inRun, startLba, endLba, runs, a;
    for j := 0 to ENTRIES_PER_SECTOR
      invariant card.failures == old(card.failures)
      invariant clus' == clus + j
      invariant Open(v, fat, clus', runs', inRun', a', startLba', endLba')
      invariant Issued(v, xs, card.erases, d, card.disk, runs')
    {
      var entry := EntryIn(ring[..SECTOR_SIZE], j * 4);
      inRun', startLba', endLba', runs', a' :=
        TrimEntry(card, v, entry, clus', inRun', startLba', endLba', fat, runs', a', xs, d);
      clus' := clus' + 1;
    }
  }

  /** Reads FAT copy 0 sector by sector and erases each run of free clusters once. On success
      the commands are those of the maximal runs, in order; after a read error they are those
      of the maximal runs met so far. */
  method TrimFree(card: SdCard, ring: array<byte>, v: Volume)
    returns (st: Status, ghost runs: seq<ClusterRun>, ghost bound: nat)
    requires ring.Length >= SECTOR_SIZE && Addressable(v)
    modifies card, ring
    ensures card.failures == old(card.failures) + Failed(st)
    ensures st in {Ok, SdError}
    ensures ExactUpTo(FatView(old(card.disk), v, 0), runs, bound)
    ensures st.Ok? ==> ExactRuns(FatView(old(card.disk), v, 0), runs)
    ensures Issued(v, old(card.erases), card.erases, old(card.disk), card.disk, runs)
  {
    hide Times, ExactUpTo, FatView, KeptOutside, Open, EntryIn;
    ghost var d := card.disk;
    ghost var fat := FatView(d, v, 0);
    runs, bound := [], 0;
    ghost var a := 0;
    var startLba: nat, endLba: nat := 0, 0;
    var inRun, clus := false, 0;
    StartScan(v, fat, card.erases, d);
    for k := 0 to v.fatSz32
      invariant card.failures == old(card.failures)
      invariant clus == k * 128
      invariant Open(v, fat, clus, runs, inRun, a, startLba, endLba)
      invariant Issued(v, old(card.erases), card.erases, d, card.disk, runs)
    {
      bound := BoundSoFar(v, fat, clus, runs, inRun, a, startLba, endLba);
      st := card.ReadSector(v.fatLba + k, ring);
      if !st.Ok? {
        return;
      }
      SectorEntries(v, fat, runs, bound, old(card.erases), card.erases, d, card.disk, k);
      clus, inRun, startLba, endLba, runs, a :=
        TrimSector(card, ring, v, clus, inRun, startLba, endLba, fat, runs, a, old(card.erases), d);
    }
    if inRun {
      ghost var was, before, e := runs, card.erases, card.disk;
      runs := EraseRun(card, v, fat, clus, runs, a, startLba, endLba);
      IssuedMore(v, old(card.erases), before, d, e, card.disk, was, runs, Extent(startLba, endLba));
    } else {
      ClosedScan(v, fat, clus, runs, a, startLba, endLba);
    }
    bound := |fat|;
    st := Ok;
  }
}
