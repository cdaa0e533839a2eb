/** What creating, extending and writing the log file do to the disk, as functions, and
    what reading the file back through its FAT chain yields. */
module LogSpec {
  import opened Bytes
  import opened SectorDevice
  import opened Volumes
  import opened FatTable
  import opened Chains

  // ---- reading a file through its chain ---------------------------------------

  function Range(lo: nat, hi: nat): (p: seq<nat>)
    requires lo <= hi
    ensures |p| == hi - lo
    ensures forall i :: 0 <= i < |p| ==> p[i] == lo + i
  {
    seq(hi - lo, i requires 0 <= i => lo + i)
  }

  ghost predicate Clusters(p: seq<nat>) {
    forall i :: 0 <= i < |p| ==> p[i] >= 2
  }

  /** Addresses of the sectors of a chain, cluster by cluster. */
  function ChainLbas(v: Volume, p: seq<nat>): (l: seq<nat>)
    requires Clusters(p)
    ensures |l| == Times(|p|, v.secPerClus)
  {
    if |p| == 0 then []
    else
      var s := ClusterStart(v, p[|p| - 1]);
      ChainLbas(v, p[..|p| - 1]) + Range(s, s + v.secPerClus)
  }

  function Read(d: Disk, lbas: seq<nat>): (c: seq<Sector>)
    ensures |c| == |lbas|
    ensures forall i :: 0 <= i < |c| ==> c[i] == Get(d, lbas[i])
  {
    seq(|lbas|, i requires 0 <= i < |lbas| => Get(d, lbas[i]))
  }

  function FileSectors(d: Disk, v: Volume, p: seq<nat>): seq<Sector>
    requires Clusters(p)
  {
    Read(d, ChainLbas(v, p))
  }

  function ZeroSectors(n: nat): (z: seq<Sector>)
    ensures |z| == n && forall i :: 0 <= i < n ==> z[i] == ZeroSector()
  {
    if n == 0 then [] else ZeroSectors(n - 1) + [ZeroSector()]
  }

  // ---- linear addresses against the chain ----------------------------------------

  ghost predicate Contiguous(p: seq<nat>) {
    forall i :: 0 <= i < |p| ==> p[i] == p[0] + i
  }

  /** Sector t of cluster number i of the chain is sector i * secPerClus + t of the file. */
  lemma {:induction false} ChainLbaAt(v: Volume, p: seq<nat>, i: nat, t: nat)
    requires Clusters(p) && i < |p| && t < v.secPerClus
    ensures Times(i, v.secPerClus) + t < Times(|p|, v.secPerClus)
    ensures ChainLbas(v, p)[Times(i, v.secPerClus) + t] == ClusterStart(v, p[i]) + t
  {
    TimesMono(i, |p|, v.secPerClus);
    if i < |p| - 1 {
      ChainLbaAt(v, p[..|p| - 1], i, t);
    }
  }

  /** Every position below Times(n, w) is sector t of some cluster i < n. */
  lemma {:induction false} Decompose(j: nat, n: nat, w: nat) returns (i: nat, t: nat)
    requires j < Times(n, w)
    ensures i < n && t < w && j == Times(i, w) + t
  {
    if Times(n - 1, w) <= j {
      return n - 1, j - Times(n - 1, w);
    }
    i, t := Decompose(j, n - 1, w);
  }

  lemma {:induction false} ContiguousLba(v: Volume, p: seq<nat>, j: nat)
    requires Clusters(p) && Contiguous(p) && j < Times(|p|, v.secPerClus)
    ensures |p| > 0 && ChainLbas(v, p)[j] == ClusterStart(v, p[0]) + j
  {
    var i, t := Decompose(j, |p|, v.secPerClus);
    ChainLbaAt(v, p, i, t);
    StretchStart(v, p[0], i);
  }

  /** Counting up from the start of the first cluster gives the chain's own addresses. */
  ghost predicate FollowsLinearly(v: Volume, p: seq<nat>, n: nat)
    requires Clusters(p) && |p| > 0 && n <= Times(|p|, v.secPerClus)
  {
    forall j :: 0 <= j < n ==> ChainLbas(v, p)[j] == ClusterStart(v, p[0]) + j
  }

  lemma {:induction false} LinearCluster(v: Volume, p: seq<nat>, n: nat, i: nat)
    requires Clusters(p) && i < |p| && v.secPerClus >= 1
    requires Times(|p| - 1, v.secPerClus) < n <= Times(|p|, v.secPerClus) && FollowsLinearly(v, p, n)
    ensures p[i] == p[0] + i
  {
    hide ChainLbas;
    var j := Times(i, v.secPerClus);
    assert ClusterStart(v, p[i]) == ClusterStart(v, p[0]) + j by {
      ChainLbaAt(v, p, i, 0);
      TimesMono(i, |p| - 1, v.secPerClus);
      assert ChainLbas(v, p)[j + 0] == ClusterStart(v, p[0]) + j;
    }
    StretchStart(v, p[0], i);
    DataSectorsApart(v, p[i], 0, p[0] + i, 0);
  }

  /** Counting addresses up follows the chain through n sectors (reaching its last
      cluster) exactly when the clusters are consecutive. */
  lemma LinearFollowsChainIff(v: Volume, p: seq<nat>, n: nat)
    requires Clusters(p) && |p| > 0 && v.secPerClus >= 1
    requires Times(|p| - 1, v.secPerClus) < n <= Times(|p|, v.secPerClus)
    ensures FollowsLinearly(v, p, n) <==> Contiguous(p)
  {
    if FollowsLinearly(v, p, n) {
      forall i | 0 <= i < |p| ensures p[i] == p[0] + i {
        LinearCluster(v, p, n, i);
      }
    }
    if Contiguous(p) {
      forall j | 0 <= j < n ensures ChainLbas(v, p)[j] == ClusterStart(v, p[0]) + j {
        ContiguousLba(v, p, j);
      }
    }
  }

  // ---- the operations ---------------------------------------------------------------

  datatype LogState = LogState(
    firstClus: nat, curLba: nat, endLba: nat, dirLba: nat, dirOffset: nat,
    bytesWritten: nat, preallocSize: nat, lastClus: nat)

  function ZeroRange(d: Disk, lo: nat, hi: nat): Disk
    decreases hi - lo
  {
    if lo >= hi then d else ZeroRange(d, lo, hi - 1)[hi - 1 := ZeroSector()]
  }

  lemma {:induction false} ZeroRangeGet(d: Disk, lo: nat, hi: nat)
    ensures forall l: nat :: Get(ZeroRange(d, lo, hi), l) == if lo <= l < hi then ZeroSector() else Get(d, l)
    ensures forall l: nat :: l in ZeroRange(d, lo, hi) <==> lo <= l < hi || l in d
    decreases hi - lo
  {
    if lo < hi {
      ZeroRangeGet(d, lo, hi - 1);
      var e := ZeroRange(d, lo, hi - 1);
      forall l: nat ensures Get(ZeroRange(d, lo, hi), l) == if lo <= l < hi then ZeroSector() else Get(d, l) {
        assert Get(e, l) == if lo <= l < hi - 1 then ZeroSector() else Get(d, l);
      }
    }
  }

  /** The end of a region is kept in 32 bits. If some sector of the region is not zero yet,
      filling up to that end clears all n sectors exactly if it does not wrap; a region that
      ends at 2^32 or beyond is not filled at all. */
  lemma FillWrapsIff(d: Disk, cur: nat, n: nat, end: nat, dirty: nat)
    requires cur < U32 && 0 < n < U32 && end == (cur + n) % U32
    requires cur <= dirty < cur + n && Get(d, dirty) != ZeroSector()
    ensures (forall l: nat :: cur <= l < cur + n ==> Get(ZeroRange(d, cur, end), l) == ZeroSector()) <==> cur + n < U32
    ensures cur + n >= U32 ==> ZeroRange(d, cur, end) == d
  {
    hide Get, ZeroSector;
    ZeroRangeGet(d, cur, end);
    if cur + n >= U32 {
      assert end == cur + n - U32 < cur;
      assert Get(ZeroRange(d, cur, end), dirty) != ZeroSector();
    } else {
      assert end == cur + n;
    }
  }

  /** The FAT with every cluster of p but the last pointing at its successor. */
  function LinkPrefixDisk(d: Disk, v: Volume, p: seq<nat>): Disk
    requires forall i :: 0 <= i < |p| ==> p[i] < ENTRY_LIMIT
  {
    if |p| <= 1 then d
    else WriteEntry(LinkPrefixDisk(d, v, p[..|p| - 1]), v, p[|p| - 2], p[|p| - 1])
  }

  function LinkDisk(d: Disk, v: Volume, p: seq<nat>): Disk
    requires |p| > 0 && forall i :: 0 <= i < |p| ==> p[i] < ENTRY_LIMIT
  {
    WriteEntry(LinkPrefixDisk(d, v, p), v, p[|p| - 1], EOC)
  }

  lemma {:induction false} LinkPrefixDiskView(d: Disk, v: Volume, p: seq<nat>, f: nat)
    requires v.Layout() && f < v.numFats
    requires forall i :: 0 <= i < |p| ==> p[i] < ENTRY_LIMIT && p[i] < v.EntryCount()
    ensures FatView(LinkPrefixDisk(d, v, p), v, f) == LinkPrefix(FatView(d, v, f), p)
    ensures forall l: nat :: !InFat(v, l) ==> Get(LinkPrefixDisk(d, v, p), l) == Get(d, l)
  {
    if |p| > 1 {
      var q := p[..|p| - 1];
      LinkPrefixDiskView(d, v, q, f);
      StoreRefinesMap(LinkPrefixDisk(d, v, q), v, p[|p| - 2], p[|p| - 1]);
    }
  }

  lemma LinkDiskView(d: Disk, v: Volume, p: seq<nat>)
    requires v.Layout() && |p| > 0
    requires forall i :: 0 <= i < |p| ==> p[i] < ENTRY_LIMIT && p[i] < v.EntryCount()
    ensures forall f: nat :: f < v.numFats ==> FatView(LinkDisk(d, v, p), v, f) == Linked(FatView(d, v, f), p)
    ensures forall l: nat :: !InFat(v, l) ==> Get(LinkDisk(d, v, p), l) == Get(d, l)
    ensures CopiesAgree(d, v) ==> CopiesAgree(LinkDisk(d, v, p), v)
  {
    StoreRefinesMap(LinkPrefixDisk(d, v, p), v, p[|p| - 1], EOC);
    forall f: nat | f < v.numFats
      ensures FatView(LinkDisk(d, v, p), v, f) == Linked(FatView(d, v, f), p)
    {
      LinkPrefixDiskView(d, v, p, f);
    }
    LinkPrefixDiskView(d, v, p, 0);
  }

  /** Free clusters below hi according to copy 0, the copy the program reads. */
  function FreeOnDisk(d: Disk, v: Volume, hi: nat): seq<nat>
    requires v.Fits(hi)
  {
    FreeList(FatView(d, v, 0), 2, hi)
  }

  predicate Full(s: LogState) { s.curLba >= s.endLba }

  /** The disk with cluster c linked behind `last`, marked as the end and zero-filled. */
  function WithCluster(d: Disk, v: Volume, last: nat, c: nat): Disk
    requires c < ENTRY_LIMIT
  {
    var d2 := WriteEntry(WriteEntry(d, v, last, c), v, c, EOC);
    ZeroRange(d2, ClusToLba(v, c), (ClusToLba(v, c) + v.secPerClus) % U32)
  }

  function Extend(d: Disk, v: Volume, hi: nat, s: LogState): (Disk, LogState)
    requires v.Fits(hi) && |FreeOnDisk(d, v, hi)| > 0
  {
    FreeListSound(FatView(d, v, 0), 2, hi);
    var c := FreeOnDisk(d, v, hi)[0];
    (WithCluster(d, v, s.lastClus, c), s.(endLba := (ClusToLba(v, c) + v.secPerClus) % U32, lastClus := c))
  }

  datatype FileOp = Append(data: Sector) | UpdateSize

  ghost predicate Enabled(d: Disk, v: Volume, hi: nat, s: LogState, op: FileOp) {
    v.Fits(hi) && (op.Append? && Full(s) ==> |FreeOnDisk(d, v, hi)| > 0)
  }

  function Put(d: Disk, s: LogState, data: Sector): (Disk, LogState) {
    (d[s.curLba := data],
     s.(curLba := (s.curLba + 1) % U32, bytesWritten := (s.bytesWritten + SECTOR_SIZE) % U32))
  }

  const SIZE_FIELD := 28

  function WithSize(dir: Sector, off: nat, size: nat): Sector
    requires off + 32 <= SECTOR_SIZE && size < U32
  {
    Splice(dir, off + SIZE_FIELD, Bytes32(size))
  }

  /** Directory sectors agree outside the size field of the entry at off. */
  ghost predicate SameButSize(a: Sector, b: Sector, off: nat)
    requires off + 32 <= SECTOR_SIZE
  {
    forall i :: 0 <= i < SECTOR_SIZE && !(off + SIZE_FIELD <= i < off + 32) ==> a[i] == b[i]
  }

  ghost predicate StateOk(s: LogState) {
    s.dirOffset + 32 <= SECTOR_SIZE && s.bytesWritten < U32 && s.curLba < U32 && s.endLba < U32
  }

  function Step(d: Disk, v: Volume, hi: nat, s: LogState, op: FileOp): (Disk, LogState)
    requires StateOk(s) && Enabled(d, v, hi, s, op)
  {
    match op
    case Append(data) =>
      var (e, t) := if Full(s) then Extend(d, v, hi, s) else (d, s);
      Put(e, t, data)
    case UpdateSize =>
      (d[s.dirLba := WithSize(Get(d, s.dirLba), s.dirOffset, s.bytesWritten)], s)
  }

  /** The extension search finds a free cluster each time it is needed. */
  ghost predicate CanRun(d: Disk, v: Volume, hi: nat, s: LogState, ops: seq<FileOp>)
    decreases |ops|
  {
    StateOk(s) &&
    (ops != [] ==>
      Enabled(d, v, hi, s, ops[0]) &&
      var (e, t) := Step(d, v, hi, s, ops[0]);
      CanRun(e, v, hi, t, ops[1..]))
  }

  function Run(d: Disk, v: Volume, hi: nat, s: LogState, ops: seq<FileOp>): (Disk, LogState)
    requires CanRun(d, v, hi, s, ops)
    decreases |ops|
  {
    if ops == [] then (d, s)
    else
      var (e, t) := Step(d, v, hi, s, ops[0]);
      Run(e, v, hi, t, ops[1..])
  }

  function Appended(ops: seq<FileOp>): seq<Sector> {
    if ops == [] then []
    else (if ops[0].Append? then [ops[0].data] else []) + Appended(ops[1..])
  }

  /** Clusters a file of so many sectors takes. */
  function ClustersFor(v: Volume, nSectors: nat): (n: nat)
    requires v.secPerClus >= 1
    ensures nSectors >= 1 ==> n >= 1 && Times(n - 1, v.secPerClus) < nSectors <= Times(n, v.secPerClus)
  {
    DivBounds(nSectors + v.secPerClus - 1, v.secPerClus);
    (nSectors + v.secPerClus - 1) / v.secPerClus
  }

  lemma DivBounds(x: nat, k: nat)
    requires k >= 1
    ensures Times(x / k, k) <= x < Times(x / k, k) + k
  {
    assert x == x / k * k + x % k;
    TimesIsProduct(x / k, k);
  }

  const ARCHIVE: byte := 0x20

  /** The 32 bytes of a fresh directory entry. */
  function DirEntry(name: seq<byte>, first: nat, size: nat): (e: seq<byte>)
    requires |name| == 11 && first < U32 && size < U32
    ensures |e| == 32
  {
    name + [ARCHIVE] + Zeros(8) + Bytes16(first / U16) + Zeros(4) + Bytes16(first % U16) + Bytes32(size)
  }

  /** The disk with p linked, sectors cur .. end-1 zeroed and a directory entry written last. */
  function NewFile(d: Disk, v: Volume, p: seq<nat>, cur: nat, end: nat, dirLba: nat, dirOffset: nat,
                   entry: seq<byte>): Disk
    requires |p| > 0 && (forall i :: 0 <= i < |p| ==> p[i] < ENTRY_LIMIT)
    requires |entry| == 32 && dirOffset + 32 <= SECTOR_SIZE
  {
    var e := ZeroRange(LinkDisk(d, v, p), cur, end);
    e[dirLba := Splice(Get(e, dirLba), dirOffset, entry)]
  }

  function Create(d: Disk, v: Volume, hi: nat, name: seq<byte>, size: nat, dirLba: nat, dirOffset: nat)
    : (Disk, LogState)
    requires |name| == 11 && SECTOR_SIZE <= size < U32 && dirOffset + 32 <= SECTOR_SIZE
    requires v.Fits(hi) && ClustersFor(v, size / SECTOR_SIZE) <= |FreeOnDisk(d, v, hi)|
  {
    var nSectors := size / SECTOR_SIZE;
    FreeListSound(FatView(d, v, 0), 2, hi);
    var p := FreeOnDisk(d, v, hi)[..ClustersFor(v, nSectors)];
    var cur := ClusToLba(v, p[0]);
    var end := (cur + nSectors) % U32;
    (NewFile(d, v, p, cur, end, dirLba, dirOffset, DirEntry(name, p[0], size)),
     LogState(p[0], cur, end, dirLba, dirOffset, 0, size, p[|p| - 1]))
  }
}
