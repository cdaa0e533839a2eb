/** The log writes by counting block addresses; readers follow the FAT chain. Over every
    run of appends, extensions and size updates the two agree, as long as the free
    clusters form a suffix of the cluster range. */
module LogRefinement {
  import opened Bytes
  import opened SectorDevice
  import opened Volumes
  import opened FatTable
  import opened Chains
  import opened LogSpec

  /** Exactly the clusters from k on are free. */
  ghost predicate FreeSuffix(fat: seq<nat>, k: nat, hi: nat) {
    hi <= |fat| && forall c :: 2 <= c < hi ==> (fat[c] == 0 <==> c >= k)
  }

  lemma RangeFront(lo: nat, hi: nat)
    requires lo < hi
    ensures Range(lo, hi) == [lo] + Range(lo + 1, hi)
  {}

  lemma {:induction false} SuffixFreeFrom(fat: seq<nat>, k: nat, lo: nat, hi: nat)
    requires 2 <= lo <= hi && 2 <= k <= hi < EOC_MIN && FreeSuffix(fat, k, hi)
    ensures FreeList(fat, lo, hi) == if lo < k then Range(k, hi) else Range(lo, hi)
    decreases hi - lo
  {
    hide Range;
    if lo < hi {
      SuffixFreeFrom(fat, k, lo + 1, hi);
      if k <= lo {
        RangeFront(lo, hi);
      }
    } else {
      assert Range(hi, hi) == [];
    }
  }

  lemma SuffixFreeList(fat: seq<nat>, k: nat, hi: nat)
    requires 2 <= k <= hi < EOC_MIN && FreeSuffix(fat, k, hi)
    ensures FreeList(fat, 2, hi) == Range(k, hi)
  {
    SuffixFreeFrom(fat, k, 2, hi);
  }

  // ---- the invariant -----------------------------------------------------------------

  function LogChain(s: LogState): (p: seq<nat>)
    requires s.firstClus <= s.lastClus
    ensures |p| == s.lastClus + 1 - s.firstClus
    ensures forall i :: 0 <= i < |p| ==> p[i] == s.firstClus + i
  {
    Range(s.firstClus, s.lastClus + 1)
  }

  function Capacity(v: Volume, s: LogState): nat
    requires s.firstClus <= s.lastClus
  {
    Times(s.lastClus + 1 - s.firstClus, v.secPerClus)
  }

  /** The chain of the log is consecutive, terminated, and followed by free clusters only. */
  ghost predicate FatPart(d: Disk, v: Volume, hi: nat, s: LogState) {
    && v.Fits(hi)
    && CopiesAgree(d, v)
    && 2 <= s.firstClus <= s.lastClus < hi
    && IsChain(FatView(d, v, 0), LogChain(s))
    && FreeSuffix(FatView(d, v, 0), s.lastClus + 1, hi)
  }

  /** From start on: content, then zeros up to cap sectors. */
  ghost predicate Holds(d: Disk, start: nat, cap: nat, content: seq<Sector>) {
    && |content| <= cap
    && forall l: nat :: start <= l < start + cap ==>
         Get(d, l) == if l - start < |content| then content[l - start] else ZeroSector()
  }

  ghost predicate LogInv(d: Disk, v: Volume, hi: nat, s: LogState, content: seq<Sector>) {
    && FatPart(d, v, hi, s)
    && StateOk(s)
    && var start := ClusterStart(v, s.firstClus);
    && Holds(d, start, Capacity(v, s), content)
    && s.curLba == start + |content|
    && s.endLba <= start + Capacity(v, s)
    && s.bytesWritten == SECTOR_SIZE * |content| % U32
    && v.dataLba <= s.dirLba < start
  }

  lemma LogChainLbas(v: Volume, s: LogState, j: nat)
    requires 2 <= s.firstClus <= s.lastClus && j < Capacity(v, s)
    ensures Clusters(LogChain(s)) && ChainLbas(v, LogChain(s))[j] == ClusterStart(v, s.firstClus) + j
  {
    hide ChainLbas, Times;
    assert LogChain(s)[0] == s.firstClus;
    ContiguousLba(v, LogChain(s), j);
  }

  lemma {:induction false} HoldsRead(d: Disk, lbas: seq<nat>, start: nat, content: seq<Sector>)
    requires Holds(d, start, |lbas|, content)
    requires forall j :: 0 <= j < |lbas| ==> lbas[j] == start + j
    ensures Read(d, lbas) == content + ZeroSectors(|lbas| - |content|)
  {}

  /** What the file holds for a reader that follows the FAT chain, and where the write
      position lies on that chain. */
  lemma ChainReadsContent(d: Disk, v: Volume, hi: nat, s: LogState, content: seq<Sector>)
    requires LogInv(d, v, hi, s, content)
    ensures Clusters(LogChain(s))
    ensures FileSectors(d, v, LogChain(s)) == content + ZeroSectors(Capacity(v, s) - |content|)
    ensures |content| < Capacity(v, s) ==> s.curLba == ChainLbas(v, LogChain(s))[|content|]
  {
    hide ChainLbas, Times, IsChain, FatView, FreeSuffix, CopiesAgree, Holds, Read;
    assert Clusters(LogChain(s));
    forall j | 0 <= j < Capacity(v, s)
      ensures ChainLbas(v, LogChain(s))[j] == ClusterStart(v, s.firstClus) + j
    {
      LogChainLbas(v, s, j);
    }
    HoldsRead(d, ChainLbas(v, LogChain(s)), ClusterStart(v, s.firstClus), content);
  }

  // ---- every operation keeps it ---------------------------------------------------------

  /** Writing outside the FAT keeps the FAT part. */
  lemma DataWriteFat(d: Disk, v: Volume, hi: nat, s: LogState, t: LogState, lba: nat, data: Sector)
    requires FatPart(d, v, hi, s) && lba >= v.dataLba
    requires t.firstClus == s.firstClus && t.lastClus == s.lastClus
    ensures FatPart(d[lba := data], v, hi, t)
  {
    hide Times, FatView, IsChain, FreeSuffix, CopiesAgree;
    SameFat(d, d[lba := data], v);
  }

  lemma HoldsMore(d: Disk, start: nat, cap: nat, content: seq<Sector>, data: Sector)
    requires Holds(d, start, cap, content) && |content| < cap
    ensures Holds(d[start + |content| := data], start, cap, content + [data])
  {
    var e := d[start + |content| := data];
    forall l: nat | start <= l < start + cap
      ensures Get(e, l) == if l - start < |content + [data]| then (content + [data])[l - start] else ZeroSector()
    {
      GetUpdate(d, start + |content|, data, l);
    }
  }

  lemma HoldsElsewhere(d: Disk, start: nat, cap: nat, content: seq<Sector>, lba: nat, data: Sector)
    requires Holds(d, start, cap, content) && lba < start
    ensures Holds(d[lba := data], start, cap, content)
  {
    var e := d[lba := data];
    forall l: nat | start <= l < start + cap
      ensures Get(e, l) == if l - start < |content| then content[l - start] else ZeroSector()
    {
      GetUpdate(d, lba, data, l);
    }
  }

  /** The chain of an open log ends within 32 bits. */
  lemma CapacityFits(d: Disk, v: Volume, hi: nat, s: LogState)
    requires FatPart(d, v, hi, s)
    ensures 2 <= s.firstClus <= s.lastClus
    ensures ClusterStart(v, s.firstClus) + Capacity(v, s) <= ClusterStart(v, hi) < U32
  {
    hide Times, FatView, IsChain, CopiesAgree, FreeSuffix;
    StretchFits(v, hi, s.firstClus, s.lastClus + 1 - s.firstClus, Capacity(v, s));
  }

  lemma PutKeeps(d: Disk, v: Volume, hi: nat, s: LogState, content: seq<Sector>, data: Sector)
    requires LogInv(d, v, hi, s, content) && |content| < Capacity(v, s)
    ensures var (e, t) := Put(d, s, data); LogInv(e, v, hi, t, content + [data])
  {
    hide Times, FatPart, Holds, ClusterStart;
    CapacityFits(d, v, hi, s);
    var (e, t) := Put(d, s, data);
    DataWriteFat(d, v, hi, s, t, s.curLba, data);
    HoldsMore(d, ClusterStart(v, s.firstClus), Capacity(v, s), content, data);
  }

  lemma UpdateSizeKeeps(d: Disk, v: Volume, hi: nat, s: LogState, content: seq<Sector>)
    requires LogInv(d, v, hi, s, content)
    ensures var (e, t) := Step(d, v, hi, s, UpdateSize); LogInv(e, v, hi, t, content)
  {
    hide Times, Holds;
    var data := WithSize(Get(d, s.dirLba), s.dirOffset, s.bytesWritten);
    assert FatPart(d[s.dirLba := data], v, hi, s) by {
      DataWriteFat(d, v, hi, s, s, s.dirLba, data);
    }
    hide FatPart;
    HoldsElsewhere(d, ClusterStart(v, s.firstClus), Capacity(v, s), content, s.dirLba, data);
  }

  /** The two FAT stores of an extension, seen through any copy. */
  lemma ExtensionStores(d: Disk, v: Volume, last: nat, c: nat)
    requires v.Layout() && last < v.EntryCount() && c < v.EntryCount() && c < ENTRY_LIMIT
    ensures var e := WriteEntry(WriteEntry(d, v, last, c), v, c, EOC);
            && (forall g: nat :: g < v.numFats ==> FatView(e, v, g) == Extended(FatView(d, v, g), last, c))
            && (CopiesAgree(d, v) ==> CopiesAgree(e, v))
            && (forall l: nat :: !InFat(v, l) ==> Get(e, l) == Get(d, l))
  {
    StoreRefinesMap(d, v, last, c);
    StoreRefinesMap(WriteEntry(d, v, last, c), v, c, EOC);
  }

  lemma ZeroRangeFat(d: Disk, v: Volume, lo: nat, hi: nat)
    requires v.Layout() && lo >= v.dataLba
    ensures forall g: nat :: g < v.numFats ==> FatView(ZeroRange(d, lo, hi), v, g) == FatView(d, v, g)
    ensures CopiesAgree(d, v) <==> CopiesAgree(ZeroRange(d, lo, hi), v)
  {
    ZeroRangeGet(d, lo, hi);
    SameFat(d, ZeroRange(d, lo, hi), v);
  }

  /** When the disk is not full, the lowest free cluster is the one after the last. */
  lemma NextCluster(d: Disk, v: Volume, hi: nat, s: LogState)
    requires FatPart(d, v, hi, s) && |FreeOnDisk(d, v, hi)| > 0
    ensures FreeOnDisk(d, v, hi)[0] == s.lastClus + 1 < hi
    ensures FreeList(FatView(d, v, 0), 2, hi) == Range(s.lastClus + 1, hi)
  {
    hide FatView;
    SuffixFreeList(FatView(d, v, 0), s.lastClus + 1, hi);
  }

  lemma FitsBelowMarks(v: Volume, hi: nat)
    requires v.Fits(hi)
    ensures v.Layout() && hi < EOC_MIN && hi <= v.EntryCount()
  {}

  /** The extension, with the addresses free of wrap-around. */
  lemma ExtendIs(d: Disk, v: Volume, hi: nat, s: LogState)
    requires v.Fits(hi) && |FreeOnDisk(d, v, hi)| > 0 && 2 <= s.lastClus
    requires FreeOnDisk(d, v, hi)[0] == s.lastClus + 1 < hi
    ensures Extend(d, v, hi, s) ==
            (WithCluster(d, v, s.lastClus, s.lastClus + 1),
             s.(endLba := ClusterStart(v, s.lastClus + 1) + v.secPerClus, lastClus := s.lastClus + 1))
  {
    hide Times, FatView, WithCluster, FreeList, FreeOnDisk, ClusToLba;
    NoWrap(v, hi, s.lastClus + 1);
  }

  lemma ExtendedFatPart(fat: seq<nat>, hi: nat, s: LogState, t: LogState)
    requires 2 <= s.firstClus <= s.lastClus < hi < EOC_MIN && FreeSuffix(fat, s.lastClus + 1, hi)
    requires IsChain(fat, LogChain(s)) && s.lastClus + 1 < hi
    requires t.firstClus == s.firstClus && t.lastClus == s.lastClus + 1
    ensures IsChain(Extended(fat, s.lastClus, t.lastClus), LogChain(t))
    ensures FreeSuffix(Extended(fat, s.lastClus, t.lastClus), t.lastClus + 1, hi)
  {
    SuffixFreeList(fat, s.lastClus + 1, hi);
    ExtensionOwnChain(fat, hi, LogChain(s));
    assert LogChain(t) == LogChain(s) + [t.lastClus];
  }

  lemma WithClusterView(d: Disk, v: Volume, hi: nat, last: nat, c: nat)
    requires v.Fits(hi) && last < hi && 2 <= c < hi
    ensures CopiesAgree(d, v) ==> CopiesAgree(WithCluster(d, v, last, c), v)
    ensures FatView(WithCluster(d, v, last, c), v, 0) == Extended(FatView(d, v, 0), last, c)
    ensures var lba := ClusterStart(v, c);
            forall l: nat :: !InFat(v, l) ==>
              Get(WithCluster(d, v, last, c), l) ==
              if lba <= l < lba + v.secPerClus then ZeroSector() else Get(d, l)
  {
    hide Times, FatView, WriteEntry, CopiesAgree, ZeroRange, ClusToLba;
    ExtensionStores(d, v, last, c);
    NoWrap(v, hi, c);
    assert ClusterStart(v, c) >= v.dataLba &&
           (ClusterStart(v, c) + v.secPerClus) % U32 == ClusterStart(v, c) + v.secPerClus;
    hide ClusterStart, Volume.Fits;
    var d2 := WriteEntry(WriteEntry(d, v, last, c), v, c, EOC);
    var lba := ClusterStart(v, c);
    ZeroRangeFat(d2, v, lba, lba + v.secPerClus);
    ZeroRangeGet(d2, lba, lba + v.secPerClus);
  }

  lemma ExtendFat(d: Disk, v: Volume, hi: nat, s: LogState)
    requires FatPart(d, v, hi, s) && |FreeOnDisk(d, v, hi)| > 0
    ensures var (e, t) := Extend(d, v, hi, s);
            && FatPart(e, v, hi, t)
            && t == s.(endLba := ClusterStart(v, s.lastClus + 1) + v.secPerClus, lastClus := s.lastClus + 1)
            && e == WithCluster(d, v, s.lastClus, s.lastClus + 1)
  {
    hide Extend, FatView, WithCluster, IsChain, FreeSuffix, CopiesAgree, FreeList, ClusToLba, FreeOnDisk, ClusterStart,
         Extended, Volume.Fits;
    var (e, t) := Extend(d, v, hi, s);
    NextCluster(d, v, hi, s);
    ExtendIs(d, v, hi, s);
    WithClusterView(d, v, hi, s.lastClus, s.lastClus + 1);
    FitsBelowMarks(v, hi);
    ExtendedFatPart(FatView(d, v, 0), hi, s, t);
  }

  lemma HoldsLonger(d: Disk, e: Disk, start: nat, cap: nat, more: nat, content: seq<Sector>)
    requires Holds(d, start, cap, content)
    requires forall l: nat :: start <= l ==>
               Get(e, l) == if start + cap <= l < start + cap + more then ZeroSector() else Get(d, l)
    ensures Holds(e, start, cap + more, content)
  {}

  lemma ExtendKeeps(d: Disk, v: Volume, hi: nat, s: LogState, content: seq<Sector>)
    requires LogInv(d, v, hi, s, content) && |FreeOnDisk(d, v, hi)| > 0
    ensures var (e, t) := Extend(d, v, hi, s);
            LogInv(e, v, hi, t, content) && Capacity(v, t) == Capacity(v, s) + v.secPerClus
  {
    hide FatView, IsChain, FreeSuffix, CopiesAgree, FreeList, WithCluster, Holds;
    ExtendFat(d, v, hi, s);
    WithClusterView(d, v, hi, s.lastClus, s.lastClus + 1);
    var (e, t) := Extend(d, v, hi, s);
    assert Capacity(v, t) == Capacity(v, s) + v.secPerClus;
    hide Extend, FatPart, FreeOnDisk, Times;
    StretchStart(v, s.firstClus, s.lastClus + 1 - s.firstClus);
    HoldsLonger(d, e, ClusterStart(v, s.firstClus), Capacity(v, s), v.secPerClus, content);
  }

  lemma StepKeeps(d: Disk, v: Volume, hi: nat, s: LogState, content: seq<Sector>, op: FileOp)
    requires LogInv(d, v, hi, s, content) && Enabled(d, v, hi, s, op)
    ensures var (e, t) := Step(d, v, hi, s, op); LogInv(e, v, hi, t, content + Appended([op]))
  {
    assert Appended([op]) == if op.Append? then [op.data] else [];
    match op
    case Append(data) =>
      if Full(s) {
        ExtendKeeps(d, v, hi, s, content);
        var (e, t) := Extend(d, v, hi, s);
        PutKeeps(e, v, hi, t, content, data);
      } else {
        PutKeeps(d, v, hi, s, content, data);
      }
    case UpdateSize =>
      UpdateSizeKeeps(d, v, hi, s, content);
      assert content + [] == content;
  }

  /** Over every run the file holds what was appended, in order, then zeros. */
  lemma {:induction false} RunKeeps(d: Disk, v: Volume, hi: nat, s: LogState, content: seq<Sector>, ops: seq<FileOp>)
    requires LogInv(d, v, hi, s, content) && CanRun(d, v, hi, s, ops)
    ensures var (e, t) := Run(d, v, hi, s, ops); LogInv(e, v, hi, t, content + Appended(ops))
    decreases |ops|
  {
    hide LogInv, Step, Enabled, Appended, StateOk;
    if ops == [] {
      NoneAppended();
      assert content + [] == content;
    } else {
      StepKeeps(d, v, hi, s, content, ops[0]);
      var (e, t) := Step(d, v, hi, s, ops[0]);
      RunKeeps(e, v, hi, t, content + Appended([ops[0]]), ops[1..]);
      FirstAppended(ops);
      assert content + Appended([ops[0]]) + Appended(ops[1..]) == content + Appended(ops);
    }
  }

  lemma NoneAppended()
    ensures Appended([]) == []
  {}

  lemma FirstAppended(ops: seq<FileOp>)
    requires ops != []
    ensures Appended(ops) == Appended([ops[0]]) + Appended(ops[1..])
    ensures |Appended([ops[0]])| == if ops[0].Append? then 1 else 0
  {}

  // ---- what the log leaves alone ----------------------------------------------------------

  /** l is neither a FAT sector nor one of a cluster from `first` up to hi. */
  predicate Apart(v: Volume, hi: nat, first: nat, l: nat)
    requires 2 <= first && 2 <= hi
  {
    !InFat(v, l) && !(ClusterStart(v, first) <= l < ClusterStart(v, hi))
  }

  /** Sectors outside the FAT and outside the clusters from the first of the log to the end of
      the range are as they were, but for the size field. */
  ghost predicate OthersKept(d: Disk, e: Disk, v: Volume, hi: nat, s: LogState)
    requires s.dirOffset + 32 <= SECTOR_SIZE && s.firstClus >= 2 && hi >= 2
  {
    && (forall l: nat :: Apart(v, hi, s.firstClus, l) && l != s.dirLba ==> Get(e, l) == Get(d, l))
    && SameButSize(Get(d, s.dirLba), Get(e, s.dirLba), s.dirOffset)
  }

  lemma ExtendOthers(d: Disk, v: Volume, hi: nat, s: LogState)
    requires FatPart(d, v, hi, s) && |FreeOnDisk(d, v, hi)| > 0
    ensures var (e, t) := Extend(d, v, hi, s);
            && t == s.(endLba := t.endLba, lastClus := t.lastClus)
            && forall l: nat :: Apart(v, hi, s.firstClus, l) ==> Get(e, l) == Get(d, l)
  {
    hide WithCluster, FatView, IsChain, FreeSuffix, CopiesAgree, Times, FreeList;
    ExtendFat(d, v, hi, s);
    hide Extend;
    WithClusterView(d, v, hi, s.lastClus, s.lastClus + 1);
    NextCluster(d, v, hi, s);
    NoWrap(v, hi, s.lastClus + 1);
    hide FatPart;
    ClusterOrder(v, s.firstClus, s.lastClus + 1);
  }

  lemma PutOthers(d: Disk, s: LogState, data: Sector, start: nat, end: nat)
    requires start <= s.curLba < end
    ensures var (e, t) := Put(d, s, data); forall l: nat :: !(start <= l < end) ==> Get(e, l) == Get(d, l)
  {}

  lemma AppendOthers(d: Disk, v: Volume, hi: nat, s: LogState, content: seq<Sector>, data: Sector)
    requires LogInv(d, v, hi, s, content) && Enabled(d, v, hi, s, Append(data))
    ensures var (e, t) := Step(d, v, hi, s, Append(data));
            && t.firstClus == s.firstClus && t.dirLba == s.dirLba && t.dirOffset == s.dirOffset
            && forall l: nat :: Apart(v, hi, s.firstClus, l) ==> Get(e, l) == Get(d, l)
  {
    hide Holds, Times, Extend, FatPart, FreeOnDisk;
    CapacityFits(d, v, hi, s);
    var start, end := ClusterStart(v, s.firstClus), ClusterStart(v, hi);
    if Full(s) {
      WithinCapacity(d, v, hi, s, content);
      ExtendOthers(d, v, hi, s);
      ExtendKeeps(d, v, hi, s, content);
      var (b, u) := Extend(d, v, hi, s);
      CapacityFits(b, v, hi, u);
      PutOthers(b, u, data, start, end);
    } else {
      PutOthers(d, s, data, start, end);
    }
  }

  lemma StepOthers(d: Disk, v: Volume, hi: nat, s: LogState, content: seq<Sector>, op: FileOp)
    requires LogInv(d, v, hi, s, content) && Enabled(d, v, hi, s, op)
    ensures var (e, t) := Step(d, v, hi, s, op);
            && t.firstClus == s.firstClus && t.dirLba == s.dirLba && t.dirOffset == s.dirOffset
            && OthersKept(d, e, v, hi, s)
  {
    hide Apart;
    match op
    case Append(data) =>
      AppendOthers(d, v, hi, s, content, data);
      DirectoryApart(d, v, hi, s, content);
    case UpdateSize =>
      var data := WithSize(Get(d, s.dirLba), s.dirOffset, s.bytesWritten);
      forall l: nat ensures Get(d[s.dirLba := data], l) == if l == s.dirLba then data else Get(d, l) {
        GetUpdate(d, s.dirLba, data, l);
      }
  }

  lemma DirectoryApart(d: Disk, v: Volume, hi: nat, s: LogState, content: seq<Sector>)
    requires LogInv(d, v, hi, s, content)
    ensures 2 <= s.firstClus && 2 <= hi && Apart(v, hi, s.firstClus, s.dirLba)
  {
    hide Holds, Times, FatView, IsChain;
  }

  lemma {:induction false} RunOthers(d: Disk, v: Volume, hi: nat, s: LogState, content: seq<Sector>, ops: seq<FileOp>)
    requires LogInv(d, v, hi, s, content) && CanRun(d, v, hi, s, ops)
    ensures var (e, t) := Run(d, v, hi, s, ops);
            && t.firstClus == s.firstClus && t.dirLba == s.dirLba && t.dirOffset == s.dirOffset
            && OthersKept(d, e, v, hi, s)
    decreases |ops|
  {
    hide LogInv, Step, Enabled, Appended, StateOk;
    if ops != [] {
      StepOthers(d, v, hi, s, content, ops[0]);
      StepKeeps(d, v, hi, s, content, ops[0]);
      var (e, t) := Step(d, v, hi, s, ops[0]);
      RunOthers(e, v, hi, t, content + Appended([ops[0]]), ops[1..]);
    }
  }

  // ---- creation ------------------------------------------------------------------------------

  /** What creation is given: copies in step, a free suffix long enough for the file, a
      size of whole clusters and a directory slot in a cluster that is in use. */
  ghost predicate Creatable(d: Disk, v: Volume, hi: nat, k: nat, size: nat, dirLba: nat, dirOffset: nat) {
    && v.Fits(hi) && CopiesAgree(d, v)
    && 2 <= k <= hi && FreeSuffix(FatView(d, v, 0), k, hi)
    && SECTOR_SIZE <= size < U32
    && var n := ClustersFor(v, size / SECTOR_SIZE);
    && k + n <= hi
    && Times(n, v.secPerClus) == size / SECTOR_SIZE
    && v.dataLba <= dirLba < ClusterStart(v, k) && dirOffset + 32 <= SECTOR_SIZE
  }

  lemma RangePrefix(k: nat, n: nat, hi: nat)
    requires k + n <= hi
    ensures Range(k, hi)[..n] == Range(k, k + n)
  {}

  lemma LinkedSuffix(fat: seq<nat>, k: nat, n: nat, hi: nat)
    requires 2 <= k && 1 <= n && k + n <= hi < EOC_MIN && FreeSuffix(fat, k, hi)
    ensures IsChain(Linked(fat, Range(k, k + n)), Range(k, k + n))
    ensures FreeSuffix(Linked(fat, Range(k, k + n)), k + n, hi)
  {
    SuffixFreeList(fat, k, hi);
    RangePrefix(k, n, hi);
    AllocationEffect(fat, hi, n);
    var p := Range(k, k + n);
    var g := Linked(fat, p);
    hide Linked;
    forall c | 2 <= c < hi ensures g[c] == 0 <==> c >= k + n {
      if k <= c < k + n {
        assert p[c - k] == c;
        assert g[c] == (if c < k + n - 1 then p[c - k + 1] else g[p[n - 1]]);
      }
    }
  }

  /** On a free suffix, creation takes the clusters k, k+1, .. */
  lemma CreateSuffix(d: Disk, v: Volume, hi: nat, k: nat, name: seq<byte>, size: nat, dirLba: nat,
                     dirOffset: nat)
    requires |name| == 11 && Creatable(d, v, hi, k, size, dirLba, dirOffset)
    ensures ClustersFor(v, size / SECTOR_SIZE) <= |FreeOnDisk(d, v, hi)|
    ensures var n := ClustersFor(v, size / SECTOR_SIZE);
            var start := ClusterStart(v, k);
            var nSectors := size / SECTOR_SIZE;
            var (e, t) := Create(d, v, hi, name, size, dirLba, dirOffset);
            && t == LogState(k, start, start + nSectors, dirLba, dirOffset, 0, size, k + n - 1)
            && e == NewFile(d, v, Range(k, k + n), start, start + nSectors, dirLba, dirOffset, DirEntry(name, k, size))
  {
    hide Times, FatView, NewFile, CopiesAgree, FreeList, DirEntry, Range;
    var n := ClustersFor(v, size / SECTOR_SIZE);
    SuffixFreeList(FatView(d, v, 0), k, hi);
    hide FreeSuffix;
    RangePrefix(k, n, hi);
    NoWrap(v, hi, k);
    hide ClusToLba;
    StretchFits(v, hi, k, n, size / SECTOR_SIZE);
  }

  lemma NewFileFat(d: Disk, v: Volume, hi: nat, k: nat, n: nat, nSectors: nat, s: LogState)
    requires v.Fits(hi) && CopiesAgree(d, v) && 2 <= k && 1 <= n && k + n <= hi
    requires FreeSuffix(FatView(d, v, 0), k, hi) && s.firstClus == k && s.lastClus == k + n - 1
    ensures var start := ClusterStart(v, k);
            var z := ZeroRange(LinkDisk(d, v, Range(k, k + n)), start, start + nSectors);
            && FatPart(z, v, hi, s)
            && forall l: nat :: !InFat(v, l) ==>
                 Get(z, l) == if start <= l < start + nSectors then ZeroSector() else Get(d, l)
  {
    hide LinkDisk, Linked, FatView, Times, IsChain, CopiesAgree;
    var p := Range(k, k + n);
    var start := ClusterStart(v, k);
    var b := LinkDisk(d, v, p);
    LinkDiskView(d, v, p);
    LinkedSuffix(FatView(d, v, 0), k, n, hi);
    ZeroRangeFat(b, v, start, start + nSectors);
    hide FreeSuffix, ZeroRange;
    assert LogChain(s) == p;
    ZeroRangeGet(b, start, start + nSectors);
  }

  /** Creation on a free suffix opens an empty log whose chain is all zeros. */
  lemma CreateOpensLog(d: Disk, v: Volume, hi: nat, k: nat, name: seq<byte>, size: nat,
                       dirLba: nat, dirOffset: nat)
    requires |name| == 11 && Creatable(d, v, hi, k, size, dirLba, dirOffset)
    ensures ClustersFor(v, size / SECTOR_SIZE) <= |FreeOnDisk(d, v, hi)|
    ensures var (e, t) := Create(d, v, hi, name, size, dirLba, dirOffset); LogInv(e, v, hi, t, [])
  {
    hide Times, FatView, LinkDisk, ZeroRange, CopiesAgree, FreeSuffix, FreeList, DirEntry, Splice, Holds;
    CreateSuffix(d, v, hi, k, name, size, dirLba, dirOffset);
    var (e, t) := Create(d, v, hi, name, size, dirLba, dirOffset);
    hide Create, FreeOnDisk;
    NewFileOpens(d, v, hi, k, size, t, DirEntry(name, k, size));
  }

  lemma NewFileOpens(d: Disk, v: Volume, hi: nat, k: nat, size: nat, t: LogState, entry: seq<byte>)
    requires |entry| == 32 && Creatable(d, v, hi, k, size, t.dirLba, t.dirOffset)
    requires var start := ClusterStart(v, k);
             var n := ClustersFor(v, size / SECTOR_SIZE);
             t == LogState(k, start, start + size / SECTOR_SIZE, t.dirLba, t.dirOffset, 0, size, k + n - 1)
    ensures var start := ClusterStart(v, k);
            var n := ClustersFor(v, size / SECTOR_SIZE);
            var e := NewFile(d, v, Range(k, k + n), start, start + size / SECTOR_SIZE, t.dirLba, t.dirOffset, entry);
            LogInv(e, v, hi, t, [])
  {
    hide Times, FatView, LinkDisk, ZeroRange, CopiesAgree, FreeSuffix, Splice, FatPart, FreeList;
    var n := ClustersFor(v, size / SECTOR_SIZE);
    StretchFits(v, hi, k, n, size / SECTOR_SIZE);
    NewFileFat(d, v, hi, k, n, size / SECTOR_SIZE, t);
    var start := ClusterStart(v, k);
    var z := ZeroRange(LinkDisk(d, v, Range(k, k + n)), start, start + size / SECTOR_SIZE);
    assert Capacity(v, t) == size / SECTOR_SIZE && v.dataLba <= t.dirLba < start;
    hide Creatable, Range;
    assert Holds(z, start, Capacity(v, t), []);
    hide Holds;
    var patched := Splice(Get(z, t.dirLba), t.dirOffset, entry);
    DataWriteFat(z, v, hi, t, t, t.dirLba, patched);
    HoldsElsewhere(z, start, Capacity(v, t), [], t.dirLba, patched);
  }

  /** In every FAT copy exactly one chain starts at the first cluster of the log. */
  lemma OnlyChain(d: Disk, v: Volume, hi: nat, s: LogState)
    requires FatPart(d, v, hi, s)
    ensures forall f: nat :: f < v.numFats ==> IsChain(FatView(d, v, f), LogChain(s))
    ensures forall f: nat, p :: f < v.numFats && IsChain(FatView(d, v, f), p) && p[0] == s.firstClus ==>
              p == LogChain(s)
  {
    hide FatView, Times;
    forall f: nat, p | f < v.numFats && IsChain(FatView(d, v, f), p) && p[0] == s.firstClus ensures p == LogChain(s) {
      assert FatView(d, v, f) == FatView(d, v, 0);
      ChainUnique(FatView(d, v, 0), p, LogChain(s));
    }
  }

  /** A reader that follows the FAT chain from `first` finds `written` and then zeros, and
      the linear write position is the next sector of that chain. */
  ghost predicate ReadsBack(d: Disk, v: Volume, s: LogState, first: nat, written: seq<Sector>) {
    && s.firstClus == first <= s.lastClus
    && (forall f: nat :: f < v.numFats ==> IsChain(FatView(d, v, f), LogChain(s)))
    && (forall f: nat, p :: f < v.numFats && IsChain(FatView(d, v, f), p) && p[0] == first ==> p == LogChain(s))
    && Clusters(LogChain(s))
    && |written| <= Capacity(v, s)
    && FileSectors(d, v, LogChain(s)) == written + ZeroSectors(Capacity(v, s) - |written|)
    && (|written| < Capacity(v, s) ==> s.curLba == ChainLbas(v, LogChain(s))[|written|])
    && s.bytesWritten == SECTOR_SIZE * |written| % U32
  }

  lemma InvReadsBack(d: Disk, v: Volume, hi: nat, s: LogState, written: seq<Sector>)
    requires LogInv(d, v, hi, s, written)
    ensures ReadsBack(d, v, s, s.firstClus, written)
  {
    hide Times, FatView, ChainLbas, FileSectors, CopiesAgree, FreeSuffix, IsChain, ZeroSectors;
    ChainReadsContent(d, v, hi, s, written);
    OnlyChain(d, v, hi, s);
    hide FatPart;
    assert |written| <= Capacity(v, s);
  }

  // ---- how far a run can go, and how much it takes -----------------------------------------------

  /** The write limit is the end of the chain, and no cluster beyond the first n was taken
      before it was needed. */
  ghost predicate Tight(v: Volume, s: LogState, n: nat, written: nat) {
    && 2 <= s.firstClus <= s.lastClus
    && s.endLba == ClusterStart(v, s.firstClus) + Capacity(v, s)
    && s.lastClus + 1 - s.firstClus >= n
    && (s.lastClus + 1 - s.firstClus > n ==> Times(s.lastClus - s.firstClus, v.secPerClus) < written)
  }

  lemma ExtendTight(d: Disk, v: Volume, hi: nat, s: LogState, content: seq<Sector>, n: nat)
    requires LogInv(d, v, hi, s, content) && Tight(v, s, n, |content|) && Full(s) && |FreeOnDisk(d, v, hi)| > 0
    ensures Tight(v, Extend(d, v, hi, s).1, n, |content| + 1)
  {
    hide Holds, FreeOnDisk, WithCluster, FatView, IsChain, CopiesAgree, FreeSuffix;
    ExtendFat(d, v, hi, s);
    var t := Extend(d, v, hi, s).1;
    hide Extend, Times;
    StretchStart(v, s.firstClus, s.lastClus + 1 - s.firstClus);
    assert Capacity(v, t) == Capacity(v, s) + v.secPerClus by { NextCapacity(v, s, t); }
  }

  lemma NextCapacity(v: Volume, s: LogState, t: LogState)
    requires s.firstClus <= s.lastClus && t.firstClus == s.firstClus && t.lastClus == s.lastClus + 1
    ensures Capacity(v, t) == Capacity(v, s) + v.secPerClus
  {}

  lemma StepTight(d: Disk, v: Volume, hi: nat, s: LogState, content: seq<Sector>, op: FileOp, n: nat)
    requires LogInv(d, v, hi, s, content) && Enabled(d, v, hi, s, op) && Tight(v, s, n, |content|)
    ensures Tight(v, Step(d, v, hi, s, op).1, n, |content| + |Appended([op])|)
  {
    hide LogInv, Extend, Times, FreeOnDisk;
    assert Appended([op]) == if op.Append? then [op.data] else [];
    if op.Append? && Full(s) {
      ExtendTight(d, v, hi, s, content, n);
    }
  }

  /** With the write limit at the end of the chain, the extension search is entered exactly
      when the chain is full, and fails to find a cluster exactly when none is left. */
  lemma EnabledIff(d: Disk, v: Volume, hi: nat, s: LogState, content: seq<Sector>, op: FileOp,
                   n: nat)
    requires LogInv(d, v, hi, s, content) && Tight(v, s, n, |content|)
    ensures |content| <= Times(hi - s.firstClus, v.secPerClus) && StateOk(s)
    ensures Enabled(d, v, hi, s, op) <==> |content| + |Appended([op])| <= Times(hi - s.firstClus, v.secPerClus)
  {
    hide Holds, FatView, IsChain, CopiesAgree, FreeSuffix, Volume.Layout, FreeOnDisk;
    assert Appended([op]) == if op.Append? then [op.data] else [];
    WithinCapacity(d, v, hi, s, content);
    FreeAfterLast(d, v, hi, s);
    hide FatPart, Times;
    TimesMono(s.lastClus + 1 - s.firstClus, hi - s.firstClus, v.secPerClus);
  }

  lemma FreeAfterLast(d: Disk, v: Volume, hi: nat, s: LogState)
    requires FatPart(d, v, hi, s)
    ensures v.Fits(hi) && s.lastClus < hi && v.secPerClus >= 1
    ensures |FreeOnDisk(d, v, hi)| == hi - (s.lastClus + 1)
  {
    hide FatView;
    SuffixFreeList(FatView(d, v, 0), s.lastClus + 1, hi);
  }

  /** A run never lacks a cluster exactly when all that it appends fits between the first
      cluster of the file and the end of the FAT. */
  lemma {:induction false} CanRunIff(d: Disk, v: Volume, hi: nat, s: LogState, content: seq<Sector>, ops: seq<FileOp>,
                                     n: nat)
    requires LogInv(d, v, hi, s, content) && Tight(v, s, n, |content|) && s.firstClus <= hi
    ensures CanRun(d, v, hi, s, ops) <==> |content| + |Appended(ops)| <= Times(hi - s.firstClus, v.secPerClus)
    decreases |ops|
  {
    hide LogInv, Enabled, Step, Tight, Times;
    if ops == [] {
      EnabledIff(d, v, hi, s, content, UpdateSize, n);
    } else {
      EnabledIff(d, v, hi, s, content, ops[0], n);
      assert |Appended(ops)| == |Appended([ops[0]])| + |Appended(ops[1..])|;
      if Enabled(d, v, hi, s, ops[0]) {
        StepKeeps(d, v, hi, s, content, ops[0]);
        StepTight(d, v, hi, s, content, ops[0], n);
        StepOthers(d, v, hi, s, content, ops[0]);
        var (e, t) := Step(d, v, hi, s, ops[0]);
        CanRunIff(e, v, hi, t, content + Appended([ops[0]]), ops[1..], n);
      }
    }
  }

  lemma {:induction false} RunTight(d: Disk, v: Volume, hi: nat, s: LogState, content: seq<Sector>, ops: seq<FileOp>,
                                    n: nat)
    requires LogInv(d, v, hi, s, content) && Tight(v, s, n, |content|) && CanRun(d, v, hi, s, ops)
    ensures Tight(v, Run(d, v, hi, s, ops).1, n, |content| + |Appended(ops)|)
    decreases |ops|
  {
    hide LogInv, Enabled, Step, Tight;
    if ops != [] {
      StepKeeps(d, v, hi, s, content, ops[0]);
      StepTight(d, v, hi, s, content, ops[0], n);
      var (e, t) := Step(d, v, hi, s, ops[0]);
      RunTight(e, v, hi, t, content + Appended([ops[0]]), ops[1..], n);
      assert |Appended(ops)| == |Appended([ops[0]])| + |Appended(ops[1..])|;
    }
  }

  function Max(a: nat, b: nat): nat { if a < b then b else a }

  lemma TightClusters(v: Volume, s: LogState, n: nat, written: nat)
    requires Tight(v, s, n, written) && written <= Capacity(v, s) && v.secPerClus >= 1 && n >= 1
    ensures s.lastClus + 1 - s.firstClus == Max(n, ClustersFor(v, written))
  {
    hide Times, ClustersFor;
    var c, m := s.lastClus + 1 - s.firstClus, ClustersFor(v, written);
    if written == 0 {
      NoClusters(v);
    } else {
      if c < m { TimesMono(c, m - 1, v.secPerClus); }
      if m < c { TimesMono(m, c - 1, v.secPerClus); }
    }
  }

  lemma NoClusters(v: Volume)
    requires v.secPerClus >= 1
    ensures ClustersFor(v, 0) == 0
  {}

  /** The main result. From creation on a free suffix through any run of appends (with
      the extensions they cause) and size updates: in every FAT copy exactly one chain
      starts at the file's first cluster, reading it yields the appended sectors in
      order and then zeros, and the linear write position is the next sector of it. Outside
      the FAT and the clusters from k to hi only the size in the directory has changed. */
  lemma LinearLogRefinesChain(
    d: Disk, v: Volume, hi: nat, k: nat, name: seq<byte>, size: nat, dirLba: nat, dirOffset: nat, ops: seq<FileOp>)
    requires |name| == 11 && Creatable(d, v, hi, k, size, dirLba, dirOffset)
    requires ClustersFor(v, size / SECTOR_SIZE) <= |FreeOnDisk(d, v, hi)|
    requires var (b, s) := Create(d, v, hi, name, size, dirLba, dirOffset); CanRun(b, v, hi, s, ops)
    ensures var (b, s) := Create(d, v, hi, name, size, dirLba, dirOffset);
            var (e, t) := Run(b, v, hi, s, ops);
            ReadsBack(e, v, t, k, Appended(ops)) && s.firstClus == k && OthersKept(b, e, v, hi, s)
  {
    hide Times, FatView, Run, CanRun, OthersKept, FatPart, Holds, CopiesAgree, FreeSuffix, IsChain, FreeList, ReadsBack;
    CreateSuffix(d, v, hi, k, name, size, dirLba, dirOffset);
    CreateOpensLog(d, v, hi, k, name, size, dirLba, dirOffset);
    var (b, s) := Create(d, v, hi, name, size, dirLba, dirOffset);
    hide Create, Creatable, NewFile, LogInv;
    RunKeeps(b, v, hi, s, [], ops);
    RunOthers(b, v, hi, s, [], ops);
    var (e, t) := Run(b, v, hi, s, ops);
    assert [] + Appended(ops) == Appended(ops);
    InvReadsBack(e, v, hi, t, Appended(ops));
  }

  /** After creation on a free suffix a run is possible exactly when what it appends fits
      into the clusters from k to the end of the FAT, and it takes no cluster more than the
      pre-allocation and the sectors written need. */
  lemma LogTakesWhatItNeeds(
    d: Disk, v: Volume, hi: nat, k: nat, name: seq<byte>, size: nat, dirLba: nat, dirOffset: nat, ops: seq<FileOp>)
    requires |name| == 11 && Creatable(d, v, hi, k, size, dirLba, dirOffset)
    requires ClustersFor(v, size / SECTOR_SIZE) <= |FreeOnDisk(d, v, hi)|
    ensures var (b, s) := Create(d, v, hi, name, size, dirLba, dirOffset);
            CanRun(b, v, hi, s, ops) <==> |Appended(ops)| <= Times(hi - k, v.secPerClus)
    ensures var (b, s) := Create(d, v, hi, name, size, dirLba, dirOffset);
            CanRun(b, v, hi, s, ops) ==>
              var t := Run(b, v, hi, s, ops).1;
              && t.lastClus + 1 == k + Max(ClustersFor(v, size / SECTOR_SIZE), ClustersFor(v, |Appended(ops)|))
              && (Full(t) <==> |Appended(ops)| == Times(t.lastClus + 1 - k, v.secPerClus))
  {
    hide FatView, Run, CanRun, CopiesAgree, FreeSuffix, FreeOnDisk, FreeList, ReadsBack, LogInv, Appended, ClustersFor,
         Times, NewFile;
    var (b, s) := Create(d, v, hi, name, size, dirLba, dirOffset);
    var n := ClustersFor(v, size / SECTOR_SIZE);
    CreateSuffix(d, v, hi, k, name, size, dirLba, dirOffset);
    CreateOpensLog(d, v, hi, k, name, size, dirLba, dirOffset);
    hide Create;
    assert Tight(v, s, n, 0);
    CanRunIff(b, v, hi, s, [], ops, n);
    if CanRun(b, v, hi, s, ops) {
      RunTight(b, v, hi, s, [], ops, n);
      RunKeeps(b, v, hi, s, [], ops);
      RunOthers(b, v, hi, s, [], ops);
      var (e, t) := Run(b, v, hi, s, ops);
      assert [] + Appended(ops) == Appended(ops);
      WithinCapacity(e, v, hi, t, Appended(ops));
      TightClusters(v, t, n, |Appended(ops)|);
    }
  }

  /** The pre-allocated size is kept and stays within the chain. */
  lemma PreallocStays(
    d: Disk, v: Volume, hi: nat, k: nat, name: seq<byte>, size: nat, dirLba: nat, dirOffset: nat, ops: seq<FileOp>)
    requires |name| == 11 && Creatable(d, v, hi, k, size, dirLba, dirOffset)
    requires ClustersFor(v, size / SECTOR_SIZE) <= |FreeOnDisk(d, v, hi)|
    requires var (b, s) := Create(d, v, hi, name, size, dirLba, dirOffset); CanRun(b, v, hi, s, ops)
    ensures var (b, s) := Create(d, v, hi, name, size, dirLba, dirOffset);
            var t := Run(b, v, hi, s, ops).1;
            && t.preallocSize == size && t.firstClus <= t.lastClus && size / SECTOR_SIZE <= Capacity(v, t)
  {
    hide FatView, Run, CanRun, CopiesAgree, FreeSuffix, FreeOnDisk, FreeList, ReadsBack, LogInv, Appended, ClustersFor,
         Times, NewFile;
    var (b, s) := Create(d, v, hi, name, size, dirLba, dirOffset);
    var n := ClustersFor(v, size / SECTOR_SIZE);
    CreateSuffix(d, v, hi, k, name, size, dirLba, dirOffset);
    CreateOpensLog(d, v, hi, k, name, size, dirLba, dirOffset);
    hide Create;
    assert Tight(v, s, n, 0);
    RunTight(b, v, hi, s, [], ops, n);
    RunPrealloc(b, v, hi, s, ops);
    var t := Run(b, v, hi, s, ops).1;
    TimesMono(n, t.lastClus + 1 - t.firstClus, v.secPerClus);
  }

  lemma {:induction false} RunPrealloc(d: Disk, v: Volume, hi: nat, s: LogState, ops: seq<FileOp>)
    requires CanRun(d, v, hi, s, ops)
    ensures Run(d, v, hi, s, ops).1.preallocSize == s.preallocSize
    decreases |ops|
  {
    hide FreeOnDisk, WithCluster, ClusToLba, WithSize, Volume.Fits;
    if ops != [] {
      var (e, t) := Step(d, v, hi, s, ops[0]);
      RunPrealloc(e, v, hi, t, ops[1..]);
    }
  }

  /** The write limit moves, and the last cluster with it, exactly when more is appended than
      was pre-allocated. */
  lemma LimitMovesIff(
    d: Disk, v: Volume, hi: nat, k: nat, name: seq<byte>, size: nat, dirLba: nat, dirOffset: nat, ops: seq<FileOp>)
    requires |name| == 11 && Creatable(d, v, hi, k, size, dirLba, dirOffset)
    requires ClustersFor(v, size / SECTOR_SIZE) <= |FreeOnDisk(d, v, hi)|
    requires var (b, s) := Create(d, v, hi, name, size, dirLba, dirOffset); CanRun(b, v, hi, s, ops)
    ensures var (b, s) := Create(d, v, hi, name, size, dirLba, dirOffset);
            var t := Run(b, v, hi, s, ops).1;
            && s.firstClus == k && s.endLba == s.curLba + size / SECTOR_SIZE == ClusterStart(v, k) + size / SECTOR_SIZE
            && if |Appended(ops)| <= size / SECTOR_SIZE then t.endLba == s.endLba && t.lastClus == s.lastClus
               else t.endLba > s.endLba && t.lastClus > s.lastClus
  {
    hide FatView, Run, CanRun, CopiesAgree, FreeSuffix, FreeOnDisk, FreeList, ReadsBack, LogInv, Appended, ClustersFor,
         Times, NewFile;
    var (b, s) := Create(d, v, hi, name, size, dirLba, dirOffset);
    var n := ClustersFor(v, size / SECTOR_SIZE);
    CreateSuffix(d, v, hi, k, name, size, dirLba, dirOffset);
    CreateOpensLog(d, v, hi, k, name, size, dirLba, dirOffset);
    hide Create;
    assert Tight(v, s, n, 0);
    RunTight(b, v, hi, s, [], ops, n);
    RunKeeps(b, v, hi, s, [], ops);
    RunOthers(b, v, hi, s, [], ops);
    var (e, t) := Run(b, v, hi, s, ops);
    assert [] + Appended(ops) == Appended(ops);
    WithinCapacity(e, v, hi, t, Appended(ops));
    TightEnd(v, t, n, |Appended(ops)|);
  }

  lemma TightEnd(v: Volume, s: LogState, n: nat, written: nat)
    requires Tight(v, s, n, written) && written <= Capacity(v, s) && v.secPerClus >= 1
    ensures s.firstClus >= 2
    ensures var limit, end := Times(n, v.secPerClus), s.endLba - ClusterStart(v, s.firstClus);
            if written <= limit then end == limit && s.lastClus + 1 == s.firstClus + n
            else end > limit && s.lastClus + 1 > s.firstClus + n
  {
    hide Times;
    var c := s.lastClus + 1 - s.firstClus;
    TimesMono(n, c, v.secPerClus);
    if c > n { TimesMono(n, c - 1, v.secPerClus); }
  }

  lemma WithinCapacity(d: Disk, v: Volume, hi: nat, s: LogState, content: seq<Sector>)
    requires LogInv(d, v, hi, s, content)
    ensures s.firstClus >= 2 && s.firstClus <= s.lastClus && |content| <= Capacity(v, s)
    ensures s.curLba == ClusterStart(v, s.firstClus) + |content|
  {}
}
