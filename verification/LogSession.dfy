/** What opening, writing, power loss and reopening amount to together: interrupted
    creation, unique names, answers of later scans, and resuming. */
module LogSession {
  import opened Bytes
  import opened SectorDevice
  import opened Volumes
  import opened FatTable
  import opened Chains
  import opened LogSpec
  import opened LogRefinement
  import opened Directory
  import opened CrashSafety
  import opened LogFiles
  import opened LogOpening
  import opened Configs

  // ---- creation interrupted ----------------------------------------------------------------

  /** A state left by an interrupted creation that takes consecutive clusters (free clusters
      further on may be fragmented): in every FAT copy every old chain is still there, every
      old file reads the same, and the directory is the old one, so every scan gives its old
      answer. No entry of a file that has a chain leads to a cluster being taken. */
  lemma InterruptedCreation(d: Disk, e: Disk, v: Volume, hi: nat, size: nat, lo: nat, end: nat,
                            p: seq<nat>)
    requires RootChain(d, v, hi, p) && CopiesAgree(d, v) && v.Fits(hi) && Clusters(p)
    requires SECTOR_SIZE <= size && ClustersFor(v, size / SECTOR_SIZE) <= |FreeOnDisk(d, v, hi)|
    requires FillRegion(d, v, hi, size, lo, end) && Intact(d, e, v, lo, end)
    requires Contiguous(FreeOnDisk(d, v, hi)[..ClustersFor(v, size / SECTOR_SIZE)])
    ensures forall f: nat, q :: f < v.numFats && IsChain(FatView(d, v, f), q) ==> IsChain(FatView(e, v, f), q)
    ensures forall q :: IsChain(FatView(d, v, 0), q) ==> Clusters(q) && FileSectors(e, v, q) == FileSectors(d, v, q)
    ensures Slots(e, ChainLbas(v, p)) == Slots(d, ChainLbas(v, p))
    ensures var slots := Slots(e, ChainLbas(v, p));
            forall n :: 0 <= n < |slots| && HasChain(d, v, EntryCluster(slots[n])) ==>
              EntryCluster(slots[n]) !in FreeOnDisk(d, v, hi)
  {
    hide FatView, IsChain, Intact, ChainLbas, Slots, FileSectors, CopiesAgree, RootChain, Times, Volume.Fits,
         FreeOnDisk, SparesAllocated, FillRegion, Contiguous, ClustersFor, HasChain, EntryCluster;
    RegionSpares(d, v, hi, size, lo, end);
    forall f: nat, q | f < v.numFats && IsChain(FatView(d, v, f), q) ensures IsChain(FatView(e, v, f), q) {
      IntactChains(d, e, v, lo, end, f, q);
    }
    forall q | IsChain(FatView(d, v, 0), q) ensures Clusters(q) && FileSectors(e, v, q) == FileSectors(d, v, q) {
      IntactFiles(d, e, v, lo, end, q);
    }
    IntactDirectory(d, e, v, hi, lo, end, p, []);
    var slots := Slots(e, ChainLbas(v, p));
    forall n | 0 <= n < |slots| && HasChain(d, v, EntryCluster(slots[n]))
      ensures EntryCluster(slots[n]) !in FreeOnDisk(d, v, hi)
    {
      ChainStartsUsed(d, v, hi, EntryCluster(slots[n]));
    }
  }

  lemma RegionSpares(d: Disk, v: Volume, hi: nat, size: nat, lo: nat, end: nat)
    requires v.Fits(hi) && SECTOR_SIZE <= size && ClustersFor(v, size / SECTOR_SIZE) <= |FreeOnDisk(d, v, hi)|
    requires FillRegion(d, v, hi, size, lo, end) &&
             Contiguous(FreeOnDisk(d, v, hi)[..ClustersFor(v, size / SECTOR_SIZE)])
    ensures v.Layout() && SparesAllocated(v, FatView(d, v, 0), lo, end)
  {
    hide FatView, FreeList, Times, SparesAllocated, RegionIsOwn;
    RegionFits(d, v, hi, size, lo, end);
    RegionInData(d, v, hi, size, lo, end);
    ZeroFillSparesIff(v, FatView(d, v, 0), hi, ClustersFor(v, size / SECTOR_SIZE), size / SECTOR_SIZE);
  }

  lemma ChainStartsUsed(d: Disk, v: Volume, hi: nat, first: nat)
    requires v.Fits(hi) && HasChain(d, v, first)
    ensures first !in FreeOnDisk(d, v, hi)
  {
    hide FatView, FreeList;
    var fat := FatView(d, v, 0);
    FreeListSound(fat, 2, hi);
    var q :| IsChain(fat, q) && q[0] == first;
    assert |q| > 1 ==> fat[q[0]] == q[1];
  }

  lemma FitsOf(d: Disk, v: Volume, hi: nat, p: seq<nat>)
    requires RootChain(d, v, hi, p)
    ensures v.Fits(hi) && Clusters(p) && NoDup(p)
  {
    hide FatView;
    ChainAcyclic(FatView(d, v, 0), p);
  }

  // ---- the directory after creation ------------------------------------------------------------

  lemma DirSectorBeforeLog(d: Disk, v: Volume, hi: nat, k: nat, p: seq<nat>, j: nat)
    requires RootChain(d, v, hi, p) && 2 <= k <= hi && FreeSuffix(FatView(d, v, 0), k, hi)
    requires Clusters(p) && j < Times(|p|, v.secPerClus)
    ensures v.dataLba <= ChainLbas(v, p)[j] < ClusterStart(v, k)
  {
    hide ChainLbas, Times, FatView;
    var fat := FatView(d, v, 0);
    var i, t := Decompose(j, |p|, v.secPerClus);
    ChainLbaAt(v, p, i, t);
    assert fat[p[i]] != 0 by {
      if i < |p| - 1 { assert fat[p[i]] == p[i + 1]; }
    }
    ClusterOrder(v, p[i], k);
  }

  lemma DirLbasNoDup(v: Volume, p: seq<nat>)
    requires Clusters(p) && NoDup(p)
    ensures NoDup(ChainLbas(v, p))
  {
    hide ChainLbas, Times;
    forall i, j | 0 <= i < j < |ChainLbas(v, p)| ensures ChainLbas(v, p)[i] != ChainLbas(v, p)[j] {
      ChainLbasApart(v, p, i, j);
    }
  }

  lemma SameSlots(d: Disk, e: Disk, lbas: seq<nat>)
    requires forall j :: 0 <= j < |lbas| ==> Get(e, lbas[j]) == Get(d, lbas[j])
    ensures Slots(e, lbas) == Slots(d, lbas)
  {}

  lemma CreatedRegion(d: Disk, v: Volume, hi: nat, k: nat, size: nat, dirLba: nat, dirOffset: nat)
    requires Creatable(d, v, hi, k, size, dirLba, dirOffset)
    ensures v.secPerClus >= 1 && size < U32 && 2 <= k < U32 && 1 <= ClustersFor(v, size / SECTOR_SIZE) &&
            k + ClustersFor(v, size / SECTOR_SIZE) <= hi
    ensures CopiesAgree(d, v) && FreeSuffix(FatView(d, v, 0), k, hi)
  {
    hide FatView, FreeSuffix, CopiesAgree, Times;
  }

  lemma FillKeepsDirectory(d: Disk, v: Volume, hi: nat, k: nat, n: nat, nSectors: nat, p: seq<nat>)
    requires RootChain(d, v, hi, p) && Clusters(p) && CopiesAgree(d, v)
    requires 2 <= k && 1 <= n && k + n <= hi && FreeSuffix(FatView(d, v, 0), k, hi)
    ensures var z := ZeroRange(LinkDisk(d, v, Range(k, k + n)), ClusterStart(v, k), ClusterStart(v, k) + nSectors);
            Slots(z, ChainLbas(v, p)) == Slots(d, ChainLbas(v, p))
  {
    hide ChainLbas, Times, FatView, IsChain, Slots, LinkDisk, ZeroRange, FreeSuffix, CopiesAgree, FatPart;
    var start, lbas := ClusterStart(v, k), ChainLbas(v, p);
    var z := ZeroRange(LinkDisk(d, v, Range(k, k + n)), start, start + nSectors);
    NewFileFat(d, v, hi, k, n, nSectors, LogState(k, 0, 0, 0, 0, 0, 0, k + n - 1));
    forall j | 0 <= j < |lbas| ensures Get(z, lbas[j]) == Get(d, lbas[j]) {
      DirSectorBeforeLog(d, v, hi, k, p, j);
    }
    SameSlots(d, z, lbas);
  }

  /** Creation changes one slot of the directory: the free one it was given. */
  lemma CreateDirectory(d: Disk, v: Volume, hi: nat, k: nat, name: seq<byte>, size: nat,
                        p: seq<nat>, n: nat)
    requires RootChain(d, v, hi, p) && Clusters(p) && |name| == 11 && n < SLOTS_PER_SECTOR * |ChainLbas(v, p)|
    requires Creatable(d, v, hi, k, size, ChainLbas(v, p)[n / SLOTS_PER_SECTOR], n % SLOTS_PER_SECTOR * SLOT)
    ensures ClustersFor(v, size / SECTOR_SIZE) <= |FreeOnDisk(d, v, hi)|
    ensures var lbas := ChainLbas(v, p);
            var e := Create(d, v, hi, name, size, lbas[n / SLOTS_PER_SECTOR], n % SLOTS_PER_SECTOR * SLOT).0;
            Slots(e, lbas) == Slots(d, lbas)[n := DirEntry(name, k, size)]
  {
    hide ChainLbas, Slots, DirEntry, LinkDisk, ZeroRange, FreeOnDisk, NewFile, Range, Create, RootChain, Creatable,
         ClustersFor, ClusterStart, Clusters;
    var lbas := ChainLbas(v, p);
    CreateSuffix(d, v, hi, k, name, size, lbas[n / SLOTS_PER_SECTOR], n % SLOTS_PER_SECTOR * SLOT);
    CreatedRegion(d, v, hi, k, size, lbas[n / SLOTS_PER_SECTOR], n % SLOTS_PER_SECTOR * SLOT);
    var m := ClustersFor(v, size / SECTOR_SIZE);
    var start := ClusterStart(v, k);
    FillKeepsDirectory(d, v, hi, k, m, size / SECTOR_SIZE, p);
    FitsOf(d, v, hi, p);
    DirLbasNoDup(v, p);
    NewFileSlots(d, v, Range(k, k + m), start, start + size / SECTOR_SIZE, lbas, n, DirEntry(name, k, size));
  }

  lemma NewFileSlots(d: Disk, v: Volume, taken: seq<nat>, lo: nat, end: nat, lbas: seq<nat>, n: nat, entry: Slot)
    requires |taken| > 0 && (forall i :: 0 <= i < |taken| ==> taken[i] < ENTRY_LIMIT)
    requires NoDup(lbas) && n < SLOTS_PER_SECTOR * |lbas|
    ensures Slots(NewFile(d, v, taken, lo, end, lbas[n / SLOTS_PER_SECTOR], n % SLOTS_PER_SECTOR * SLOT, entry),
            lbas) ==
            Slots(ZeroRange(LinkDisk(d, v, taken), lo, end), lbas)[n := entry]
  {
    hide Slots, LinkDisk, ZeroRange, Splice, Get;
    InsertOnDisk(ZeroRange(LinkDisk(d, v, taken), lo, end), lbas, n, entry);
  }

  lemma FreshEntry(num: nat, first: nat, size: nat)
    requires first < U32 && size < U32
    ensures Eligible(DirEntry(LogName(num), first, size)) && DirEntry(LogName(num), first, size)[..11] == LogName(num)
  {}

  ghost predicate OneMatch(slots: seq<Slot>, name: seq<byte>) {
    && (exists a: nat :: Matches(slots, name, a))
    && forall a: nat, b: nat :: Matches(slots, name, a) && Matches(slots, name, b) ==> a == b
  }

  /** Leaving the search because every name is taken puts a second entry in front of the
      one that has the name already. */
  lemma InsertTwice(slots: seq<Slot>, name: seq<byte>, n: nat, entry: Slot)
    requires Scan(slots, name).Found? && n < Scan(slots, name).slot && n < |slots|
    requires Eligible(entry) && entry[..11] == name
    ensures var after := slots[n := entry];
            Matches(after, name, n) && Matches(after, name, Scan(slots, name).slot)
  {
    ScanMeaning(slots, name);
    var m := Scan(slots, name).slot;
    assert FirstMatch(slots, name, m);
    assert Live(slots[n := entry], m);
  }

  /** An entry with the name right behind slot n, before any further end mark. */
  ghost predicate HiddenBehind(slots: seq<Slot>, name: seq<byte>, n: nat) {
    exists m: nat :: n < m < |slots| && Uncovered(slots, n, m) && Eligible(slots[m]) && slots[m][..11] == name
  }

  ghost predicate Uncovered(slots: seq<Slot>, n: nat, m: nat) {
    m < |slots| && forall j :: n < j <= m ==> slots[j][0] != END_MARK
  }

  /** Filling the slot the scan reports: the scan now finds it, and it is the only match
      unless it was the end mark and uncovers an old entry with the name. */
  lemma InsertOneMatchIff(slots: seq<Slot>, name: seq<byte>, n: nat, entry: Slot)
    requires Scan(slots, name) == Missing(Some(n)) && n < |slots| && Eligible(entry) && entry[..11] == name
    ensures FirstMatch(slots[n := entry], name, n)
    ensures OneMatch(slots[n := entry], name) <==> !(slots[n][0] == END_MARK && HiddenBehind(slots, name, n))
  {
    hide Eligible;
    ScanMeaning(slots, name);
    var after := slots[n := entry];
    EligibleIsLive(entry);
    forall m: nat ensures Matches(after, name, m) <==>
                            m == n || (slots[n][0] == END_MARK && n < m < |slots| && Uncovered(slots, n, m) &&
                                       Eligible(slots[m]) && slots[m][..11] == name)
    {
      assert !Matches(slots, name, m);
      LiveAfterFill(slots, n, entry, m);
    }
  }

  lemma EligibleIsLive(s: Slot)
    requires Eligible(s)
    ensures s[0] != END_MARK
  {}

  /** Filling slot n extends the live part of the directory only if it was the end mark. */
  lemma LiveAfterFill(slots: seq<Slot>, n: nat, entry: Slot, m: nat)
    requires n < |slots| && entry[0] != END_MARK && forall j :: 0 <= j < n ==> slots[j][0] != END_MARK
    ensures m <= n && m < |slots| ==> Live(slots, m) && Live(slots[n := entry], m)
    ensures n < m < |slots| && slots[m][0] != END_MARK ==>
              && (Live(slots[n := entry], m) <==> Uncovered(slots, n, m))
              && (slots[n][0] != END_MARK ==> (Live(slots, m) <==> Uncovered(slots, n, m)))
  {
    var after := slots[n := entry];
    if n < m < |slots| && slots[m][0] != END_MARK {
      if Live(after, m) {
        forall j | n < j <= m ensures slots[j][0] != END_MARK { assert after[j] == slots[j]; }
      }
    }
  }

  /** The new file's name is unique in the directory exactly when the search left its loop
      through `break` and filling the slot does not uncover an old entry with the name
      behind the end mark. Run to the last number, it creates a duplicate. */
  lemma UniqueNameIff(d: Disk, e: Disk, v: Volume, hi: nat, k: nat, prealloc: nat, p: seq<nat>,
                      recorded: nat, r: Search, num: nat, n: nat, s: LogState)
    requires RootChain(d, v, hi, p) && v.Fits(hi) && Clusters(p) && SECTOR_SIZE <= prealloc < U32 && k < U32
    requires OpenedAs(d, e, v, hi, ChainLbas(v, p), recorded, prealloc, r, num, n, s) && !r.Resumes?
    requires n < SLOTS_PER_SECTOR * |ChainLbas(v, p)|
    requires Creatable(d, v, hi, k, prealloc, ChainLbas(v, p)[n / SLOTS_PER_SECTOR], n % SLOTS_PER_SECTOR * SLOT)
    ensures Slots(e, ChainLbas(v, p)) == Slots(d, ChainLbas(v, p))[n := DirEntry(LogName(num), k, prealloc)]
    ensures var slots := Slots(d, ChainLbas(v, p));
            OneMatch(Slots(e, ChainLbas(v, p)), LogName(num)) <==>
              r.Gap? && !(slots[n][0] == END_MARK && HiddenBehind(slots, LogName(num), n))
  {
    hide ChainLbas, Times, FatView, IsChain, Slots, DirEntry, FreeSuffix, CopiesAgree, FreeOnDisk, Create, Scan,
         LogName, Matches, Creatable, ResumeState, RootChain, Volume.Fits, HiddenBehind;
    var lbas := ChainLbas(v, p);
    CreateDirectory(d, v, hi, k, LogName(num), prealloc, p, n);
    FreshEntry(num, k, prealloc);
    var entry := DirEntry(LogName(num), k, prealloc);
    var slots := Slots(d, lbas);
    if r.Gap? {
      InsertOneMatchIff(slots, LogName(num), n, entry);
    } else {
      InsertTwice(slots, LogName(num), n, entry);
    }
  }

  // ---- later scans -------------------------------------------------------------------------------

  /** Whatever is appended and however often the size is updated, no scan of the
      directory changes its answer, for any name. */
  lemma RunKeepsScans(b: Disk, e: Disk, v: Volume, hi: nat, s: LogState, lbas: seq<nat>,
                      name: seq<byte>)
    requires s.dirOffset % SLOT == 0 && s.dirOffset + 32 <= SECTOR_SIZE && s.firstClus >= 2 && hi >= 2 &&
             OthersKept(b, e, v, hi, s)
    requires forall j :: 0 <= j < |lbas| ==> v.dataLba <= lbas[j] < ClusterStart(v, s.firstClus)
    ensures Scan(Slots(e, lbas), name) == Scan(Slots(b, lbas), name)
  {
    hide Scan, Slots, Times, SameButSize;
    SizeFieldsKeepScans(b, e, lbas, s.dirLba, s.dirOffset, name);
  }

  /** Once the file is created, no run of appends and size updates changes what a scan of
      the directory answers, for any name. */
  lemma SessionKeepsScans(d: Disk, v: Volume, hi: nat, k: nat, name: seq<byte>, size: nat,
                          p: seq<nat>,
                          n: nat, ops: seq<FileOp>, other: seq<byte>)
    requires RootChain(d, v, hi, p) && Clusters(p) && |name| == 11 && n < SLOTS_PER_SECTOR * |ChainLbas(v, p)|
    requires Creatable(d, v, hi, k, size, ChainLbas(v, p)[n / SLOTS_PER_SECTOR], n % SLOTS_PER_SECTOR * SLOT)
    requires ClustersFor(v, size / SECTOR_SIZE) <= |FreeOnDisk(d, v, hi)|
    requires var (b, s) := Create(d, v, hi, name, size,
                                ChainLbas(v, p)[n / SLOTS_PER_SECTOR], n % SLOTS_PER_SECTOR * SLOT);
             CanRun(b, v, hi, s, ops)
    ensures var (b, s) := Create(d, v, hi, name, size,
                               ChainLbas(v, p)[n / SLOTS_PER_SECTOR], n % SLOTS_PER_SECTOR * SLOT);
            var e := LogSpec.Run(b, v, hi, s, ops).0;
            Scan(Slots(e, ChainLbas(v, p)), other) == Scan(Slots(b, ChainLbas(v, p)), other)
  {
    hide ChainLbas, Times, FatView, IsChain, Slots, FreeSuffix, CopiesAgree, FreeOnDisk, LogSpec.Run, CanRun,
         OthersKept, ReadsBack, Scan, NewFile, DirEntry, ClustersFor, RootChain, Volume.Fits;
    var lbas := ChainLbas(v, p);
    var dirLba, dirOff := lbas[n / SLOTS_PER_SECTOR], n % SLOTS_PER_SECTOR * SLOT;
    LinearLogRefinesChain(d, v, hi, k, name, size, dirLba, dirOff, ops);
    CreateSuffix(d, v, hi, k, name, size, dirLba, dirOff);
    forall j | 0 <= j < |lbas| ensures v.dataLba <= lbas[j] < ClusterStart(v, k) {
      DirSectorBeforeLog(d, v, hi, k, p, j);
    }
    var (b, s) := Create(d, v, hi, name, size, dirLba, dirOff);
    hide Create, Creatable;
    RunKeepsScans(b, LogSpec.Run(b, v, hi, s, ops).0, v, hi, s, lbas, other);
  }

  // ---- resuming --------------------------------------------------------------------------------------

  /** The size field after a run, given the field and the byte count before it. */
  function SizeAfter(field: nat, bytes: nat, ops: seq<FileOp>): nat
    decreases |ops|
  {
    if ops == [] then field
    else match ops[0]
         case Append(_) => SizeAfter(field, (bytes + SECTOR_SIZE) % U32, ops[1..])
         case UpdateSize => SizeAfter(bytes, bytes, ops[1..])
  }

  function SizeField(d: Disk, s: LogState): nat
    requires s.dirOffset + 32 <= SECTOR_SIZE
  {
    Le32(Get(d, s.dirLba), s.dirOffset + SIZE_FIELD)
  }

  lemma AppendSizeField(d: Disk, v: Volume, hi: nat, s: LogState, content: seq<Sector>, data: Sector)
    requires LogInv(d, v, hi, s, content) && Enabled(d, v, hi, s, Append(data))
    ensures var (e, t) := Step(d, v, hi, s, Append(data));
            && t.dirLba == s.dirLba && t.dirOffset == s.dirOffset
            && t.bytesWritten == (s.bytesWritten + SECTOR_SIZE) % U32
            && SizeField(e, t) == SizeField(d, s)
  {
    hide FatPart, Holds, Extend, Le32, Times, FreeList, FatView, IsChain, CopiesAgree, FreeSuffix;
    AppendOthers(d, v, hi, s, content, data);
    if Full(s) {
      assert FatPart(d, v, hi, s);
      ExtendOthers(d, v, hi, s);
    }
  }

  lemma UpdateSizeField(d: Disk, v: Volume, hi: nat, s: LogState)
    requires StateOk(s) && v.Fits(hi)
    ensures var (e, t) := Step(d, v, hi, s, UpdateSize); t == s && SizeField(e, s) == s.bytesWritten
  {
    hide Le32;
    var data := WithSize(Get(d, s.dirLba), s.dirOffset, s.bytesWritten);
    GetUpdate(d, s.dirLba, data, s.dirLba);
    var o := s.dirOffset + SIZE_FIELD;
    assert data[o..o + 4] == Bytes32(s.bytesWritten);
    Le32OfBytes32(data, o, s.bytesWritten);
  }

  /** Over a run the directory entry's size is what the last update stored. */
  lemma {:induction false} RunSizeField(d: Disk, v: Volume, hi: nat, s: LogState, content: seq<Sector>,
                                        ops: seq<FileOp>)
    requires LogInv(d, v, hi, s, content) && CanRun(d, v, hi, s, ops)
    ensures var (e, t) := Run(d, v, hi, s, ops);
            && t.dirLba == s.dirLba && t.dirOffset == s.dirOffset
            && SizeField(e, t) == SizeAfter(SizeField(d, s), s.bytesWritten, ops)
    decreases |ops|
  {
    hide SizeField, Step, LogInv, Enabled;
    if ops != [] {
      match ops[0] {
        case Append(data) => AppendSizeField(d, v, hi, s, content, data);
        case UpdateSize => FitsOfLog(d, v, hi, s, content); UpdateSizeField(d, v, hi, s);
      }
      StepKeeps(d, v, hi, s, content, ops[0]);
      var (e, t) := Step(d, v, hi, s, ops[0]);
      RunSizeField(e, v, hi, t, content + Appended([ops[0]]), ops[1..]);
    }
  }

  lemma FitsOfLog(d: Disk, v: Volume, hi: nat, s: LogState, content: seq<Sector>)
    requires LogInv(d, v, hi, s, content)
    ensures v.Fits(hi)
  {}

  /** After appends only, and then updates and appends, the entry passes the resume test
      (size equal to the pre-allocated one) exactly when it was never updated or the last
      update found the pre-allocation written to the byte. */
  lemma {:induction false} LastUpdateDecides(size: nat, before: seq<FileOp>, after: seq<FileOp>, bytes: nat)
    requires forall i :: 0 <= i < |after| ==> after[i].Append?
    requires bytes < U32
    ensures SizeAfter(size, bytes, after) == size
    ensures SizeAfter(size, bytes, before + [UpdateSize] + after) == (bytes + SECTOR_SIZE * |Appended(before)|) % U32
    decreases |before|
  {
    hide Appended, SizeAfter;
    UpdatedThenAppends(size, bytes, after);
    var rest := [UpdateSize] + after;
    Regroup3(before, [UpdateSize], after);
    if before == [] {
      NoneAppended();
      SizeAfterFirst(size, bytes, UpdateSize, after);
      UpdatedThenAppends(bytes, bytes, after);
      assert before + rest == rest;
    } else {
      assert before + rest == [before[0]] + (before[1..] + rest);
      SizeAfterFirst(size, bytes, before[0], before[1..] + rest);
      Regroup3(before[1..], [UpdateSize], after);
      FirstAppended(before);
      var next := if before[0].Append? then (bytes + SECTOR_SIZE) % U32 else bytes;
      LastUpdateDecides(if before[0].Append? then size else bytes, before[1..], after, next);
      SumOfCounts(bytes, |Appended(before[1..])|);
    }
  }

  lemma Regroup3(a: seq<FileOp>, b: seq<FileOp>, c: seq<FileOp>)
    ensures a + b + c == a + (b + c)
  {}

  lemma SumOfCounts(bytes: nat, n: nat)
    requires bytes < U32
    ensures ((bytes + SECTOR_SIZE) % U32 + SECTOR_SIZE * n) % U32 == (bytes + SECTOR_SIZE * (n + 1)) % U32
  {
    var a := bytes + SECTOR_SIZE;
    if a < U32 {
      assert a % U32 == a;
    } else {
      assert a % U32 == a - U32;
      OneWrap(a - U32 + SECTOR_SIZE * n);
    }
  }

  lemma OneWrap(x: nat)
    ensures (x + U32) % U32 == x % U32
  {}

  lemma SizeAfterFirst(field: nat, bytes: nat, op: FileOp, rest: seq<FileOp>)
    ensures SizeAfter(field, bytes, [op] + rest) ==
            if op.Append? then SizeAfter(field, (bytes + SECTOR_SIZE) % U32, rest) else SizeAfter(bytes, bytes, rest)
  {
    assert ([op] + rest)[1..] == rest;
  }

  lemma {:induction false} UpdatedThenAppends(field: nat, bytes: nat, after: seq<FileOp>)
    requires forall i :: 0 <= i < |after| ==> after[i].Append?
    ensures SizeAfter(field, bytes, after) == field
    decreases |after|
  {
    if after != [] {
      UpdatedThenAppends(field, (bytes + SECTOR_SIZE) % U32, after[1..]);
    }
  }

  /** Resuming from a recovery record: the position is rebuilt exactly when the record
      names the number of sectors written, and then the log goes on as if it had never
      been closed. */
  lemma ResumeContinues(d: Disk, v: Volume, hi: nat, s: LogState, content: seq<Sector>,
                        entry: Slot, recorded: nat, prealloc: nat)
    requires LogInv(d, v, hi, s, content) && EntryCluster(entry) == s.firstClus && recorded < U32
    requires prealloc / SECTOR_SIZE <= Capacity(v, s)
    ensures var t := ResumeState(v, entry, s.dirLba, s.dirOffset, recorded, prealloc, s.lastClus);
            && (t.curLba == s.curLba <==> recorded / SECTOR_SIZE == |content|)
            && (recorded == SECTOR_SIZE * |content| ==> LogInv(d, v, hi, t, content))
  {
    hide Holds, FatPart, ClusToLba, EntryCluster, Capacity, ClusterStart;
    LogPlace(d, v, hi, s);
    var t := ResumeState(v, entry, s.dirLba, s.dirOffset, recorded, prealloc, s.lastClus);
    SameChain(d, v, hi, s, t);
  }

  lemma LogPlace(d: Disk, v: Volume, hi: nat, s: LogState)
    requires FatPart(d, v, hi, s)
    ensures s.firstClus >= 2 && s.firstClus <= s.lastClus
    ensures ClusToLba(v, s.firstClus) == ClusterStart(v, s.firstClus) &&
            ClusterStart(v, s.firstClus) + Capacity(v, s) < U32
  {
    hide Times, FatView, IsChain, CopiesAgree, FreeSuffix, ClusToLba;
    NoWrap(v, hi, s.firstClus);
    CapacityFits(d, v, hi, s);
  }

  lemma SameChain(d: Disk, v: Volume, hi: nat, s: LogState, t: LogState)
    requires FatPart(d, v, hi, s) && t.firstClus == s.firstClus && t.lastClus == s.lastClus
    ensures FatPart(d, v, hi, t) && Capacity(v, t) == Capacity(v, s)
  {
    hide Times, FatView, IsChain, CopiesAgree, FreeSuffix;
    assert LogChain(t) == LogChain(s);
  }

  /** The record that the idle flush writes is the byte counter. In every state reached from
      creation it rebuilds the position, and resuming from it continues the log, exactly as
      long as the counter has not wrapped. */
  lemma RecoveryIff(d: Disk, v: Volume, hi: nat, k: nat, name: seq<byte>, size: nat, dirLba: nat,
                    dirOffset: nat, ops: seq<FileOp>, entry: Slot)
    requires |name| == 11 && Creatable(d, v, hi, k, size, dirLba, dirOffset) && EntryCluster(entry) == k
    requires ClustersFor(v, size / SECTOR_SIZE) <= |FreeOnDisk(d, v, hi)|
    requires var (b, s) := Create(d, v, hi, name, size, dirLba, dirOffset); CanRun(b, v, hi, s, ops)
    ensures var (b, s) := Create(d, v, hi, name, size, dirLba, dirOffset);
            var (e, t) := LogSpec.Run(b, v, hi, s, ops);
            var u := ResumeState(v, entry, t.dirLba, t.dirOffset, t.bytesWritten, t.preallocSize, t.lastClus);
            && (u.curLba == t.curLba <==> SECTOR_SIZE * |Appended(ops)| < U32)
            && (u.curLba == t.curLba ==> LogInv(e, v, hi, u, Appended(ops)))
            && u.curLba == s.curLba + t.bytesWritten / SECTOR_SIZE && u.endLba == s.endLba
            && (Full(u) <==> t.bytesWritten / SECTOR_SIZE >= size / SECTOR_SIZE)
            && (u == t <==> |Appended(ops)| <= size / SECTOR_SIZE)
  {
    hide ResumeState, EntryCluster, LogInv, LogSpec.Run, CanRun, FreeOnDisk, ClustersFor, Create, Creatable, Full,
         Appended, Capacity;
    RunPlace(d, v, hi, k, name, size, dirLba, dirOffset, ops);
    var (b, s) := Create(d, v, hi, name, size, dirLba, dirOffset);
    var (e, t) := LogSpec.Run(b, v, hi, s, ops);
    CounterWraps(|Appended(ops)|);
    ResumeContinues(e, v, hi, t, Appended(ops), entry, t.bytesWritten, t.preallocSize);
    RecoveredState(v, hi, k, size, entry, s, t, |Appended(ops)|);
  }

  /** Where creation and a run leave the log. */
  lemma RunPlace(d: Disk, v: Volume, hi: nat, k: nat, name: seq<byte>, size: nat, dirLba: nat,
                 dirOffset: nat, ops: seq<FileOp>)
    requires |name| == 11 && Creatable(d, v, hi, k, size, dirLba, dirOffset)
    requires ClustersFor(v, size / SECTOR_SIZE) <= |FreeOnDisk(d, v, hi)|
    requires var (b, s) := Create(d, v, hi, name, size, dirLba, dirOffset); CanRun(b, v, hi, s, ops)
    ensures SECTOR_SIZE <= size < U32 && dirOffset + 32 <= SECTOR_SIZE && v.Fits(hi) && 2 <= k < hi
    ensures var (b, s) := Create(d, v, hi, name, size, dirLba, dirOffset);
            var (e, t) := LogSpec.Run(b, v, hi, s, ops);
            && LogInv(e, v, hi, t, Appended(ops)) && size / SECTOR_SIZE <= Capacity(v, t)
            && t.firstClus == s.firstClus == k && t.dirLba == dirLba && t.dirOffset == dirOffset
            && Placed(v, k, size, s, t, |Appended(ops)|)
  {
    hide FatPart, Holds, LogInv, LogSpec.Run, CanRun, FreeOnDisk, ClustersFor, NewFile, Times, Capacity, ClusterStart;
    CreateSuffix(d, v, hi, k, name, size, dirLba, dirOffset);
    CreateOpensLog(d, v, hi, k, name, size, dirLba, dirOffset);
    PreallocStays(d, v, hi, k, name, size, dirLba, dirOffset, ops);
    LimitMovesIff(d, v, hi, k, name, size, dirLba, dirOffset, ops);
    var (b, s) := Create(d, v, hi, name, size, dirLba, dirOffset);
    hide Create;
    RunKeeps(b, v, hi, s, [], ops);
    RunOthers(b, v, hi, s, [], ops);
    assert [] + Appended(ops) == Appended(ops);
    var (e, t) := LogSpec.Run(b, v, hi, s, ops);
    CounterOf(e, v, hi, t, Appended(ops));
    WithinCapacity(e, v, hi, t, Appended(ops));
    RoomBelow(e, v, hi, t, Appended(ops));
  }

  lemma RoomBelow(d: Disk, v: Volume, hi: nat, s: LogState, content: seq<Sector>)
    requires LogInv(d, v, hi, s, content)
    ensures 2 <= s.firstClus < hi && ClusterStart(v, s.firstClus) + Capacity(v, s) < U32
  {
    hide Times, FatView, IsChain, CopiesAgree, FreeSuffix;
    CapacityFits(d, v, hi, s);
  }

  /** State t of a log created in state s at cluster k, once n sectors have been appended. */
  ghost predicate Placed(v: Volume, k: nat, size: nat, s: LogState, t: LogState, n: nat)
    requires k >= 2
  {
    var start := ClusterStart(v, k);
    && s.curLba == start && s.endLba == start + size / SECTOR_SIZE
    && t.curLba == start + n && t.bytesWritten == SECTOR_SIZE * n % U32 && t.preallocSize == size
    && start + size / SECTOR_SIZE < U32 && start + n < U32
    && t.firstClus == k
    && if n <= size / SECTOR_SIZE then t.endLba == s.endLba && t.lastClus == s.lastClus
       else t.endLba > s.endLba && t.lastClus > s.lastClus
  }

  lemma RecoveredState(v: Volume, hi: nat, k: nat, size: nat, entry: Slot, s: LogState, t: LogState, n: nat)
    requires v.Fits(hi) && 2 <= k < hi && EntryCluster(entry) == k && size < U32 && Placed(v, k, size, s, t, n)
    ensures var u := ResumeState(v, entry, t.dirLba, t.dirOffset, t.bytesWritten, size, t.lastClus);
            && u.curLba == s.curLba + t.bytesWritten / SECTOR_SIZE && u.endLba == s.endLba
            && (Full(u) <==> t.bytesWritten / SECTOR_SIZE >= size / SECTOR_SIZE)
            && (u == t <==> n <= size / SECTOR_SIZE)
  {
    hide ResumeState, EntryCluster, ClusterStart, Volume.Fits;
    ResumedPlace(v, hi, k, size, entry, t.dirLba, t.dirOffset, t.bytesWritten, t.lastClus);
    CounterBelow(n);
    CounterWraps(n);
  }

  /** Where a resumed log stands: its position counts from the start of the file by the record,
      its limit by the pre-allocation. */
  lemma ResumedPlace(v: Volume, hi: nat, k: nat, size: nat, entry: Slot, lba: nat, off: nat, recorded: nat, last: nat)
    requires v.Fits(hi) && 2 <= k < hi && EntryCluster(entry) == k
    requires ClusterStart(v, k) + size / SECTOR_SIZE < U32
    ensures var u, start := ResumeState(v, entry, lba, off, recorded, size, last), ClusterStart(v, k);
            && u == LogState(k, u.curLba, start + size / SECTOR_SIZE, lba, off, recorded, size, last)
            && u.curLba == (start + recorded / SECTOR_SIZE) % U32
            && (start + recorded / SECTOR_SIZE < U32 ==>
                  && u.curLba == start + recorded / SECTOR_SIZE
                  && (Full(u) <==> recorded / SECTOR_SIZE >= size / SECTOR_SIZE))
  {
    hide EntryCluster, ClusToLba, ClusterStart;
    NoWrap(v, hi, k);
  }

  lemma CounterBelow(n: nat)
    ensures SECTOR_SIZE * n % U32 / SECTOR_SIZE <= n
  {}

  lemma CounterWraps(n: nat)
    ensures SECTOR_SIZE * n % U32 / SECTOR_SIZE == n <==> SECTOR_SIZE * n < U32
    ensures SECTOR_SIZE * n < U32 ==> SECTOR_SIZE * n % U32 == SECTOR_SIZE * n
  {}

  // ---- finding the file again --------------------------------------------------------------------------

  /** The fields of a fresh entry read back as they were given. */
  lemma EntryRoundTrip(name: seq<byte>, first: nat, size: nat)
    requires |name| == 11 && first < U32 && size < U32
    ensures var e := DirEntry(name, first, size);
            e[..11] == name && EntryCluster(e) == first && EntrySize(e) == size
  {
    var e := DirEntry(name, first, size);
    assert e[20] == Bytes16(first / U16)[0] && e[21] == Bytes16(first / U16)[1];
    assert e[26] == Bytes16(first % U16)[0] && e[27] == Bytes16(first % U16)[1];
    assert e[SIZE_FIELD..SIZE_FIELD + 4] == Bytes32(size);
    Le32OfBytes32(e, SIZE_FIELD, size);
  }

  /** The fields of slot n, seen in the sector that holds it. */
  lemma FieldsOnDisk(d: Disk, lbas: seq<nat>, n: nat)
    requires n < SLOTS_PER_SECTOR * |lbas|
    ensures var sec, off := Get(d, lbas[n / SLOTS_PER_SECTOR]), n % SLOTS_PER_SECTOR * SLOT;
            var s := Slots(d, lbas)[n];
            && EntrySize(s) == Le32(sec, off + SIZE_FIELD)
            && EntryCluster(s) == Le16(sec, off + 20) * U16 + Le16(sec, off + 26)
  {}

  lemma ClusterFieldKept(a: Sector, b: Sector, off: nat)
    requires off + 32 <= SECTOR_SIZE && SameButSize(a, b, off)
    ensures Le16(b, off + 20) == Le16(a, off + 20) && Le16(b, off + 26) == Le16(a, off + 26)
  {}

  /** The slot of the file just created, and the first answer to its name. */
  lemma CreatedEntry(d: Disk, v: Volume, hi: nat, k: nat, num: nat, size: nat, p: seq<nat>, n: nat)
    requires RootChain(d, v, hi, p) && Clusters(p) && n < SLOTS_PER_SECTOR * |ChainLbas(v, p)| && k < U32
    requires Scan(Slots(d, ChainLbas(v, p)), LogName(num)) == Missing(Some(n))
    requires Creatable(d, v, hi, k, size, ChainLbas(v, p)[n / SLOTS_PER_SECTOR], n % SLOTS_PER_SECTOR * SLOT)
    ensures ClustersFor(v, size / SECTOR_SIZE) <= |FreeOnDisk(d, v, hi)|
    ensures var lbas := ChainLbas(v, p);
            var b := Create(d, v, hi, LogName(num), size, lbas[n / SLOTS_PER_SECTOR], n % SLOTS_PER_SECTOR * SLOT).0;
            && Scan(Slots(b, lbas), LogName(num)) == Found(n)
            && EntryCluster(Slots(b, lbas)[n]) == k && EntrySize(Slots(b, lbas)[n]) == size
  {
    hide ChainLbas, Times, FatView, IsChain, Slots, DirEntry, FreeSuffix, CopiesAgree, FreeOnDisk, Create, Scan,
         LogName, EntryCluster, EntrySize, RootChain, ClustersFor, FirstMatch, OneMatch, HiddenBehind;
    var lbas := ChainLbas(v, p);
    CreateDirectory(d, v, hi, k, LogName(num), size, p, n);
    hide Creatable;
    var entry := DirEntry(LogName(num), k, size);
    FreshEntry(num, k, size);
    EntryRoundTrip(LogName(num), k, size);
    var slots := Slots(d, lbas);
    InsertOneMatchIff(slots, LogName(num), n, entry);
    ScanMeaning(slots[n := entry], LogName(num));
  }

  /** Create, any run of appends and size updates, power off: a scan for the name still finds
      the entry, it leads to the same first cluster, and its size is what the last update
      stored. */
  lemma NameStillFound(d: Disk, v: Volume, hi: nat, k: nat, num: nat, size: nat, p: seq<nat>, n: nat,
                       ops: seq<FileOp>)
    requires RootChain(d, v, hi, p) && Clusters(p) && n < SLOTS_PER_SECTOR * |ChainLbas(v, p)| && k < U32
    requires Scan(Slots(d, ChainLbas(v, p)), LogName(num)) == Missing(Some(n))
    requires Creatable(d, v, hi, k, size, ChainLbas(v, p)[n / SLOTS_PER_SECTOR], n % SLOTS_PER_SECTOR * SLOT)
    requires ClustersFor(v, size / SECTOR_SIZE) <= |FreeOnDisk(d, v, hi)|
    requires var (b, s) := Create(d, v, hi, LogName(num), size,
                                ChainLbas(v, p)[n / SLOTS_PER_SECTOR], n % SLOTS_PER_SECTOR * SLOT);
             CanRun(b, v, hi, s, ops)
    ensures var lbas := ChainLbas(v, p);
            var (b, s) := Create(d, v, hi, LogName(num), size, lbas[n / SLOTS_PER_SECTOR], n % SLOTS_PER_SECTOR * SLOT);
            var e := LogSpec.Run(b, v, hi, s, ops).0;
            && Scan(Slots(e, lbas), LogName(num)) == Found(n)
            && EntryCluster(Slots(e, lbas)[n]) == k
            && EntrySize(Slots(e, lbas)[n]) == SizeAfter(size, 0, ops)
  {
    hide ChainLbas, Times, FatView, IsChain, Slots, DirEntry, FreeSuffix, CopiesAgree, FreeOnDisk, Scan, LogName,
         NewFile, EntryCluster, EntrySize, RootChain, ClustersFor, LogSpec.Run, CanRun, LogInv, Le16, Le32,
         SameButSize;
    var lbas := ChainLbas(v, p);
    var dirLba, off := lbas[n / SLOTS_PER_SECTOR], n % SLOTS_PER_SECTOR * SLOT;
    CreatedEntry(d, v, hi, k, num, size, p, n);
    SessionKeepsScans(d, v, hi, k, LogName(num), size, p, n, ops, LogName(num));
    CreateOpensLog(d, v, hi, k, LogName(num), size, dirLba, off);
    CreateSuffix(d, v, hi, k, LogName(num), size, dirLba, off);
    var (b, s) := Create(d, v, hi, LogName(num), size, dirLba, off);
    hide Create, Creatable;
    var (e, t) := LogSpec.Run(b, v, hi, s, ops);
    RunOthers(b, v, hi, s, [], ops);
    RunSizeField(b, v, hi, s, [], ops);
    FieldsOnDisk(b, lbas, n);
    FieldsOnDisk(e, lbas, n);
    ClusterFieldKept(Get(b, dirLba), Get(e, dirLba), off);
  }

  /** A slot that answers to one log number answers to no other. */
  lemma OneNumberPerSlot(slots: seq<Slot>, n: nat, a: nat, b: nat)
    requires a <= LAST_NUMBER && b <= LAST_NUMBER
    requires Scan(slots, LogName(a)) == Found(n) && Scan(slots, LogName(b)) == Found(n)
    ensures a == b
  {
    hide LogName, Scan;
    ScanMeaning(slots, LogName(a));
    ScanMeaning(slots, LogName(b));
    assert FirstMatch(slots, LogName(a), n) && FirstMatch(slots, LogName(b), n);
    LogNameInjective(a, b);
  }

  /** A log is created under number num, written to in any run, and the power goes off. The
      next session, which may be configured for another pre-allocation, starts its search at
      number m. It resumes the file exactly when m does not lie beyond num, every number from
      m up to num names a file of another size than the one it wants, and the size left in
      the directory is that size. */
  lemma ReopenIff(d: Disk, v: Volume, hi: nat, k: nat, num: nat, size: nat, p: seq<nat>, n: nat,
                  ops: seq<FileOp>, m: nat, prealloc: nat, other: nat)
    requires RootChain(d, v, hi, p) && Clusters(p) && n < SLOTS_PER_SECTOR * |ChainLbas(v, p)| && k < U32 &&
             num <= LAST_NUMBER
    requires Scan(Slots(d, ChainLbas(v, p)), LogName(num)) == Missing(Some(n))
    requires Creatable(d, v, hi, k, size, ChainLbas(v, p)[n / SLOTS_PER_SECTOR], n % SLOTS_PER_SECTOR * SLOT)
    requires ClustersFor(v, size / SECTOR_SIZE) <= |FreeOnDisk(d, v, hi)|
    requires var (b, s) := Create(d, v, hi, LogName(num), size,
                                ChainLbas(v, p)[n / SLOTS_PER_SECTOR], n % SLOTS_PER_SECTOR * SLOT);
             CanRun(b, v, hi, s, ops)
    ensures var lbas := ChainLbas(v, p);
            var (b, s) := Create(d, v, hi, LogName(num), size, lbas[n / SLOTS_PER_SECTOR], n % SLOTS_PER_SECTOR * SLOT);
            var slots := Slots(LogSpec.Run(b, v, hi, s, ops).0, lbas);
            && n < |slots|
            && (SearchFrom(slots, m, prealloc) == AtFile(other, n) <==>
                  other == num && m <= num && TakenBetween(slots, m, num, prealloc) &&
                      SizeAfter(size, 0, ops) == prealloc)
  {
    hide ChainLbas, Times, FatView, IsChain, Slots, FreeSuffix, CopiesAgree, FreeOnDisk, Scan, LogName, SearchFrom,
         TakenBetween, EntryCluster, EntrySize, RootChain, ClustersFor, LogSpec.Run, CanRun, Create;
    NameStillFound(d, v, hi, k, num, size, p, n, ops);
    var lbas := ChainLbas(v, p);
    var (b, s) := Create(d, v, hi, LogName(num), size, lbas[n / SLOTS_PER_SECTOR], n % SLOTS_PER_SECTOR * SLOT);
    var slots := Slots(LogSpec.Run(b, v, hi, s, ops).0, lbas);
    hide Creatable;
    SearchEndsIff(slots, m, prealloc, other, n);
    if other <= LAST_NUMBER && Scan(slots, LogName(other)) == Found(n) {
      OneNumberPerSlot(slots, n, other, num);
    }
  }

  /** From the number that creation saves, the next session never resumes the file. */
  lemma SavedNumberSkips(d: Disk, v: Volume, hi: nat, k: nat, num: nat, size: nat, p: seq<nat>,
                         n: nat,
                         ops: seq<FileOp>, prealloc: nat, other: nat)
    requires RootChain(d, v, hi, p) && Clusters(p) && n < SLOTS_PER_SECTOR * |ChainLbas(v, p)| && k < U32 &&
             num <= LAST_NUMBER
    requires Scan(Slots(d, ChainLbas(v, p)), LogName(num)) == Missing(Some(n))
    requires Creatable(d, v, hi, k, size, ChainLbas(v, p)[n / SLOTS_PER_SECTOR], n % SLOTS_PER_SECTOR * SLOT)
    requires ClustersFor(v, size / SECTOR_SIZE) <= |FreeOnDisk(d, v, hi)|
    requires var (b, s) := Create(d, v, hi, LogName(num), size,
                                ChainLbas(v, p)[n / SLOTS_PER_SECTOR], n % SLOTS_PER_SECTOR * SLOT);
             CanRun(b, v, hi, s, ops)
    ensures var lbas := ChainLbas(v, p);
            var (b, s) := Create(d, v, hi, LogName(num), size, lbas[n / SLOTS_PER_SECTOR], n % SLOTS_PER_SECTOR * SLOT);
            SearchFrom(Slots(LogSpec.Run(b, v, hi, s, ops).0, lbas), num + 1, prealloc) != AtFile(other, n)
  {
    hide Slots, ChainLbas, RootChain, Creatable, CanRun, LogSpec.Run, Create, SearchFrom, TakenBetween, Scan, SizeAfter;
    ReopenIff(d, v, hi, k, num, size, p, n, ops, num + 1, prealloc, other);
  }

  /** The whole cycle: create, run, power off, and an opening that resumes the file in slot n
      from a recovery record. The log is set up from the last cluster of the chain as it is
      now; its position is the old one exactly when the record counts the sectors appended,
      and then the log goes on as if it had never been closed. The record of the last flush,
      which is the byte counter, does so exactly as long as the counter has not wrapped. */
  lemma ResumedSession(d: Disk, v: Volume, hi: nat, k: nat, num: nat, size: nat, p: seq<nat>, n: nat,
                       ops: seq<FileOp>, recorded: nat, r: Search, other: nat, u: LogState)
    requires RootChain(d, v, hi, p) && Clusters(p) && n < SLOTS_PER_SECTOR * |ChainLbas(v, p)| && k < U32
    requires Scan(Slots(d, ChainLbas(v, p)), LogName(num)) == Missing(Some(n)) && recorded < U32 && v.Fits(hi)
    requires Creatable(d, v, hi, k, size, ChainLbas(v, p)[n / SLOTS_PER_SECTOR], n % SLOTS_PER_SECTOR * SLOT)
    requires ClustersFor(v, size / SECTOR_SIZE) <= |FreeOnDisk(d, v, hi)|
    requires var (b, s) := Create(d, v, hi, LogName(num), size,
                                  ChainLbas(v, p)[n / SLOTS_PER_SECTOR], n % SLOTS_PER_SECTOR * SLOT);
             CanRun(b, v, hi, s, ops)
    requires var (b, s) := Create(d, v, hi, LogName(num), size,
                                  ChainLbas(v, p)[n / SLOTS_PER_SECTOR], n % SLOTS_PER_SECTOR * SLOT);
             var e := LogSpec.Run(b, v, hi, s, ops).0;
             r.Resumes? && OpenedAs(e, e, v, hi, ChainLbas(v, p), recorded, size, r, other, n, u)
    ensures var (b, s) := Create(d, v, hi, LogName(num), size,
                                 ChainLbas(v, p)[n / SLOTS_PER_SECTOR], n % SLOTS_PER_SECTOR * SLOT);
            var (e, t) := LogSpec.Run(b, v, hi, s, ops);
            && u.firstClus == t.firstClus && u.lastClus == t.lastClus
            && (u.curLba == t.curLba <==> recorded / SECTOR_SIZE == |Appended(ops)|)
            && (recorded == SECTOR_SIZE * |Appended(ops)| ==> LogInv(e, v, hi, u, Appended(ops)))
            && (recorded == t.bytesWritten ==>
                  (u.curLba == t.curLba <==> SECTOR_SIZE * |Appended(ops)| < U32))
            && u.endLba == s.endLba
            && (s.curLba + recorded / SECTOR_SIZE < U32 ==>
                  (Full(u) <==> recorded / SECTOR_SIZE >= size / SECTOR_SIZE))
            && (u == t <==> recorded == SECTOR_SIZE * |Appended(ops)| && |Appended(ops)| <= size / SECTOR_SIZE)
  {
    hide ChainLbas, Times, Slots, FreeSuffix, CopiesAgree, FreeOnDisk, Scan, LogName, NewFile, EntryCluster, EntrySize,
         RootChain, ClustersFor, LogSpec.Run, CanRun, LogInv, ResumeState, FatView, IsChain, SizeAfter,
         OpenedAs, Create, Creatable, ClusterStart, Full, Appended, Capacity;
    var lbas := ChainLbas(v, p);
    var dirLba, off := lbas[n / SLOTS_PER_SECTOR], n % SLOTS_PER_SECTOR * SLOT;
    NameStillFound(d, v, hi, k, num, size, p, n, ops);
    RunPlace(d, v, hi, k, LogName(num), size, dirLba, off, ops);
    var (b, s) := Create(d, v, hi, LogName(num), size, dirLba, off);
    var (e, t) := LogSpec.Run(b, v, hi, s, ops);
    var q := ResumedChain(e, v, hi, lbas, recorded, size, r, other, n, u);
    LastOfChain(e, v, hi, t, Appended(ops), q);
    ResumeContinues(e, v, hi, t, Appended(ops), r.entry, recorded, size);
    CounterWraps(|Appended(ops)|);
    ResumedAt(v, hi, k, size, r.entry, recorded, s, t, |Appended(ops)|);
  }

  lemma ResumedAt(v: Volume, hi: nat, k: nat, size: nat, entry: Slot, recorded: nat, s: LogState, t: LogState, n: nat)
    requires v.Fits(hi) && 2 <= k < hi && EntryCluster(entry) == k && size < U32 && Placed(v, k, size, s, t, n)
    requires recorded < U32
    ensures var u := ResumeState(v, entry, t.dirLba, t.dirOffset, recorded, size, t.lastClus);
            && u.firstClus == t.firstClus && u.lastClus == t.lastClus && u.endLba == s.endLba
            && (s.curLba + recorded / SECTOR_SIZE < U32 ==>
                  (Full(u) <==> recorded / SECTOR_SIZE >= size / SECTOR_SIZE))
            && (u == t <==> recorded == SECTOR_SIZE * n && n <= size / SECTOR_SIZE)
  {
    hide ResumeState, EntryCluster, ClusterStart, Volume.Fits, Full;
    ResumedPlace(v, hi, k, size, entry, t.dirLba, t.dirOffset, recorded, t.lastClus);
    CounterWraps(n);
    CounterBelow(n);
  }

  lemma ResumedChain(e: Disk, v: Volume, hi: nat, lbas: seq<nat>, recorded: nat, size: nat,
                     r: Search,
                     num: nat, n: nat, u: LogState) returns (q: seq<nat>)
    requires v.Fits(hi) && SECTOR_SIZE <= size < U32 && n < SLOTS_PER_SECTOR * |lbas|
    requires r.Resumes? && OpenedAs(e, e, v, hi, lbas, recorded, size, r, num, n, u)
    ensures IsChain(FatView(e, v, 0), q) && |q| > 0 && q[0] == EntryCluster(r.entry) && r.entry == Slots(e, lbas)[n]
    ensures u == ResumeState(v, r.entry, lbas[n / SLOTS_PER_SECTOR], n % SLOTS_PER_SECTOR * SLOT, recorded, size,
                             q[|q| - 1])
  {
    hide FatView, ResumeState, Scan, LogName, EntrySize, EntryCluster;
    q :| IsChain(FatView(e, v, 0), q) && q[0] == EntryCluster(r.entry) &&
         u == ResumeState(v, r.entry, lbas[n / SLOTS_PER_SECTOR], n % SLOTS_PER_SECTOR * SLOT, recorded, size,
                          q[|q| - 1]);
  }

  lemma LastOfChain(d: Disk, v: Volume, hi: nat, s: LogState, content: seq<Sector>, q: seq<nat>)
    requires LogInv(d, v, hi, s, content) && IsChain(FatView(d, v, 0), q) && |q| > 0 && q[0] == s.firstClus
    ensures q[|q| - 1] == s.lastClus && s.firstClus <= s.lastClus
  {
    hide FatView, Times, Holds;
    ChainUnique(FatView(d, v, 0), q, LogChain(s));
  }

  lemma CounterOf(d: Disk, v: Volume, hi: nat, s: LogState, content: seq<Sector>)
    requires LogInv(d, v, hi, s, content)
    ensures s.bytesWritten == SECTOR_SIZE * |content| % U32
  {
    hide FatView, Times, IsChain;
  }
}
