/** A freshly formatted card meets everything that the theorems about creating, writing and
    reopening a log ask for. */
module FreshCard {
  import opened Bytes
  import opened SectorDevice
  import opened Volumes
  import opened BootSectors
  import opened FatTable
  import opened Chains
  import opened LogSpec
  import opened LogRefinement
  import opened Directory
  import opened LogFiles
  import opened LogOpening
  import opened Configs
  import opened LogSession

  /** Two FAT copies of one sector each, 64 KB clusters, the root directory in cluster 2. */
  function FreshVolume(): Volume {
    Volume(fatLba := 32, fatSz32 := 1, dataLba := 34, rootClus := 2,
           partLba := 16, totSec := 0x4000, secPerClus := 128, numFats := 2)
  }

  /** Entries 0 and 1 are reserved, entry 2 ends the chain of the root directory. */
  function FreshFatSector(): Sector {
    [0xF8, 0xFF, 0xFF, 0x0F, 0xFF, 0xFF, 0xFF, 0x0F, 0xFF, 0xFF, 0xFF, 0x0F] + Zeros(500)
  }

  /** A partition of another type comes first. */
  function FreshTable(): (table: seq<Partition>)
    ensures |table| == 4 && forall i :: 0 <= i < 4 ==> table[i].Valid()
  {
    [Partition(0x00, [0, 2, 0], 0x83, [0, 16, 0], 1, 15), Partition(0x80, [0, 17, 0], 0x0C, [255, 255, 255], 16,
        0x4000),
     Partition(0x00, Zeros(3), 0x00, Zeros(3), 0, 0), Partition(0x00, Zeros(3), 0x00, Zeros(3), 0, 0)]
  }

  function FreshBoot(): (b: BootSector)
    ensures b.Valid()
  {
    BootSector([0xEB, 0x58, 0x90], Zeros(8), bytesPerSec := 512, secPerClus := 128, rsvdSec := 16, numFats := 2,
               rootEntCnt := 0, totSec16 := 0, media := 0xF8, fatSz16 := 0, secPerTrk := 63, numHeads := 255,
               hiddSec := 16, totSec32 := 0x4000, fatSz32 := 1, extFlags := 0, fsVer := 0, rootClus := 2,
               rest := Zeros(464))
  }

  function FreshDisk(): Disk {
    map[0 := BootRecord(Zeros(446), FreshTable(), [0x55, 0xAA]), 16 := FreshBoot().Image(),
        32 := FreshFatSector(), 33 := FreshFatSector()]
  }

  /** The card mounts, past the first partition, to the volume described above. */
  lemma FreshMounts()
    ensures var d := FreshDisk();
            && 0 in d && PartitionLba(d[0], 0) == 16 && 16 in d && VbrAccepted(d[16])
            && VolumeOf(16, d[16]) == FreshVolume()
  {
    hide BootRecord, BootSector.Image, FreshFatSector;
    TakesFirstFat32(Zeros(446), FreshTable(), [0x55, 0xAA], 0);
    assert FirstFat32(FreshTable(), 0) == FirstFat32(FreshTable(), 1) == 16;
    MountsFields(16, FreshBoot());
  }

  /** An entry as creation writes it, byte by byte. */
  lemma EntryText()
    ensures DirEntry(LogName(1), 0x1_2345, PreallocBytes(2)) ==
            Text("LOG00001TXT") + [0x20, 0, 0, 0, 0, 0, 0, 0, 0, 0x01, 0x00, 0, 0, 0, 0, 0x45, 0x23, 0x00, 0x00, 0x80,
                0x00]
  {
    hide LogName, Text;
    FirstName();
    EntryBytes(LogName(1));
  }

  lemma FirstName()
    ensures LogName(1) == Text("LOG00001TXT")
  {}

  lemma EntryBytes(name: seq<byte>)
    requires |name| == 11
    ensures DirEntry(name, 0x1_2345, PreallocBytes(2)) ==
            name + [0x20, 0, 0, 0, 0, 0, 0, 0, 0, 0x01, 0x00, 0, 0, 0, 0, 0x45, 0x23, 0x00, 0x00, 0x80, 0x00]
  {}

  lemma FreshFatPlace(f: nat, c: nat)
    requires f < 2 && c < 128
    ensures Get(FreshDisk(), CopySector(FreshVolume(), f, c)) == FreshFatSector()
  {
    hide FreshFatSector;
    assert Times(1, 1) == Times(0, 1) + 1 == 1;
    assert CopySector(FreshVolume(), f, c) == 32 + f;
  }

  lemma FreshFatEntry(c: nat)
    requires c < 128
    ensures EntryIn(FreshFatSector(), FatOffset(c)) == if c == 0 then 0x0FFF_FFF8 else if c < 3 then EOC else 0
  {
    var s := FreshFatSector();
    var off := 4 * c;
    assert FatOffset(c) == off;
    assert c >= 3 ==> s[off] == 0 && s[off + 1] == 0 && s[off + 2] == 0 && s[off + 3] == 0;
  }

  lemma FreshEntries(f: nat, c: nat)
    requires f < 2 && c < 128
    ensures EntryAt(FreshDisk(), FreshVolume(), f, c) == if c == 0 then 0x0FFF_FFF8 else if c < 3 then EOC else 0
  {
    hide FreshFatSector, FreshDisk, FreshVolume, CopySector, EntryIn, FatOffset;
    FreshFatPlace(f, c);
    FreshFatEntry(c);
  }

  lemma FreshFat(hi: nat)
    requires 3 <= hi <= 128
    ensures var fat := FatView(FreshDisk(), FreshVolume(), 0);
            && CopiesAgree(FreshDisk(), FreshVolume())
            && FreeSuffix(fat, 3, hi) && IsChain(fat, [2])
  {
    hide EntryAt;
    forall f: nat, c: nat | f < 2 && c < 128
      ensures EntryAt(FreshDisk(), FreshVolume(), f, c) == if c == 0 then 0x0FFF_FFF8 else if c < 3 then EOC else 0
    {
      FreshEntries(f, c);
    }
    forall f: nat | f < 2 ensures FatView(FreshDisk(), FreshVolume(), f) == FatView(FreshDisk(), FreshVolume(), 0) {
      forall c: nat | c < 128
        ensures FatView(FreshDisk(), FreshVolume(), f)[c] == FatView(FreshDisk(), FreshVolume(), 0)[c]
      {}
    }
  }

  lemma FreshLayout()
    ensures FreshVolume().Fits(100)
  {
    TimesIsProduct(2, 1);
    TimesIsProduct(98, 128);
  }

  lemma FreshDirectory(n: nat)
    requires n < SLOTS_PER_SECTOR * |ChainLbas(FreshVolume(), [2])|
    ensures Slots(FreshDisk(), ChainLbas(FreshVolume(), [2]))[n][0] == END_MARK
  {
    var v := FreshVolume();
    var lbas := ChainLbas(v, [2]);
    FreshSectors(n / SLOTS_PER_SECTOR);
    assert Slots(FreshDisk(), lbas)[n] == SlotAt(FreshDisk(), lbas, n);
  }

  lemma FreshSectors(j: nat)
    ensures |ChainLbas(FreshVolume(), [2])| == 128
    ensures j < 128 ==> ChainLbas(FreshVolume(), [2])[j] == 34 + j
  {
    var v := FreshVolume();
    TimesIsProduct(1, 128);
    if j < 128 {
      ContiguousLba(v, [2], j);
    }
  }

  /** All hypotheses at once: the smallest pre-allocation, the first free cluster, and the
      first slot of the directory, which no name occupies. */
  lemma FreshCardServes(name: seq<byte>)
    ensures var d, v, lbas := FreshDisk(), FreshVolume(), ChainLbas(FreshVolume(), [2]);
            && RootChain(d, v, 100, [2]) && |lbas| == 128
            && Scan(Slots(d, lbas), name) == Missing(Some(0)) && TailClean(Slots(d, lbas))
            && Creatable(d, v, 100, 3, PreallocBytes(0), lbas[0], 0)
  {
    hide FatView, IsChain, FreshDisk, Slots, ChainLbas, FreeSuffix, CopiesAgree, Times, ClustersFor;
    var d, v, lbas := FreshDisk(), FreshVolume(), ChainLbas(FreshVolume(), [2]);
    FreshFat(100);
    FreshLayout();
    FreshSectors(0);
    forall n: nat | n < SLOTS_PER_SECTOR * |lbas| ensures Slots(d, lbas)[n][0] == END_MARK { FreshDirectory(n); }
    PreallocWholeClusters(v, 0);
    Sixteen(ClustersFor(v, PreallocBytes(0) / SECTOR_SIZE));
    TimesIsProduct(1, 128);
  }

  lemma Sixteen(n: nat)
    requires Times(n, 128) == 2048
    ensures n == 16
  {
    TimesIsProduct(n, 128);
  }

  // ---- inputs for which a session does not go as one might expect ----------------------------

  /** The first slot of the root directory. */
  const DIR_LBA := 34

  lemma FreshFirstSlot()
    ensures FreshVolume().Fits(100)
    ensures |ChainLbas(FreshVolume(), [2])| == 128 && ChainLbas(FreshVolume(), [2])[0] == DIR_LBA
    ensures ClustersFor(FreshVolume(), PreallocBytes(0) / SECTOR_SIZE) <= |FreeOnDisk(FreshDisk(), FreshVolume(), 100)|
  {
    hide FatView, Slots, ChainLbas, Times, FreshDisk;
    FreshSectors(0);
    FreshCardServes(LogName(1));
    CreateSuffix(FreshDisk(), FreshVolume(), 100, 3, LogName(1), PreallocBytes(0), DIR_LBA, 0);
  }

  /** LOG00001 is created on a fresh card and the power goes off before any flush. The size in
      the directory is the pre-allocated one, so a search from number 1 would resume the file;
      but the number saved is 2, and the search from there ends at an unused name. */
  lemma FreshReopen()
    ensures FreshVolume().Fits(100)
    ensures ClustersFor(FreshVolume(), PreallocBytes(0) / SECTOR_SIZE) <= |FreeOnDisk(FreshDisk(), FreshVolume(), 100)|
    ensures var d, v, lbas := FreshDisk(), FreshVolume(), ChainLbas(FreshVolume(), [2]);
            var slots := Slots(LogSpec.Create(d, v, 100, LogName(1), PreallocBytes(0), DIR_LBA, 0).0, lbas);
            && |slots| > 0 && EntrySize(slots[0]) == PreallocBytes(0)
            && SearchFrom(slots, 1, PreallocBytes(0)) == AtFile(1, 0)
            && SearchFrom(slots, 2, PreallocBytes(0)) == Unused(2)
  {
    hide FreshDisk, FatView, IsChain, Slots, ChainLbas, FreeSuffix, CopiesAgree, Times, ClustersFor, LogSpec.Create,
         FreeOnDisk, Scan, LogName, Creatable, EntrySize, SearchFrom, RootChain, DirEntry, TailClean, EntryCluster;
    var d, v, lbas := FreshDisk(), FreshVolume(), ChainLbas(FreshVolume(), [2]);
    var size := PreallocBytes(0);
    FreshLayout();
    FreshFirstSlot();
    FreshCardServes(LogName(1));
    FreshCardServes(LogName(2));
    CreateDirectory(d, v, 100, 3, LogName(1), size, [2], 0);
    CreatedEntry(d, v, 100, 3, 1, size, [2], 0);
    var slots := Slots(LogSpec.Create(d, v, 100, LogName(1), size, DIR_LBA, 0).0, lbas);
    SearchEndsIff(slots, 1, size, 1, 0);
    FreshEntry(1, 3, size);
    AbsentName(Slots(d, lbas), slots, DirEntry(LogName(1), 3, size));
    UnusedNext(slots, 2, size);
  }

  lemma UnusedNext(slots: seq<Slot>, m: nat, size: nat)
    requires m <= LAST_NUMBER && Scan(slots, LogName(m)).Missing?
    ensures SearchFrom(slots, m, size) == Unused(m)
  {}

  lemma AbsentName(slots: seq<Slot>, after: seq<Slot>, entry: Slot)
    requires Scan(slots, LogName(1)) == Missing(Some(0)) && Scan(slots, LogName(2)).Missing? && TailClean(slots)
    requires |slots| > 0 && Eligible(entry) && entry[..11] == LogName(1) && after == slots[0 := entry]
    ensures Scan(after, LogName(2)).Missing?
  {
    hide LogName, Scan, Eligible;
    if LogName(1) == LogName(2) {
      LogNameInjective(1, 2);
    }
    InsertUnique(slots, LogName(1), 0, entry, after);
    ScanMeaning(slots, LogName(2));
    ScanMeaning(after, LogName(2));
  }

  /** The last number is in use: its file, of another size, has the second slot; the first slot
      was deleted. */
  function LastTakenSector(): Sector {
    [0xE5] + Zeros(31) + DirEntry(LogName(LAST_NUMBER), 0, 0) + Zeros(448)
  }

  function LastTakenDisk(): Disk { FreshDisk()[DIR_LBA := LastTakenSector()] }

  lemma LastTakenCreatable()
    ensures RootChain(LastTakenDisk(), FreshVolume(), 100, [2])
    ensures Creatable(LastTakenDisk(), FreshVolume(), 100, 3, PreallocBytes(0), DIR_LBA, 0)
  {
    hide FatView, IsChain, FreshDisk, LastTakenSector, Slots, ChainLbas, FreeSuffix, Times, ClustersFor, Scan,
         TailClean, CopiesAgree;
    var d, e, v := FreshDisk(), LastTakenDisk(), FreshVolume();
    FreshCardServes(LogName(1));
    FreshSectors(0);
    FatKept(d, e, v, LastTakenSector());
  }

  lemma FatKept(d: Disk, e: Disk, v: Volume, data: Sector)
    requires v.Layout() && DIR_LBA >= v.dataLba && e == d[DIR_LBA := data]
    ensures FatView(e, v, 0) == FatView(d, v, 0) && (CopiesAgree(e, v) <==> CopiesAgree(d, v))
  {
    SameFat(d, e, v);
  }

  lemma LastTakenSlots()
    ensures var slots := Slots(LastTakenDisk(), ChainLbas(FreshVolume(), [2]));
            && |slots| == 2048 && slots[0][0] == DELETED
            && slots[1] == DirEntry(LogName(LAST_NUMBER), 0, 0)
  {
    hide ChainLbas, DirEntry, LogName, FreshDisk;
    FreshSectors(0);
    var lbas, d := ChainLbas(FreshVolume(), [2]), LastTakenDisk();
    var slots := Slots(d, lbas);
    assert Get(d, DIR_LBA) == LastTakenSector();
    assert slots[0] == SlotAt(d, lbas, 0) == LastTakenSector()[0..32];
    assert slots[1] == SlotAt(d, lbas, 1) == LastTakenSector()[32..64];
  }

  /** A search from the last number ends with every name taken and a deleted slot recorded
      before the file that has the name. Creation goes on and makes a second file of that
      name. */
  lemma ExhaustedInput()
    ensures FreshVolume().Fits(100)
    ensures ClustersFor(FreshVolume(), PreallocBytes(0) / SECTOR_SIZE) <=
            |FreeOnDisk(LastTakenDisk(), FreshVolume(), 100)|
    ensures var d, v, lbas := LastTakenDisk(), FreshVolume(), ChainLbas(FreshVolume(), [2]);
            var slots, name := Slots(d, lbas), LogName(LAST_NUMBER);
            var after := Slots(LogSpec.Create(d, v, 100, name, PreallocBytes(0), DIR_LBA, 0).0, lbas);
            && |slots| > 0 && SearchFrom(slots, LAST_NUMBER, PreallocBytes(0)) == NamesTaken
            && Scan(slots, name) == Found(1) && Free(slots[0])
            && Matches(after, name, 0) && Matches(after, name, 1)
  {
    hide LastTakenDisk, FatView, IsChain, Slots, ChainLbas, FreeSuffix, CopiesAgree, Times, ClustersFor, LogSpec.Create,
         FreeOnDisk, Scan, LogName, Creatable, EntrySize, RootChain, DirEntry, Eligible, Matches;
    var d, v, lbas := LastTakenDisk(), FreshVolume(), ChainLbas(FreshVolume(), [2]);
    var size, name := PreallocBytes(0), LogName(LAST_NUMBER);
    FreshLayout();
    FreshSectors(0);
    LastTakenCreatable();
    LastTakenSlots();
    CreateDirectory(d, v, 100, 3, name, size, [2], 0);
    var slots := Slots(d, lbas);
    FreshEntry(LAST_NUMBER, 0, 0);
    FreshEntry(LAST_NUMBER, 3, size);
    EntryRoundTrip(name, 0, 0);
    MatchInSecond(slots, name);
    InsertTwice(slots, name, 0, DirEntry(name, 3, size));
    NoMoreNames(slots, size);
  }

  lemma MatchInSecond(slots: seq<Slot>, name: seq<byte>)
    requires |slots| > 1 && slots[0][0] == DELETED && Eligible(slots[1]) && slots[1][..11] == name
    ensures Scan(slots, name) == Found(1)
  {
    ScanMeaning(slots, name);
    assert FirstMatch(slots, name, 1);
  }

  lemma NoMoreNames(slots: seq<Slot>, size: nat)
    requires TakenByOther(slots, LAST_NUMBER, size)
    ensures SearchFrom(slots, LAST_NUMBER, size) == NamesTaken
  {
    hide Scan, LogName, EntrySize;
    SearchSkips(slots, LAST_NUMBER, LAST_NUMBER + 1, size);
  }

  /** An old entry LOG00001 behind the end mark of the directory. */
  function HiddenSector(): Sector {
    Zeros(32) + DirEntry(LogName(1), 0, 0) + Zeros(448)
  }

  function HiddenDisk(): Disk { FreshDisk()[DIR_LBA := HiddenSector()] }

  lemma HiddenCreatable()
    ensures RootChain(HiddenDisk(), FreshVolume(), 100, [2])
    ensures Creatable(HiddenDisk(), FreshVolume(), 100, 3, PreallocBytes(0), DIR_LBA, 0)
  {
    hide FatView, IsChain, FreshDisk, HiddenSector, Slots, ChainLbas, FreeSuffix, Times, ClustersFor, Scan, TailClean,
         CopiesAgree;
    FreshCardServes(LogName(1));
    FreshSectors(0);
    FatKept(FreshDisk(), HiddenDisk(), FreshVolume(), HiddenSector());
  }

  lemma HiddenSlots()
    ensures var slots := Slots(HiddenDisk(), ChainLbas(FreshVolume(), [2]));
            |slots| == 2048 && slots[0][0] == END_MARK && slots[1] == DirEntry(LogName(1), 0, 0)
  {
    hide ChainLbas, DirEntry, LogName, FreshDisk;
    FreshSectors(0);
    var lbas, d := ChainLbas(FreshVolume(), [2]), HiddenDisk();
    var slots := Slots(d, lbas);
    assert Get(d, DIR_LBA) == HiddenSector();
    assert slots[0] == SlotAt(d, lbas, 0) == HiddenSector()[0..32];
    assert slots[1] == SlotAt(d, lbas, 1) == HiddenSector()[32..64];
  }

  /** The search for number 1 ends at an unused name, because the directory is empty. Creation
      fills the end mark, and the old entry behind it becomes a second LOG00001. */
  lemma HiddenInput()
    ensures FreshVolume().Fits(100)
    ensures ClustersFor(FreshVolume(), PreallocBytes(0) / SECTOR_SIZE) <= |FreeOnDisk(HiddenDisk(), FreshVolume(), 100)|
    ensures var d, v, lbas := HiddenDisk(), FreshVolume(), ChainLbas(FreshVolume(), [2]);
            var slots, name := Slots(d, lbas), LogName(1);
            var after := Slots(LogSpec.Create(d, v, 100, name, PreallocBytes(0), DIR_LBA, 0).0, lbas);
            && SearchFrom(slots, 1, PreallocBytes(0)) == Unused(1) && Scan(slots, name) == Missing(Some(0))
            && !OneMatch(after, name) && Matches(after, name, 0) && Matches(after, name, 1)
  {
    hide HiddenDisk, FatView, IsChain, Slots, ChainLbas, FreeSuffix, CopiesAgree, Times, ClustersFor, LogSpec.Create,
         FreeOnDisk, LogName, Creatable, EntrySize, RootChain, DirEntry, Eligible;
    var d, v, lbas := HiddenDisk(), FreshVolume(), ChainLbas(FreshVolume(), [2]);
    var size, name := PreallocBytes(0), LogName(1);
    FreshLayout();
    FreshSectors(0);
    HiddenCreatable();
    HiddenSlots();
    CreateDirectory(d, v, 100, 3, name, size, [2], 0);
    var slots := Slots(d, lbas);
    var entry := DirEntry(name, 3, size);
    FreshEntry(1, 0, 0);
    FreshEntry(1, 3, size);
    EntryRoundTrip(name, 0, 0);
    EligibleIsLive(entry);
    EligibleIsLive(slots[1]);
    var after := slots[0 := entry];
    assert Live(after, 0) && Live(after, 1);
    assert Matches(after, name, 0) && Matches(after, name, 1);
  }

  // ---- a fragmented FAT -----------------------------------------------------------------------

  /** A file of one cluster in cluster 4, which holds something. */
  function FragmentedFat(): Sector {
    [0xF8, 0xFF, 0xFF, 0x0F, 0xFF, 0xFF, 0xFF, 0x0F, 0xFF, 0xFF, 0xFF, 0x0F, 0, 0, 0, 0, 0xFF, 0xFF, 0xFF,
        0x0F] + Zeros(492)
  }

  function SomeData(): Sector { [1] + Zeros(511) }

  /** Its first sector: cluster 4 begins two clusters behind the start of the data region. */
  const FILE_LBA := 290

  function FragmentedDisk(): Disk { map[32 := FragmentedFat(), 33 := FragmentedFat(), FILE_LBA := SomeData()] }

  lemma FragmentedFatEntry(c: nat)
    requires c < 128
    ensures EntryIn(FragmentedFat(), FatOffset(c)) == if c == 0 then 0x0FFF_FFF8 else if c < 3 || c == 4 then EOC else 0
  {
    hide FragmentedFat;
    var off := 4 * c;
    assert FatOffset(c) == off;
    FragmentedByte(off);
    FragmentedByte(off + 1);
    FragmentedByte(off + 2);
    FragmentedByte(off + 3);
  }

  lemma FragmentedByte(i: nat)
    requires i < SECTOR_SIZE
    ensures FragmentedFat()[i] ==
            if i >= 20 || 12 <= i < 16 then 0 else if i == 0 then 0xF8 else if i % 4 == 3 then 0x0F else 0xFF
  {}

  lemma FragmentedEntries(c: nat)
    requires c < 128
    ensures EntryAt(FragmentedDisk(), FreshVolume(), 0, c) ==
            if c == 0 then 0x0FFF_FFF8 else if c < 3 || c == 4 then EOC else 0
  {
    hide FragmentedFat;
    FragmentedFatEntry(c);
    assert CopySector(FreshVolume(), 0, c) == 32;
    assert Get(FragmentedDisk(), 32) == FragmentedFat();
  }

  lemma FragmentedFree()
    ensures FreshVolume().Fits(100)
    ensures var free := FreeOnDisk(FragmentedDisk(), FreshVolume(), 100);
            |free| == 96 && free[0] == 3 && free[1] == 5
    ensures ClustersFor(FreshVolume(), PreallocBytes(0) / SECTOR_SIZE) == 16
  {
    hide EntryAt, FragmentedDisk, Times, ClustersFor;
    FreshLayout();
    var fat := FatView(FragmentedDisk(), FreshVolume(), 0);
    forall c: nat | c < 128 ensures fat[c] == if c == 0 then 0x0FFF_FFF8 else if c < 3 || c == 4 then EOC else 0 {
      FragmentedEntries(c);
    }
    FreeTail(fat, 5);
    assert FreeList(fat, 4, 100) == FreeList(fat, 5, 100);
    assert FreeList(fat, 3, 100) == [3] + FreeList(fat, 5, 100);
    PreallocWholeClusters(FreshVolume(), 0);
    Sixteen(ClustersFor(FreshVolume(), PreallocBytes(0) / SECTOR_SIZE));
  }

  lemma {:induction false} FreeTail(fat: seq<nat>, lo: nat)
    requires 2 <= lo <= 100 <= |fat| && forall c :: lo <= c < 100 ==> fat[c] == 0
    ensures |FreeList(fat, lo, 100)| == 100 - lo && (lo < 100 ==> FreeList(fat, lo, 100)[0] == lo)
    decreases 100 - lo
  {
    if lo < 100 {
      FreeTail(fat, lo + 1);
    }
  }

  /** Creating a log on this card takes clusters 3, 5, 6, .. and wipes the file in cluster 4. */
  lemma FragmentedInput(name: seq<byte>)
    requires |name| == 11
    ensures FreshVolume().Fits(100)
    ensures ClustersFor(FreshVolume(), PreallocBytes(0) / SECTOR_SIZE) <=
            |FreeOnDisk(FragmentedDisk(), FreshVolume(), 100)|
    ensures var d, v := FragmentedDisk(), FreshVolume();
            var p := FreeOnDisk(d, v, 100)[..16];
            var e := LogSpec.Create(d, v, 100, name, PreallocBytes(0), DIR_LBA, 0).0;
            && !Contiguous(p) && FatView(d, v, 0)[4] == EOC && ClusterStart(v, 4) == FILE_LBA
            && Get(d, FILE_LBA) == SomeData() && SomeData() != ZeroSector() && Get(e, FILE_LBA) == ZeroSector()
  {
    hide FragmentedDisk, FatView, ClustersFor, LinkDisk, ZeroRange, FreeOnDisk, DirEntry, Times, ClusToLba,
         LogSpec.Create, SomeData, ZeroSector, Splice, Get;
    var d, v := FragmentedDisk(), FreshVolume();
    FragmentedFree();
    FragmentedEntries(4);
    FragmentedPlaces();
    SomeDataHere();
    var p := FreeOnDisk(d, v, 100)[..16];
    assert p[0] == 3 && p[1] == 5;
    CreateParts(d, v, 100, name, PreallocBytes(0), DIR_LBA, 0, 162, 2210);
    var z := ZeroRange(LinkDisk(d, v, p), 162, 2210);
    ZeroRangeGet(LinkDisk(d, v, p), 162, 2210);
    GetUpdate(z, DIR_LBA, Splice(Get(z, DIR_LBA), 0, DirEntry(name, 3, PreallocBytes(0))), FILE_LBA);
  }

  lemma FragmentedPlaces()
    ensures ClusToLba(FreshVolume(), 3) == 162 && ClusterStart(FreshVolume(), 4) == FILE_LBA
  {
    TimesIsProduct(2, 128);
  }

  lemma SomeDataHere()
    ensures Get(FragmentedDisk(), FILE_LBA) == SomeData() && SomeData() != ZeroSector()
  {
    assert SomeData()[0] != ZeroSector()[0];
  }
}
