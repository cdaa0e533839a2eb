/** Opening a log: the search for a number, resuming or creating, and the configuration the
    next session starts from (fat32_log.c:140-327, config.c). */
module LogOpening {
  import opened Bytes
  import opened SectorDevice
  import opened Volumes
  import opened FatTable
  import opened Chains
  import opened LogSpec
  import opened Directory
  import opened CrashSafety
  import opened LogFiles
  import opened Configs

  const LAST_NUMBER := 65534
  /** An existing file with the given name whose size is not the pre-allocated one. */
  predicate TakenByOther(slots: seq<Slot>, num: nat, prealloc: nat) {
    var r := Scan(slots, LogName(num));
    r.Found? && r.slot < |slots| && EntrySize(slots[r.slot]) != prealloc
  }

  /** Where a search over log numbers ends. */
  datatype Answer = AtFile(num: nat, slot: nat) | Unused(num: nat) | NamesTaken

  /** The search from number m on, over the slots of a directory. */
  function SearchFrom(slots: seq<Slot>, m: nat, prealloc: nat): Answer
    decreases LAST_NUMBER + 1 - m
  {
    if m > LAST_NUMBER then NamesTaken
    else match Scan(slots, LogName(m))
         case Missing(_) => Unused(m)
         case Found(n) =>
           if n < |slots| && EntrySize(slots[n]) != prealloc then SearchFrom(slots, m + 1, prealloc) else AtFile(m, n)
  }

  ghost predicate TakenBetween(slots: seq<Slot>, from: nat, to: nat, prealloc: nat) {
    forall j :: from <= j < to ==> TakenByOther(slots, j, prealloc)
  }

  lemma {:induction false} SearchSkips(slots: seq<Slot>, m: nat, to: nat, prealloc: nat)
    requires m <= to <= LAST_NUMBER + 1 && TakenBetween(slots, m, to, prealloc)
    ensures SearchFrom(slots, m, prealloc) == SearchFrom(slots, to, prealloc)
    decreases LAST_NUMBER + 1 - m
  {
    hide Scan, LogName;
    if m < to {
      assert TakenByOther(slots, m, prealloc);
      SearchSkips(slots, m + 1, to, prealloc);
    }
  }

  /** The search ends at a file exactly when that file is the first answer to its number, has
      the pre-allocated size, and every number before it names a file of another size. */
  lemma {:induction false} SearchEndsIff(slots: seq<Slot>, m: nat, prealloc: nat, num: nat, n: nat)
    requires n < |slots|
    ensures SearchFrom(slots, m, prealloc) == AtFile(num, n) <==>
              && m <= num <= LAST_NUMBER && TakenBetween(slots, m, num, prealloc)
              && Scan(slots, LogName(num)) == Found(n) && EntrySize(slots[n]) == prealloc
    decreases LAST_NUMBER + 1 - m
  {
    hide Scan, LogName, EntrySize;
    if m <= LAST_NUMBER {
      assert m < num && TakenBetween(slots, m, num, prealloc) ==> TakenByOther(slots, m, prealloc);
      if TakenByOther(slots, m, prealloc) {
        SearchEndsIff(slots, m + 1, prealloc, num, n);
      }
    }
  }

  /** Chains exist for the files that resume may pick up. */
  ghost predicate HasChain(d: Disk, v: Volume, first: nat) {
    exists q :: IsChain(FatView(d, v, 0), q) && q[0] == first
  }

  /** The file that resume would pick up has a chain. */
  ghost predicate Resumable(d: Disk, v: Volume, slots: seq<Slot>, from: nat, prealloc: nat) {
    var a := SearchFrom(slots, from, prealloc);
    a.AtFile? && a.slot < |slots| ==> HasChain(d, v, EntryCluster(slots[a.slot]))
  }

  /** How the search over log numbers stops: at a file to resume, at an unused name
      (the `break`), or with every name up to the last one taken. */
  datatype Search = Resumes(entry: Slot) | Gap | Exhausted

  /** What looking up one number has established. */
  ghost predicate LookedUp(d: Disk, lbas: seq<nat>, num: nat, prealloc: nat, r: Search,
                           foundLba: nat, foundOff: nat, emptyLba: nat, emptyOff: nat, free: Option<nat>)
  {
    var slots := Slots(d, lbas);
    var answer := Scan(slots, LogName(num));
    && Records(lbas, free, emptyLba, emptyOff)
    && match r
       case Resumes(entry) =>
         && answer.Found? && SlotPlace(lbas, answer.slot, foundLba, foundOff)
         && entry == slots[answer.slot] && EntrySize(entry) == prealloc
       case Gap => answer == Missing(free)
       case Exhausted => TakenByOther(slots, num, prealloc) && FreeBefore(slots, free, answer.slot)
  }

  ghost predicate AllTaken(d: Disk, lbas: seq<nat>, from: nat, to: nat, prealloc: nat) {
    TakenBetween(Slots(d, lbas), from, to, prealloc)
  }

  /** What looking up the last number says about the whole search. */
  lemma SearchedFrom(d: Disk, lbas: seq<nat>, from: nat, num: nat, prealloc: nat, r: Search,
                     foundLba: nat, foundOff: nat, emptyLba: nat, emptyOff: nat, free: Option<nat>)
    returns (n: nat)
    requires from <= num <= LAST_NUMBER && AllTaken(d, lbas, from, num, prealloc)
    requires LookedUp(d, lbas, num, prealloc, r, foundLba, foundOff, emptyLba, emptyOff, free)
    requires r.Exhausted? ==> num == LAST_NUMBER
    ensures SearchFrom(Slots(d, lbas), from, prealloc) == AnswerOf(r, num, n)
    ensures r.Resumes? ==> Scan(Slots(d, lbas), LogName(num)) == Found(n)
  {
    hide Scan, LogName, Slots, EntrySize;
    n := match Scan(Slots(d, lbas), LogName(num)) case Found(x) => x case Missing(_) => 0;
    SearchSkips(Slots(d, lbas), from, num, prealloc);
  }

  lemma TakenThen(d: Disk, lbas: seq<nat>, from: nat, num: nat, prealloc: nat, r: Search,
                  foundLba: nat, foundOff: nat, emptyLba: nat, emptyOff: nat, free: Option<nat>)
    requires LookedUp(d, lbas, num, prealloc, r, foundLba, foundOff, emptyLba, emptyOff, free) && r.Exhausted?
    requires AllTaken(d, lbas, from, num, prealloc)
    ensures AllTaken(d, lbas, from, num + 1, prealloc)
  {}

  method LookUp(card: SdCard, ring: array<byte>, v: Volume, num: nat, prealloc: nat, ghost hi: nat, ghost p: seq<nat>)
    returns (st: Status, r: Search, foundLba: nat, foundOff: nat, emptyLba: nat, emptyOff: nat, ghost free: Option<nat>)
    requires ring.Length >= SECTOR_SIZE && RootPath(card.disk, v, hi, p)
    modifies card`failures, ring
    ensures card.failures == old(card.failures) + Failed(st)
    ensures st in {Ok, SdError}
    ensures Clusters(p)
    ensures st.Ok? ==>
              LookedUp(card.disk, ChainLbas(v, p), num, prealloc, r, foundLba, foundOff, emptyLba, emptyOff, free)
  {
    hide Slots, ChainLbas, Records, FreeBefore, Scan, RootPath, LogName, Times, Upper, EntrySize;
    PathClusters(card.disk, v, hi, p);
    ghost var lbas := ChainLbas(v, p);
    r := Exhausted;
    var name := MakeLogname(num);
    var found;
    st, found, foundLba, foundOff, emptyLba, emptyOff, free := ScanRootDir(card, ring, v, name[..], hi, p);
    if !st.Ok? {
      return;
    }
    if !found {
      r := Gap;
      return;
    }
    st := card.ReadSector(foundLba, ring);
    if !st.Ok? {
      return;
    }
    SlotInBuffer(card.disk, lbas, Scan(Slots(card.disk, lbas), LogName(num)).slot, ring);
    var entry := ring[foundOff..foundOff + SLOT];
    if EntrySize(entry) == prealloc {
      r := Resumes(entry);
    }
  }

  /** The search over log numbers. Every number before the one it stops at belongs to a
      file of another size. */
  method SearchNames(card: SdCard, ring: array<byte>, v: Volume, cfg: Config, prealloc: nat, ghost hi: nat,
                     ghost p: seq<nat>)
    returns (st: Status, r: Search, num: nat, foundLba: nat, foundOff: nat, emptyLba: nat, emptyOff: nat,
             ghost free: Option<nat>)
    requires ring.Length >= SECTOR_SIZE && RootPath(card.disk, v, hi, p) && cfg.logNum <= LAST_NUMBER
    modifies card`failures, ring, cfg`logNum
    ensures card.failures == old(card.failures) + Failed(st)
    ensures st in {Ok, SdError} && old(cfg.logNum) <= cfg.logNum
    ensures Clusters(p)
    ensures st.Ok? ==>
              var lbas := ChainLbas(v, p);
              && old(cfg.logNum) <= num <= LAST_NUMBER
              && LookedUp(card.disk, lbas, num, prealloc, r, foundLba, foundOff, emptyLba, emptyOff, free)
              && AllTaken(card.disk, lbas, old(cfg.logNum), num, prealloc)
              && cfg.logNum == (if r.Exhausted? then LAST_NUMBER + 1 else num)
              && (r.Exhausted? ==> num == LAST_NUMBER)
  {
    hide Slots, ChainLbas, RootPath, TakenByOther, Times, LookedUp, AllTaken;
    PathClusters(card.disk, v, hi, p);
    ghost var lbas := ChainLbas(v, p);
    ghost var start := cfg.logNum;
    NoneTaken(card.disk, lbas, start, prealloc);
    st, r, num, foundLba, foundOff, emptyLba, emptyOff, free := Ok, Exhausted, cfg.logNum, 0, 0, 0, 0, None;
    while cfg.logNum < LAST_NUMBER + 1
      invariant card.failures == old(card.failures)
      invariant st.Ok? && r.Exhausted? && start <= cfg.logNum <= LAST_NUMBER + 1
      invariant AllTaken(card.disk, lbas, start, cfg.logNum, prealloc)
      invariant cfg.logNum > start ==>
                  && cfg.logNum == num + 1
                  && LookedUp(card.disk, lbas, num, prealloc, r, foundLba, foundOff, emptyLba, emptyOff, free)
      decreases LAST_NUMBER + 1 - cfg.logNum
    {
      num := cfg.logNum;
      st, r, foundLba, foundOff, emptyLba, emptyOff, free := LookUp(card, ring, v, num, prealloc, hi, p);
      if !st.Ok? || !r.Exhausted? {
        return;
      }
      TakenThen(card.disk, lbas, start, num, prealloc, r, foundLba, foundOff, emptyLba, emptyOff, free);
      cfg.logNum := cfg.logNum + 1;
    }
    TakenBefore(card.disk, lbas, start, num, prealloc);
  }

  lemma NoneTaken(d: Disk, lbas: seq<nat>, start: nat, prealloc: nat)
    ensures AllTaken(d, lbas, start, start, prealloc)
  {}

  lemma TakenBefore(d: Disk, lbas: seq<nat>, from: nat, num: nat, prealloc: nat)
    requires from <= num && AllTaken(d, lbas, from, num + 1, prealloc)
    ensures AllTaken(d, lbas, from, num, prealloc)
  {
    hide TakenByOther;
  }

  lemma PathClusters(d: Disk, v: Volume, hi: nat, p: seq<nat>)
    requires RootPath(d, v, hi, p)
    ensures Clusters(p)
  {}

  lemma SlotInBuffer(d: Disk, lbas: seq<nat>, n: nat, buf: array<byte>)
    requires n < SLOTS_PER_SECTOR * |lbas| && buf.Length >= SECTOR_SIZE
    requires buf[..SECTOR_SIZE] == Get(d, lbas[n / SLOTS_PER_SECTOR])
    ensures var off := n % SLOTS_PER_SECTOR * SLOT; buf[off..off + SLOT] == Slots(d, lbas)[n]
  {}

  /** What opening has done when it succeeds. */
  ghost predicate OpenedAs(d: Disk, e: Disk, v: Volume, hi: nat, lbas: seq<nat>, recorded: nat, prealloc: nat,
                           r: Search, num: nat, n: nat, s: LogState)
    requires v.Fits(hi) && SECTOR_SIZE <= prealloc < U32
  {
    var slots := Slots(d, lbas);
    n < |slots| &&
    match r
    case Resumes(entry) =>
      && e == d && Scan(slots, LogName(num)) == Found(n) && entry == slots[n] && EntrySize(entry) == prealloc
      && (exists q :: IsChain(FatView(d, v, 0), q) && q[0] == EntryCluster(entry) &&
            s == ResumeState(v, entry, lbas[n / SLOTS_PER_SECTOR], n % SLOTS_PER_SECTOR * SLOT, recorded, prealloc,
                q[|q| - 1]))
    case Gap =>
      CreatedAt(d, e, v, hi, lbas, prealloc, num, n, s) && Scan(slots, LogName(num)) == Missing(Some(n))
    case Exhausted =>
      && CreatedAt(d, e, v, hi, lbas, prealloc, num, n, s)
      && TakenByOther(slots, num, prealloc) && FreeBefore(slots, Some(n), Scan(slots, LogName(num)).slot)
  }

  /** No slot for a new entry: none is free at all, or, with every name taken, none before the
      entry of the last number. */
  ghost predicate NoPlace(slots: seq<Slot>, a: Answer) {
    match a
    case AtFile(_, _) => false
    case Unused(_) => forall m :: 0 <= m < |slots| ==> !Free(slots[m])
    case NamesTaken =>
      var last := Scan(slots, LogName(LAST_NUMBER));
      last.Found? && forall m :: 0 <= m < last.slot && m < |slots| ==> !Free(slots[m])
  }

  lemma ResumeNeedsNoPlace(slots: seq<Slot>, num: nat, n: nat)
    ensures !NoPlace(slots, AtFile(num, n))
  {}

  /** Creation of file number num in free directory slot n. */
  ghost predicate CreatedAt(d: Disk, e: Disk, v: Volume, hi: nat, lbas: seq<nat>, prealloc: nat, num: nat, n: nat,
                            s: LogState)
    requires v.Fits(hi) && SECTOR_SIZE <= prealloc < U32 && n < SLOTS_PER_SECTOR * |lbas|
  {
    && ClustersFor(v, prealloc / SECTOR_SIZE) <= |FreeOnDisk(d, v, hi)|
    && Free(Slots(d, lbas)[n])
    && (e, s) == LogSpec.Create(d, v, hi, LogName(num), prealloc,
                                lbas[n / SLOTS_PER_SECTOR], n % SLOTS_PER_SECTOR * SLOT)
  }

  /** A slot the search recorded is a free one, in the place recorded. */
  lemma RecordedSlot(d: Disk, v: Volume, hi: nat, p: seq<nat>, num: nat, prealloc: nat, r: Search,
                     foundLba: nat, foundOff: nat, emptyLba: nat, emptyOff: nat, free: Option<nat>)
    requires RootPath(d, v, hi, p) && Clusters(p) && !r.Resumes? && (r.Exhausted? ==> num == LAST_NUMBER)
    requires LookedUp(d, ChainLbas(v, p), num, prealloc, r, foundLba, foundOff, emptyLba, emptyOff, free)
    ensures emptyLba == 0 <==> free.None?
    ensures free.None? <==> NoPlace(Slots(d, ChainLbas(v, p)), AnswerOf(r, num, 0))
    ensures free.Some? ==>
              var slots := Slots(d, ChainLbas(v, p));
              && SlotPlace(ChainLbas(v, p), free.value, emptyLba, emptyOff)
              && free.value < |slots| && Free(slots[free.value])
              && (r.Gap? ==> Scan(slots, LogName(num)) == Missing(free))
              && (r.Exhausted? ==> TakenByOther(slots, num, prealloc) &&
                                   FreeBefore(slots, free, Scan(slots, LogName(num)).slot))
  {
    hide ChainLbas, Times, ScanFrom, LogName, IsChain, FatView;
    var slots := Slots(d, ChainLbas(v, p));
    ScanMeaning(slots, LogName(num));
    if free.Some? {
      DirSectorPositive(v, p, free.value / SLOTS_PER_SECTOR);
    }
  }

  lemma DirSectorPositive(v: Volume, p: seq<nat>, j: nat)
    requires v.Layout() && Clusters(p) && j < Times(|p|, v.secPerClus)
    ensures ChainLbas(v, p)[j] > 0
  {
    hide ChainLbas;
    TimesMono(0, v.numFats, v.fatSz32);
    var i, t := Decompose(j, |p|, v.secPerClus);
    ChainLbaAt(v, p, i, t);
  }

  /** The create path for a given number and directory slot. */
  method CreateInSlot(card: SdCard, ring: array<byte>, v: Volume, log: LogFile, number: nat, prealloc: nat,
                      emptyLba: nat, emptyOff: nat, ghost hi: nat, ghost lbas: seq<nat>, ghost n: nat, ghost lo: nat,
                      ghost end: nat)
    returns (st: Status, ghost added: seq<Disk>, ghost complete: Disk)
    requires ring.Length >= SECTOR_SIZE && v.Fits(hi) && SECTOR_SIZE <= prealloc < U32
    requires ClustersFor(v, prealloc / SECTOR_SIZE) <= |FreeOnDisk(card.disk, v, hi)|
    requires FillRegion(card.disk, v, hi, prealloc, lo, end)
    requires SlotPlace(lbas, n, emptyLba, emptyOff) && Free(Slots(card.disk, lbas)[n])
    modifies log, card, ring
    ensures card.failures == old(card.failures) + Failed(st)
    ensures st in {Ok, SdError}
    ensures complete == LogSpec.Create(old(card.disk), v, hi, LogName(number), prealloc,
                                       lbas[n / SLOTS_PER_SECTOR], n % SLOTS_PER_SECTOR * SLOT).0
    ensures st.Ok? ==> CreatedAt(old(card.disk), card.disk, v, hi, lbas, prealloc, number, n, log.View())
    ensures card.hist == old(card.hist) + added && AllSafe(old(card.disk), v, lo, end, complete, added)
    ensures Path(old(card.disk), added, card.disk, EraseOf(lo, end))
  {
    hide LogSpec.Create, FreeOnDisk, FillRegion, ClustersFor, LogName, AllSafe, Slots, Path;
    complete := LogSpec.Create(card.disk, v, hi, LogName(number), prealloc, emptyLba, emptyOff).0;
    var name := MakeLogname(number);
    st, added := log.Create(card, ring, v, name[..], prealloc, emptyLba, emptyOff, hi, lo, end);
  }

  /** fat32_open_log. Free clusters are needed only if the search does not end at a file to
      resume. */
  method OpenLog(card: SdCard, ring: array<byte>, v: Volume, cfg: Config, log: LogFile, eeprom: array<byte>,
                 ghost hi: nat, ghost p: seq<nat>, ghost lo: nat, ghost end: nat)
    returns (st: Status, ghost r: Search, ghost num: nat, ghost n: nat, ghost added: seq<Disk>, ghost complete: Disk)
    requires ring.Length >= SECTOR_SIZE && eeprom.Length >= REC_HI + 2 && eeprom != ring
    requires RootPath(card.disk, v, hi, p) && v.Fits(hi) && cfg.logNum <= LAST_NUMBER && cfg.baud < U32
    requires var size := PreallocBytes(cfg.preallocCode);
             && Clusters(p)
             && var slots := Slots(card.disk, ChainLbas(v, p));
             && Resumable(card.disk, v, slots, cfg.logNum, size)
             && (SearchFrom(slots, cfg.logNum, size).AtFile? || RoomToCreate(card.disk, v, hi, size, lo, end))
    modifies card, ring, cfg`logNum, log, eeprom
    ensures card.failures == old(card.failures) + Failed(st)
    ensures st.Ok? ==>
              && OpenedAs(old(card.disk), card.disk, v, hi, ChainLbas(v, p), Recorded(old(eeprom[..])),
                          PreallocBytes(cfg.preallocCode), r, num, n, log.View())
              && AllTaken(old(card.disk), ChainLbas(v, p), old(cfg.logNum), num, PreallocBytes(cfg.preallocCode))
              && cfg.logNum == (match r case Resumes(_) => num case Gap => num + 1 case Exhausted => (num + 2) % U16)
              && (if r.Resumes? then eeprom[..] == old(eeprom[..]) else Loaded(eeprom[..]) == cfg.View())
    ensures !st.Ok? ==> eeprom[..] == old(eeprom[..])
    ensures Recorded(eeprom[..]) == old(Recorded(eeprom[..]))
    ensures st in {Ok, SdError, DirectoryFull}
    ensures !st.SdError? ==>
              var slots := Slots(old(card.disk), ChainLbas(v, p));
              && SearchFrom(slots, old(cfg.logNum), PreallocBytes(cfg.preallocCode)) == AnswerOf(r, num, n)
              && (st.DirectoryFull? <==> NoPlace(slots, AnswerOf(r, num, n)))
    ensures st.DirectoryFull? ==>
              && card.disk == old(card.disk)
              && cfg.logNum == if r.Gap? then num else 65535
    ensures card.hist == old(card.hist) + added && AllSafe(old(card.disk), v, lo, end, complete, added)
    ensures Path(old(card.disk), added, card.disk, EraseOf(lo, end))
    ensures added != [] ==>
              && RoomToCreate(old(card.disk), v, hi, PreallocBytes(cfg.preallocCode), lo, end)
              && LeadsTo(old(card.disk), v, hi, ChainLbas(v, p), PreallocBytes(cfg.preallocCode), num, n, complete)
  {
    hide Slots, ChainLbas, RootPath, TakenByOther, Times, LookedUp, LogSpec.Create, FatView, FreeOnDisk, ClustersFor,
         FillRegion, AllTaken, Path, Scan, LogName, Intact, IsChain, ResumeState, OpenedAs, CreatedAt, AllSafe,
         Resumable, Volume.Fits, NoPlace, FreeBefore, Loaded, Stored, MagicOk, Splice, Recorded, SearchFrom;
    ghost var d := card.disk;
    n, added, complete := 0, [], card.disk;
    PathNone(d, EraseOf(lo, end));
    NothingYet(d, v, lo, end, complete);
    var prealloc := PreallocBytes(cfg.preallocCode);
    var search, number, foundLba, foundOff, emptyLba, emptyOff;
    ghost var free;
    ghost var from := cfg.logNum;
    st, search, number, foundLba, foundOff, emptyLba, emptyOff, free :=
      SearchNames(card, ring, v, cfg, prealloc, hi, p);
    r, num := search, number;
    if !st.Ok? {
      return;
    }
    n := SearchedFrom(d, ChainLbas(v, p), from, num, prealloc, r, foundLba, foundOff, emptyLba, emptyOff, free);
    match search {
      case Resumes(entry) =>
        ghost var q;
        ResumedSlot(d, v, ChainLbas(v, p), from, num, prealloc, r, foundLba, foundOff, emptyLba, emptyOff, free, n);
        q := ChainFrom(d, v, EntryCluster(entry));
        var recorded := Recorded(eeprom[..]);
        st := log.Resume(card, ring, v, entry, foundLba, foundOff, recorded, prealloc, q);
        ResumeNeedsNoPlace(Slots(d, ChainLbas(v, p)), num, n);
        OpenedByResume(d, v, hi, ChainLbas(v, p), recorded, prealloc, r, num, n, q);
        return;
      case _ =>
    }
    RecordedSlot(d, v, hi, p, num, prealloc, r, foundLba, foundOff, emptyLba, emptyOff, free);
    if emptyLba == 0 {
      st := DirectoryFull;
      return;
    }
    n := free.value;
    st, added, complete :=
      CreateInSlot(card, ring, v, log, number, prealloc, emptyLba, emptyOff, hi, ChainLbas(v, p), n, lo, end);
    if !st.Ok? {
      return;
    }
    OpenedByCreation(d, card.disk, v, hi, ChainLbas(v, p), Recorded(eeprom[..]), prealloc, r, num, n, log.View());
    SaveNextNumber(cfg, eeprom);
  }

  /** A number is saved once its file has been created. */
  method SaveNextNumber(cfg: Config, eeprom: array<byte>)
    requires eeprom.Length >= REC_HI + 2 && cfg.baud < U32
    modifies cfg`logNum, eeprom
    ensures cfg.logNum == (old(cfg.logNum) + 1) % U16 && Loaded(eeprom[..]) == cfg.View()
    ensures Recorded(eeprom[..]) == old(Recorded(eeprom[..]))
  {
    hide Loaded, Stored, MagicOk, Splice, Recorded;
    cfg.logNum := (cfg.logNum + 1) % U16;
    SaveRoundTrip(eeprom[..], cfg.View());
    cfg.Save(eeprom);
  }

  function AnswerOf(r: Search, num: nat, n: nat): Answer {
    match r
    case Resumes(_) => AtFile(num, n)
    case Gap => Unused(num)
    case Exhausted => NamesTaken
  }

  /** Enough free clusters for the pre-allocation; its region runs from lo to end. */
  ghost predicate RoomToCreate(d: Disk, v: Volume, hi: nat, size: nat, lo: nat, end: nat)
    requires v.Fits(hi)
  {
    && SECTOR_SIZE <= size < U32
    && ClustersFor(v, size / SECTOR_SIZE) <= |FreeOnDisk(d, v, hi)|
    && FillRegion(d, v, hi, size, lo, end)
  }

  /** The disk that creating file number num in slot n leads to. */
  ghost predicate LeadsTo(d: Disk, v: Volume, hi: nat, lbas: seq<nat>, size: nat, num: nat, n: nat, complete: Disk)
    requires v.Fits(hi) && SECTOR_SIZE <= size < U32 && ClustersFor(v, size / SECTOR_SIZE) <= |FreeOnDisk(d, v, hi)|
  {
    && n < SLOTS_PER_SECTOR * |lbas|
    && complete == LogSpec.Create(d, v, hi, LogName(num), size,
                                  lbas[n / SLOTS_PER_SECTOR], n % SLOTS_PER_SECTOR * SLOT).0
  }

  lemma NothingYet(d: Disk, v: Volume, lo: nat, end: nat, complete: Disk)
    ensures AllSafe(d, v, lo, end, complete, [])
  {}

  lemma OpenedByResume(d: Disk, v: Volume, hi: nat, lbas: seq<nat>, recorded: nat, prealloc: nat,
                       r: Search, num: nat, n: nat, q: seq<nat>)
    requires v.Fits(hi) && SECTOR_SIZE <= prealloc < U32 && r.Resumes? && n < |Slots(d, lbas)|
    requires Scan(Slots(d, lbas), LogName(num)) == Found(n) && r.entry == Slots(d, lbas)[n] &&
             EntrySize(r.entry) == prealloc
    requires IsChain(FatView(d, v, 0), q) && q[0] == EntryCluster(r.entry)
    ensures OpenedAs(d, d, v, hi, lbas, recorded, prealloc, r, num, n,
                     ResumeState(v, r.entry, lbas[n / SLOTS_PER_SECTOR], n % SLOTS_PER_SECTOR * SLOT, recorded,
                         prealloc, q[|q| - 1]))
  {}

  lemma OpenedByCreation(d: Disk, e: Disk, v: Volume, hi: nat, lbas: seq<nat>, recorded: nat,
                         prealloc: nat,
                         r: Search, num: nat, n: nat, s: LogState)
    requires v.Fits(hi) && SECTOR_SIZE <= prealloc < U32 && !r.Resumes? && n < |Slots(d, lbas)|
    requires CreatedAt(d, e, v, hi, lbas, prealloc, num, n, s)
    requires r.Gap? ==> Scan(Slots(d, lbas), LogName(num)) == Missing(Some(n))
    requires r.Exhausted? ==> TakenByOther(Slots(d, lbas), num, prealloc) &&
                              FreeBefore(Slots(d, lbas), Some(n), Scan(Slots(d, lbas), LogName(num)).slot)
    ensures OpenedAs(d, e, v, hi, lbas, recorded, prealloc, r, num, n, s)
  {
    hide Slots, Scan, LogName, FatView, CreatedAt;
  }

  /** The entry to resume is the one in slot n, and a chain starts at its first cluster. */
  lemma ResumedSlot(d: Disk, v: Volume, lbas: seq<nat>, from: nat, num: nat, prealloc: nat,
                    r: Search,
                    foundLba: nat, foundOff: nat, emptyLba: nat, emptyOff: nat, free: Option<nat>,
                    n: nat)
    requires r.Resumes? && Resumable(d, v, Slots(d, lbas), from, prealloc)
    requires SearchFrom(Slots(d, lbas), from, prealloc) == AtFile(num, n) &&
             Scan(Slots(d, lbas), LogName(num)) == Found(n)
    requires LookedUp(d, lbas, num, prealloc, r, foundLba, foundOff, emptyLba, emptyOff, free)
    ensures n < |Slots(d, lbas)| && SlotPlace(lbas, n, foundLba, foundOff)
    ensures r.entry == Slots(d, lbas)[n] && EntrySize(r.entry) == prealloc
    ensures HasChain(d, v, EntryCluster(r.entry))
  {
    hide Scan, LogName, FatView, SearchFrom, EntryCluster, EntrySize, IsChain, Records;
  }

  lemma ChainFrom(d: Disk, v: Volume, first: nat) returns (q: seq<nat>)
    requires HasChain(d, v, first)
    ensures IsChain(FatView(d, v, 0), q) && q[0] == first
  {
    hide FatView;
    q :| IsChain(FatView(d, v, 0), q) && q[0] == first;
  }
}
